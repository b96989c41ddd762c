/**
  The ARM hard-float call VM and argument iterator as objects
  (dyncall_callvm_arm32_arm_armhf.c, dyncall_args_arm32.c).
 */
module ArmhfVm {
  import opened Memory
  import opened Arguments
  import opened Armhf

  /** DCCallVM_arm32_armhf */
  class CallVM {
    var i: nat
    var s: nat
    var d: nat
    const singles: array<Word>
    const vec: Vector

    ghost function State(): Caller
      reads this, singles, vec, vec.data
    {
      Caller(i, Fp(s, d), singles[..], vec.Value())
    }

    constructor (total: nat)
      requires total >= 16
      ensures Fresh(State(), total)
      ensures fresh(this) && fresh(singles) && fresh(vec) && fresh(vec.data)
    {
      singles := new Word[16];
      vec := new Vector(total);
      i, s, d := 0, 0, 0;
      new;
      vec.Resize(16);
    }

    /** reset */
    method Reset()
      requires State().Valid()
      modifies this, vec
      ensures Fresh(State(), vec.data.Length)
    {
      i, s, d := 0, 0, 0;
      vec.Resize(16);
    }

    /** a_int, which a_bool, a_char, a_short, a_long and a_pointer call */
    method AInt(x: Word)
      requires State().Valid()
      modifies this, vec, vec.data
      ensures State() == PushWord(old(State()), x)
    {
      if i < 16 {
        CopyBytes(vec.data, i, x);
        i := i + 4;
      } else {
        vec.Append(x);
      }
    }

    /** Spilling a 64-bit value to the next multiple of eight. */
    method AppendAligned(x: Eightbyte)
      modifies vec, vec.data
      ensures vec.Value() == Push8(old(vec.Value()), x)
    {
      vec.Skip(if vec.mSize % 8 >= 4 then 4 else 0);
      vec.Append(x);
    }

    /** a_longlong */
    method ALongLong(x: Eightbyte)
      requires State().Valid()
      modifies this, vec, vec.data
      ensures State() == PushLong(old(State()), x)
    {
      hide Push8, Load;
      assert i in {0, 4, 8, 12, 16};
      i := (i + 4) / 8 * 8;
      if i < 16 {
        CopyBytes(vec.data, i, x);
        i := i + 8;
      } else {
        AppendAligned(x);
      }
    }

    /** a_float */
    method AFloat(x: Word)
      requires State().Valid()
      modifies this, singles, vec, vec.data
      ensures State() == PushFloat(old(State()), x)
    {
      if s < 16 {
        singles[s] := x;
        s := s + 1;
        if d < s {
          d := (s + 1) / 2 * 2;
        } else {
          s := d;
        }
      } else {
        vec.Append(x);
      }
    }

    /** a_double */
    method ADouble(x: Eightbyte)
      requires State().Valid()
      modifies this, singles, vec, vec.data
      ensures State() == PushDouble(old(State()), x)
    {
      if d < 16 {
        singles[d] := x[..4];
        singles[d + 1] := x[4..];
        d := d + 2;
        if s % 2 == 0 {
          s := d;
        }
      } else {
        s := 16;
        AppendAligned(x);
      }
    }

    /** Any argument, dispatched as dcArgXxx does. */
    method Arg(a: Arguments.Arg)
      requires State().Valid()
      modifies this, singles, vec, vec.data
      ensures State() == Push(old(State()), a)
    {
      match a
      case WordArg(b) => AInt(b);
      case LongArg(b) => ALongLong(b);
      case FloatArg(b) => AFloat(b);
      case DoubleArg(b) => ADouble(b);
    }
  }

  /** DCArgs of a hard-float build */
  class Args {
    var regCount: nat
    var fregCount: nat
    var dregCount: nat
    var sp: nat
    const img: Image

    ghost function State(): Reader
      reads this
    {
      Reader(regCount, fregCount, dregCount, sp)
    }

    constructor (img: Image)
      ensures State() == READER && this.img == img
    {
      this.img := img;
      regCount, fregCount, dregCount, sp := 0, 0, 0, 16;
    }

    /** arm_align_64 */
    method AlignPair()
      modifies this
      ensures State() == Align64(old(State()))
    {
      if regCount < 4 {
        regCount := (regCount + 1) / 2 * 2;
      }
      if regCount >= 4 && sp % 8 >= 4 {
        sp := sp + 4;
      }
    }

    /** arm_word */
    method ArgWord() returns (w: Word)
      modifies this
      ensures w == WordAt(old(State()), img) && State() == AfterWord(old(State()))
    {
      if regCount < 4 {
        w := Load(img.mem, 4 * regCount, 4);
        regCount := regCount + 1;
      } else {
        w := Load(img.mem, sp, 4);
        sp := sp + 4;
      }
    }

    /** arm_longlong */
    method ArgLongLong() returns (l: Eightbyte)
      requires img.Valid()
      modifies this
      ensures l == Answer(old(State()), KLong, img) && State() == After(old(State()), KLong)
    {
      AlignPair();
      var lo: seq<byte> := ArgWord();
      var hi := ArgWord();
      l := lo + hi;
    }

    /** arm_float */
    method ArgFloat() returns (f: Word)
      requires img.Valid()
      modifies this
      ensures f == Answer(old(State()), KFloat, img) && State() == After(old(State()), KFloat)
    {
      if fregCount < 16 {
        f := img.singles[fregCount];
        fregCount := fregCount + 1;
        if fregCount % 2 == 0 && fregCount < dregCount {
          fregCount := dregCount;
        }
      } else {
        f := ArgWord();
      }
    }

    /** arm_double; dreg_count is even throughout. */
    method ArgDouble() returns (b: Eightbyte)
      requires img.Valid() && dregCount % 2 == 0
      modifies this
      ensures b == Answer(old(State()), KDouble, img) && State() == After(old(State()), KDouble)
      ensures dregCount % 2 == 0
    {
      if dregCount < fregCount {
        dregCount := (fregCount + 1) / 2 * 2;
      }
      if dregCount < 16 {
        var lo: seq<byte> := img.singles[dregCount];
        b := lo + img.singles[dregCount + 1];
        dregCount := dregCount + 2;
        if fregCount % 2 == 0 {
          fregCount := dregCount;
        }
        return;
      }
      fregCount := 16;
      AlignPair();
      var lo: seq<byte> := ArgWord();
      var hi := ArgWord();
      b := lo + hi;
    }

    /** Any request, dispatched as dcbArgXxx does. */
    method Arg(k: Kind) returns (v: seq<byte>)
      requires img.Valid() && dregCount % 2 == 0
      modifies this
      ensures v == Answer(old(State()), k, img) && State() == After(old(State()), k)
      ensures dregCount % 2 == 0
    {
      match k
      case KWord => v := ArgWord();
      case KLong => v := ArgLongLong();
      case KFloat => v := ArgFloat();
      case KDouble => v := ArgDouble();
    }
  }

  // --- whole calls --------------------------------------------------------------------------

  method PlaceAll(vm: CallVM, args: seq<Arguments.Arg>)
    requires vm.State().Valid()
    modifies vm, vm.singles, vm.vec, vm.vec.data
    ensures vm.State() == PushAll(old(vm.State()), args)
  {
    hide Push;
    for k := 0 to |args|
      invariant vm.State().Valid() && PushAll(vm.State(), args[k..]) == PushAll(old(vm.State()), args)
    {
      assert args[k..][1..] == args[k + 1..];
      vm.Arg(args[k]);
    }
  }

  method ReadAll(r: Args, kinds: seq<Kind>) returns (answers: seq<seq<byte>>)
    requires r.img.Valid() && r.dregCount % 2 == 0
    modifies r
    ensures answers == Answers(old(r.State()), kinds, r.img)
  {
    hide Answer, After;
    answers := [];
    for k := 0 to |kinds|
      invariant r.dregCount % 2 == 0
      invariant answers + Answers(r.State(), kinds[k..], r.img) == Answers(old(r.State()), kinds, r.img)
    {
      assert kinds[k..][1..] == kinds[k + 1..];
      var v := r.Arg(kinds[k]);
      answers := answers + [v];
    }
  }

  /**
    A call through a used call VM to a callback: if the FP values spill late, the handler gets
    the arguments, whatever registers and buffer held before.
   */
  method Call(vm: CallVM, args: seq<Arguments.Arg>) returns (answers: seq<seq<byte>>)
    requires vm.State().Valid() && SpillsLate(START, Kinds(args))
    requires AfterAll(READER, Kinds(args)).sp <= vm.vec.data.Length
    modifies vm, vm.singles, vm.vec, vm.vec.data
    ensures answers == Contents(args)
  {
    hide PushAll, Answers, SpillsLate, AfterAll;
    vm.Reset();
    ghost var start := vm.State();
    PlaceAll(vm, args);
    var r := new Args(Image(vm.singles[..], vm.vec.data[..]));
    assert r.img == AtCall(PushAll(start, args));
    answers := ReadAll(r, Kinds(args));
    ReadsBackExactly(Kinds(args), vm.vec.data.Length);
  }
}
