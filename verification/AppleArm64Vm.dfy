/**
  The Apple arm64 call VM and argument iterator as objects (dyncall_callvm_arm64_apple.c,
  dyncall_args_arm64_apple.c).
 */
module AppleArm64Vm {
  import opened Memory
  import opened AppleArm64

  /** DCCallVM_arm64; `gf` is the union of the single and double register images. */
  class CallVM {
    var i: nat
    var f: nat
    const gi: array<Eightbyte>
    const gf: array<Eightbyte>
    const vec: Vector

    ghost predicate Valid()
      reads this
    {
      i <= REGS && f <= REGS && gi.Length == REGS && gf.Length == REGS && gi != gf
    }

    ghost function State(): (s: Caller)
      reads this, gi, gf, vec, vec.data
      requires Valid()
      ensures s.Valid()
    {
      Caller(i, f, gi[..], gf[..], vec.Value())
    }

    constructor (total: nat)
      ensures Valid() && Fresh(State()) && |State().vec.mem| == total
      ensures fresh(this) && fresh(gi) && fresh(gf) && fresh(vec) && fresh(vec.data)
    {
      gi := new Eightbyte[REGS];
      gf := new Eightbyte[REGS];
      vec := new Vector(total);
      i, f := 0, 0;
    }

    /** reset */
    method Reset()
      requires Valid()
      modifies this, vec
      ensures Valid() && Fresh(State()) && State().vec.mem == old(State().vec.mem)
    {
      vec.Resize(0);
      i, f := 0, 0;
    }

    /** a_bool, a_char, a_short, a_int, a_long, a_i64 and a_pointer, which differ in the size of `x` */
    method AInt(x: seq<byte>)
      requires Valid() && |x| in {1, 2, 4, 8}
      modifies this, gi, vec, vec.data
      ensures Valid() && State() == PushInt(old(State()), x)
    {
      if i < REGS {
        gi[i] := SignExtend(x, 8);
        i := i + 1;
      } else {
        vec.Align(|x|);
        vec.Append(x);
      }
    }

    /** a_float */
    method AFloat(x: Word)
      requires Valid()
      modifies this, gf, vec, vec.data
      ensures Valid() && State() == PushFloat(old(State()), x)
    {
      if f < REGS {
        var lo: seq<byte> := x;
        gf[f] := lo + gf[f][4..];
        f := f + 1;
      } else {
        vec.Align(4);
        vec.Append(x);
      }
    }

    /** a_double */
    method ADouble(x: Eightbyte)
      requires Valid()
      modifies this, gf, vec, vec.data
      ensures Valid() && State() == PushDouble(old(State()), x)
    {
      if f < REGS {
        gf[f] := x;
        f := f + 1;
      } else {
        vec.Align(8);
        vec.Append(x);
      }
    }

    /** Any argument, dispatched as dcArgXxx does. */
    method Arg(a: AppleArm64.Arg)
      requires Valid() && a.Valid()
      modifies this, gi, gf, vec, vec.data
      ensures Valid() && State() == Push(old(State()), a)
    {
      match a
      case IntArg(b) => AInt(b);
      case FloatArg(b) => AFloat(b);
      case DoubleArg(b) => ADouble(b);
    }
  }

  /** DCArgs */
  class Args {
    var i: nat
    var f: nat
    var sp: nat
    const img: Image

    ghost function State(): Reader
      reads this
    {
      Reader(i, f, sp)
    }

    constructor (img: Image)
      ensures State() == Reader(0, 0, 0) && this.img == img
    {
      this.img := img;
      i, f, sp := 0, 0, 0;
    }

    /** The branch all readers share: align the stack pointer, load, advance. */
    method FromStack(n: nat) returns (b: seq<byte>)
      requires n in {1, 2, 4, 8}
      modifies this`sp
      ensures b == Load(img.mem, RoundUp(old(sp), n), n) && sp == RoundUp(old(sp), n) + n
    {
      sp := RoundUp(sp, n);
      b := Load(img.mem, sp, n);
      sp := sp + n;
    }

    /** dcbArgChar, dcbArgShort, dcbArgInt, dcbArgBool, dcbArgLong, dcbArgLongLong */
    method ArgInt(n: nat) returns (b: seq<byte>)
      requires img.Valid() && n in {1, 2, 4, 8}
      modifies this
      ensures b == Answer(old(State()), AskInt(n), img) && State() == After(old(State()), AskInt(n))
    {
      if i < REGS {
        b := img.gi[i][..n];
        i := i + 1;
      } else {
        b := FromStack(n);
      }
    }

    /** dcbArgFloat and dcbArgDouble */
    method ArgFp(double: bool) returns (b: seq<byte>)
      requires img.Valid()
      modifies this
      ensures var q := if double then AskDouble else AskFloat;
              b == Answer(old(State()), q, img) && State() == After(old(State()), q)
    {
      var n := if double then 8 else 4;
      if f < REGS {
        b := img.gf[f][..n];
        f := f + 1;
      } else {
        b := FromStack(n);
      }
    }

    /** Any request, dispatched as dcbArgXxx does. */
    method Arg(q: Ask) returns (b: seq<byte>)
      requires img.Valid() && q.Valid()
      modifies this
      ensures b == Answer(old(State()), q, img) && State() == After(old(State()), q)
    {
      match q
      case AskInt(n) => b := ArgInt(n);
      case AskFloat => b := ArgFp(false);
      case AskDouble => b := ArgFp(true);
    }
  }

  // --- whole calls --------------------------------------------------------------------------

  method PlaceAll(vm: CallVM, args: seq<AppleArm64.Arg>)
    requires vm.Valid() && AllValid(args)
    modifies vm, vm.gi, vm.gf, vm.vec, vm.vec.data
    ensures vm.Valid() && vm.State() == PushAll(old(vm.State()), args)
  {
    hide Push;
    for k := 0 to |args|
      invariant vm.Valid() && PushAll(vm.State(), args[k..]) == PushAll(old(vm.State()), args)
    {
      assert args[k..][1..] == args[k + 1..];
      vm.Arg(args[k]);
    }
  }

  /** Reads arguments of the types of `args`. */
  method ReadAll(r: Args, args: seq<AppleArm64.Arg>) returns (answers: seq<seq<byte>>)
    requires r.img.Valid() && AllValid(args)
    modifies r
    ensures answers == Answers(old(r.State()), args, r.img)
  {
    hide Answer, After;
    answers := [];
    for k := 0 to |args|
      invariant answers + Answers(r.State(), args[k..], r.img) == Answers(old(r.State()), args, r.img)
    {
      assert args[k..][1..] == args[k + 1..];
      assert args[k] in args;
      var v := r.Arg(AskFor(args[k]));
      answers := answers + [v];
    }
  }

  /** A call through a used call VM to a callback: the handler gets the arguments, whatever was there before. */
  method Call(vm: CallVM, args: seq<AppleArm64.Arg>) returns (answers: seq<seq<byte>>)
    requires vm.Valid() && AllValid(args) && AfterAll(Reader(0, 0, 0), args).sp <= vm.vec.data.Length
    modifies vm, vm.gi, vm.gf, vm.vec, vm.vec.data
    ensures answers == Contents(args)
  {
    hide PushAll, Answers, AfterAll;
    vm.Reset();
    ghost var start := vm.State();
    PlaceAll(vm, args);
    var r := new Args(Image(vm.gi[..], vm.gf[..], vm.vec.data[..]));
    answers := ReadAll(r, args);
    CallRoundTrip(start, args);
  }
}
