/**
  The PowerPC 32-bit call VM and argument iterators as objects (dyncall_callvm_ppc32.c,
  dyncall_args_ppc32.c, dyncall_args_ppc32_sysv.c).
 */
module Ppc32DarwinVm {
  import opened Memory
  import opened Arguments
  import opened Ppc32Darwin

  /** DCCallVM_ppc32 with the Darwin argument functions */
  class CallVM {
    var mIntRegs: nat
    var mFloatRegs: nat
    const mIntData: array<Word>
    const mFloatData: array<Eightbyte>
    const vec: Vector

    ghost function State(): Caller
      reads this, mIntData, mFloatData, vec, vec.data
    {
      Caller(mIntRegs, mFloatRegs, mIntData[..], mFloatData[..], vec.Value())
    }

    constructor (total: nat)
      ensures Fresh(State()) && |State().vec.mem| == total
      ensures fresh(this) && fresh(mIntData) && fresh(mFloatData) && fresh(vec) && fresh(vec.data)
    {
      mIntData := new Word[INT_REGS];
      mFloatData := new Eightbyte[FLOAT_REGS];
      vec := new Vector(total);
      mIntRegs, mFloatRegs := 0, 0;
    }

    /** dc_callvm_argInt_ppc32_darwin */
    method ArgInt(x: Word)
      requires State().Valid()
      modifies this, mIntData, vec, vec.data
      ensures State() == PushInt(old(State()), x)
    {
      if mIntRegs < INT_REGS {
        mIntData[mIntRegs] := x;
        mIntRegs := mIntRegs + 1;
      }
      vec.Append(x);
    }

    /** dc_callvm_argLongLong_ppc32_darwin */
    method ArgLongLong(x: Eightbyte)
      requires State().Valid()
      modifies this, mIntData, vec, vec.data
      ensures State() == PushInt(PushInt(old(State()), x[..4]), x[4..])
    {
      ArgInt(x[..4]);
      ArgInt(x[4..]);
    }

    /** dc_callvm_argFloat_ppc32_darwin */
    method ArgFloat(u: FloatUnit, x: Word)
      requires State().Valid()
      modifies this, mIntData, mFloatData, vec, vec.data
      ensures State() == PushFloat(u, old(State()), x)
    {
      if mFloatRegs < FLOAT_REGS {
        mFloatData[mFloatRegs] := u.widen(x);
        mFloatRegs := mFloatRegs + 1;
      }
      ArgInt(x);
    }

    /** dc_callvm_argDouble_ppc32_darwin */
    method ArgDouble(x: Eightbyte)
      requires State().Valid()
      modifies this, mIntData, mFloatData, vec, vec.data
      ensures State() == PushDouble(old(State()), x)
    {
      if mFloatRegs < FLOAT_REGS {
        mFloatData[mFloatRegs] := x;
        mFloatRegs := mFloatRegs + 1;
        if mIntRegs < INT_REGS {
          mIntData[mIntRegs] := x[..4];
          mIntRegs := mIntRegs + 1;
        }
        if mIntRegs < INT_REGS {
          mIntData[mIntRegs] := x[4..];
          mIntRegs := mIntRegs + 1;
        }
      }
      vec.Append(x);
    }

    /** Any argument, dispatched as dcArgXxx does. */
    method Arg(u: FloatUnit, a: Arguments.Arg)
      requires State().Valid()
      modifies this, mIntData, mFloatData, vec, vec.data
      ensures State() == Push(u, old(State()), a)
    {
      match a
      case WordArg(b) => ArgInt(b);
      case LongArg(b) => ArgLongLong(b);
      case FloatArg(b) => ArgFloat(u, b);
      case DoubleArg(b) => ArgDouble(b);
    }

    /** dc_callvm_reset_ppc32 */
    method Reset()
      requires State().Valid()
      modifies this, vec
      ensures Fresh(State()) && State().vec.mem == old(State().vec.mem)
    {
      vec.Resize(0);
      mIntRegs, mFloatRegs := 0, 0;
    }
  }

  /** DCArgs */
  class Args {
    var iregCount: nat
    var fregCount: nat
    var stackptr: nat
    const img: Image

    ghost function State(): Reader
      reads this
    {
      Reader(iregCount, fregCount, stackptr)
    }

    constructor (img: Image)
      ensures State() == Reader(0, 0, 0) && this.img == img
    {
      this.img := img;
      iregCount, fregCount, stackptr := 0, 0, 0;
    }

    /** dcbArgInt */
    method ArgInt() returns (w: Word)
      requires img.Valid()
      modifies this
      ensures w == IntAt(old(State()), img) && State() == AfterInt(old(State()))
    {
      if iregCount < INT_REGS {
        w := img.gi[iregCount];
        iregCount := iregCount + 1;
      } else {
        w := Load(img.mem, stackptr, 4);
      }
      stackptr := stackptr + 4;
    }

    /** dcbArgULongLong */
    method ArgLongLong() returns (l: seq<byte>)
      requires img.Valid()
      modifies this
      ensures forall u :: l == Answer(u, old(State()), KLong, img)
      ensures State() == After(old(State()), KLong)
    {
      var hi: seq<byte> := ArgInt();
      var lo := ArgInt();
      l := hi + lo;
    }

    /** dcbArgDouble */
    method ArgDouble() returns (d: Eightbyte)
      requires img.Valid()
      modifies this
      ensures forall u :: d == Answer(u, old(State()), KDouble, img)
      ensures State() == After(old(State()), KDouble)
    {
      if iregCount < 7 {
        iregCount := iregCount + 2;
      } else if iregCount == 7 {
        iregCount := 8;
      }
      if fregCount < FLOAT_REGS {
        d := img.gf[fregCount];
        fregCount := fregCount + 1;
      } else {
        d := Load(img.mem, stackptr, 8);
      }
      stackptr := stackptr + 8;
    }

    /** dcbArgFloat */
    method ArgFloat(u: FloatUnit) returns (f: Word)
      requires img.Valid()
      modifies this
      ensures f == Answer(u, old(State()), KFloat, img) && State() == After(old(State()), KFloat)
    {
      if iregCount < 8 {
        iregCount := iregCount + 1;
      }
      if fregCount < FLOAT_REGS {
        f := u.narrow(img.gf[fregCount]);
        fregCount := fregCount + 1;
      } else {
        f := Load(img.mem, stackptr, 4);
      }
      stackptr := stackptr + 4;
    }

    /** Any request, dispatched as dcbArgXxx does. */
    method Arg(u: FloatUnit, k: Kind) returns (v: seq<byte>)
      requires img.Valid()
      modifies this
      ensures v == Answer(u, old(State()), k, img) && State() == After(old(State()), k)
    {
      match k
      case KWord => v := ArgInt();
      case KLong => v := ArgLongLong();
      case KFloat => v := ArgFloat(u);
      case KDouble => v := ArgDouble();
    }
  }

  // --- whole calls --------------------------------------------------------------------------

  method PlaceAll(u: FloatUnit, vm: CallVM, args: seq<Arguments.Arg>)
    requires vm.State().Valid()
    modifies vm, vm.mIntData, vm.mFloatData, vm.vec, vm.vec.data
    ensures vm.State() == PushAll(u, old(vm.State()), args)
  {
    hide Push;
    for k := 0 to |args|
      invariant vm.State().Valid() && PushAll(u, vm.State(), args[k..]) == PushAll(u, old(vm.State()), args)
    {
      assert args[k..][1..] == args[k + 1..];
      vm.Arg(u, args[k]);
    }
  }

  method ReadAll(u: FloatUnit, r: Args, kinds: seq<Kind>) returns (answers: seq<seq<byte>>)
    requires r.img.Valid()
    modifies r
    ensures answers == Answers(u, old(r.State()), kinds, r.img)
  {
    hide Answer, After;
    answers := [];
    for k := 0 to |kinds|
      invariant answers + Answers(u, r.State(), kinds[k..], r.img) == Answers(u, old(r.State()), kinds, r.img)
    {
      assert kinds[k..][1..] == kinds[k + 1..];
      var v := r.Arg(u, kinds[k]);
      answers := answers + [v];
    }
  }

  /** A call through a used call VM to a callback: the handler gets the arguments, whatever was there before. */
  method Call(u: FloatUnit, vm: CallVM, args: seq<Arguments.Arg>) returns (answers: seq<seq<byte>>)
    requires u.Lossless() && vm.State().Valid() && StackBytes(Kinds(args)) <= vm.vec.data.Length
    modifies vm, vm.mIntData, vm.mFloatData, vm.vec, vm.vec.data
    ensures answers == Contents(args)
  {
    hide PushAll, Answers, StackBytes;
    vm.Reset();
    ghost var start := vm.State();
    PlaceAll(u, vm, args);
    var r := new Args(Image(vm.mIntData[..], vm.mFloatData[..], vm.vec.data[..]));
    answers := ReadAll(u, r, Kinds(args));
    CallRoundTrip(u, start, args);
  }
}

module Ppc32SysvVm {
  import opened Memory
  import opened Arguments
  import opened Ppc32Sysv

  /** DCCallVM_ppc32 with the System V argument functions */
  class CallVM {
    var mIntRegs: nat
    var mFloatRegs: nat
    const mIntData: array<Word>
    const mFloatData: array<Eightbyte>
    const vec: Vector

    ghost function State(): Caller
      reads this, mIntData, mFloatData, vec, vec.data
    {
      Caller(mIntRegs, mFloatRegs, mIntData[..], mFloatData[..], vec.Value())
    }

    constructor (total: nat)
      ensures Fresh(State()) && |State().vec.mem| == total
      ensures fresh(this) && fresh(mIntData) && fresh(mFloatData) && fresh(vec) && fresh(vec.data)
    {
      mIntData := new Word[INT_REGS];
      mFloatData := new Eightbyte[FLOAT_REGS];
      vec := new Vector(total);
      mIntRegs, mFloatRegs := 0, 0;
    }

    /** dc_callvm_argInt_ppc32_sysv */
    method ArgInt(x: Word)
      requires State().Valid()
      modifies this, mIntData, vec, vec.data
      ensures State() == PushInt(old(State()), x)
    {
      if mIntRegs < INT_REGS {
        mIntData[mIntRegs] := x;
        mIntRegs := mIntRegs + 1;
      } else {
        vec.Append(x);
      }
    }

    /** dc_callvm_argLongLong_ppc32_sysv */
    method ArgLongLong(x: Eightbyte)
      requires State().Valid()
      modifies this, mIntData, vec, vec.data
      ensures State() == PushLong(old(State()), x)
    {
      if mIntRegs < 7 {
        if mIntRegs % 2 == 1 {
          mIntRegs := mIntRegs + 1;
        }
        mIntData[mIntRegs] := x[..4];
        mIntData[mIntRegs + 1] := x[4..];
        mIntRegs := mIntRegs + 2;
      } else {
        mIntRegs := 8;
        vec.Align(8);
        vec.Append(x);
      }
    }

    /** dc_callvm_argDouble_ppc32_sysv */
    method ArgDouble(x: Eightbyte)
      requires State().Valid()
      modifies this, mFloatData, vec, vec.data
      ensures State() == PushDouble(old(State()), x)
    {
      if mFloatRegs < FLOAT_REGS {
        mFloatData[mFloatRegs] := x;
        mFloatRegs := mFloatRegs + 1;
      } else {
        vec.Align(8);
        vec.Append(x);
      }
    }

    /** dc_callvm_argFloat_ppc32_sysv */
    method ArgFloat(u: FloatUnit, x: Word)
      requires State().Valid()
      modifies this, mFloatData, vec, vec.data
      ensures State() == PushFloat(u, old(State()), x)
    {
      if mFloatRegs < FLOAT_REGS {
        mFloatData[mFloatRegs] := u.widen(x);
        mFloatRegs := mFloatRegs + 1;
      } else {
        vec.Append(x);
      }
    }

    /** Any argument, dispatched as dcArgXxx does. */
    method Arg(u: FloatUnit, a: Arguments.Arg)
      requires State().Valid()
      modifies this, mIntData, mFloatData, vec, vec.data
      ensures State() == Push(u, old(State()), a)
    {
      match a
      case WordArg(b) => ArgInt(b);
      case LongArg(b) => ArgLongLong(b);
      case FloatArg(b) => ArgFloat(u, b);
      case DoubleArg(b) => ArgDouble(b);
    }

    /** dc_callvm_reset_ppc32 */
    method Reset()
      requires State().Valid()
      modifies this, vec
      ensures Fresh(State()) && State().vec.mem == old(State().vec.mem)
    {
      vec.Resize(0);
      mIntRegs, mFloatRegs := 0, 0;
    }
  }

  /** DCArgs */
  class Args {
    var iregCount: nat
    var fregCount: nat
    var stackptr: nat
    const img: Image

    ghost function State(): Reader
      reads this
    {
      Reader(iregCount, fregCount, stackptr)
    }

    constructor (img: Image)
      ensures State() == Reader(0, 0, 0) && this.img == img
    {
      this.img := img;
      iregCount, fregCount, stackptr := 0, 0, 0;
    }

    /** dcbArgInt */
    method ArgInt() returns (w: Word)
      requires img.Valid()
      modifies this
      ensures forall u :: w == Answer(u, old(State()), KWord, img)
      ensures State() == After(old(State()), KWord)
    {
      if iregCount < INT_REGS {
        w := img.gi[iregCount];
        iregCount := iregCount + 1;
      } else {
        w := Load(img.mem, stackptr, 4);
        stackptr := stackptr + 4;
      }
    }

    /** dcbArgULongLong */
    method ArgLongLong() returns (l: seq<byte>)
      requires img.Valid()
      modifies this
      ensures forall u :: l == Answer(u, old(State()), KLong, img)
      ensures State() == After(old(State()), KLong)
    {
      if iregCount < 7 {
        iregCount := (iregCount + 1) / 2 * 2;
        var hi: seq<byte> := img.gi[iregCount];
        l := hi + img.gi[iregCount + 1];
        iregCount := iregCount + 2;
      } else {
        iregCount := 8;
        stackptr := RoundUp(stackptr, 8);
        l := Load(img.mem, stackptr, 8);
        stackptr := stackptr + 8;
      }
    }

    /** dcbArgDouble */
    method ArgDouble() returns (d: Eightbyte)
      requires img.Valid()
      modifies this
      ensures forall u :: d == Answer(u, old(State()), KDouble, img)
      ensures State() == After(old(State()), KDouble)
    {
      if fregCount < FLOAT_REGS {
        d := img.gf[fregCount];
        fregCount := fregCount + 1;
      } else {
        stackptr := RoundUp(stackptr, 8);
        d := Load(img.mem, stackptr, 8);
        stackptr := stackptr + 8;
      }
    }

    /** dcbArgFloat */
    method ArgFloat(u: FloatUnit) returns (f: Word)
      requires img.Valid()
      modifies this
      ensures f == Answer(u, old(State()), KFloat, img) && State() == After(old(State()), KFloat)
    {
      if fregCount < FLOAT_REGS {
        f := u.narrow(img.gf[fregCount]);
        fregCount := fregCount + 1;
      } else {
        f := Load(img.mem, stackptr, 4);
        stackptr := stackptr + 4;
      }
    }

    /** Any request, dispatched as dcbArgXxx does. */
    method Arg(u: FloatUnit, k: Kind) returns (v: seq<byte>)
      requires img.Valid()
      modifies this
      ensures v == Answer(u, old(State()), k, img) && State() == After(old(State()), k)
    {
      match k
      case KWord => v := ArgInt();
      case KLong => v := ArgLongLong();
      case KFloat => v := ArgFloat(u);
      case KDouble => v := ArgDouble();
    }
  }

  // --- whole calls --------------------------------------------------------------------------

  method PlaceAll(u: FloatUnit, vm: CallVM, args: seq<Arguments.Arg>)
    requires vm.State().Valid()
    modifies vm, vm.mIntData, vm.mFloatData, vm.vec, vm.vec.data
    ensures vm.State() == PushAll(u, old(vm.State()), args)
  {
    hide Push;
    for k := 0 to |args|
      invariant vm.State().Valid() && PushAll(u, vm.State(), args[k..]) == PushAll(u, old(vm.State()), args)
    {
      assert args[k..][1..] == args[k + 1..];
      vm.Arg(u, args[k]);
    }
  }

  method ReadAll(u: FloatUnit, r: Args, kinds: seq<Kind>) returns (answers: seq<seq<byte>>)
    requires r.img.Valid()
    modifies r
    ensures answers == Answers(u, old(r.State()), kinds, r.img)
  {
    hide Answer, After;
    answers := [];
    for k := 0 to |kinds|
      invariant answers + Answers(u, r.State(), kinds[k..], r.img) == Answers(u, old(r.State()), kinds, r.img)
    {
      assert kinds[k..][1..] == kinds[k + 1..];
      var v := r.Arg(u, kinds[k]);
      answers := answers + [v];
    }
  }

  /** A call through a used call VM to a callback: the handler gets the arguments, whatever was there before. */
  method Call(u: FloatUnit, vm: CallVM, args: seq<Arguments.Arg>) returns (answers: seq<seq<byte>>)
    requires u.Lossless() && vm.State().Valid() && AfterAll(Reader(0, 0, 0), Kinds(args)).sp <= vm.vec.data.Length
    modifies vm, vm.mIntData, vm.mFloatData, vm.vec, vm.vec.data
    ensures answers == Contents(args)
  {
    hide PushAll, Answers, AfterAll;
    vm.Reset();
    ghost var start := vm.State();
    PlaceAll(u, vm, args);
    var r := new Args(Image(vm.mIntData[..], vm.mFloatData[..], vm.vec.data[..]));
    answers := ReadAll(u, r, Kinds(args));
    CallRoundTrip(u, start, args);
  }
}
