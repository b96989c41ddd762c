/**
  The PowerPC 64-bit ELFv2 call VM and argument iterator as objects (dyncall_callvm_ppc64.c,
  dyncall_args_ppc64.c).
 */
module Ppc64Vm {
  import opened Memory
  import opened Arguments
  import opened Ppc64

  /** DCCallVM_ppc64 */
  class CallVM {
    var mIntRegs: nat
    var mFloatRegs: nat
    const mIntData: array<Eightbyte>
    const mFloatData: array<Eightbyte>
    const vec: Vector

    ghost predicate Valid()
      reads this
    {
      && mIntRegs <= INT_REGS && mFloatRegs <= FLOAT_REGS
      && mIntData.Length == INT_REGS && mFloatData.Length == FLOAT_REGS && mIntData != mFloatData
    }

    ghost function State(): (s: Caller)
      reads this, mIntData, mFloatData, vec, vec.data
      requires Valid()
      ensures s.Valid()
    {
      Caller(mIntRegs, mFloatRegs, mIntData[..], mFloatData[..], vec.Value())
    }

    constructor (total: nat)
      ensures Valid() && Fresh(State()) && |State().vec.mem| == total
      ensures fresh(this) && fresh(mIntData) && fresh(mFloatData) && fresh(vec) && fresh(vec.data)
    {
      mIntData := new Eightbyte[INT_REGS];
      mFloatData := new Eightbyte[FLOAT_REGS];
      vec := new Vector(total);
      mIntRegs, mFloatRegs := 0, 0;
    }

    /** dc_callvm_argLongLong_ppc64 */
    method ArgLongLong(x: Eightbyte)
      requires Valid()
      modifies this, mIntData, vec, vec.data
      ensures Valid() && State() == PushLong(old(State()), x)
    {
      if mIntRegs < INT_REGS {
        mIntData[mIntRegs] := x;
        mIntRegs := mIntRegs + 1;
        return;
      }
      if vec.mSize == 0 {
        vec.Skip(8 * 8);
      }
      vec.Append(x);
    }

    /** dc_callvm_argDouble_ppc64 when d == onStack; dc_callvm_argFloat_ppc64 with the widened and the padded float */
    method ArgFp(d: Eightbyte, onStack: Eightbyte)
      requires Valid()
      modifies this, mIntData, mFloatData, vec, vec.data
      ensures Valid() && State() == PushFp(old(State()), d, onStack)
    {
      if mFloatRegs < FLOAT_REGS {
        mFloatData[mFloatRegs] := d;
        mFloatRegs := mFloatRegs + 1;
        if mIntRegs < INT_REGS {
          mIntData[mIntRegs] := d;
          mIntRegs := mIntRegs + 1;
          return;
        }
      }
      if vec.mSize == 0 {
        vec.Skip(8 * 8);
      }
      vec.Append(onStack);
    }

    /** dc_callvm_argLongLong_ppc64_ellipsis */
    method ArgLongLongEllipsis(x: Eightbyte)
      requires Valid()
      modifies this, mIntData, vec, vec.data
      ensures Valid() && State() == PushLongVariadic(old(State()), x)
    {
      if vec.mSize == 0 {
        vec.Skip(8 * mIntRegs);
      }
      if mIntRegs < INT_REGS {
        mIntData[mIntRegs] := x;
        mIntRegs := mIntRegs + 1;
      }
      vec.Append(x);
    }

    /** dc_callvm_argDouble_ppc64_ellipsis */
    method ArgDoubleEllipsis(d: Eightbyte)
      requires Valid()
      modifies this, mIntData, mFloatData, vec, vec.data
      ensures Valid() && State() == PushDoubleVariadic(old(State()), d)
    {
      if vec.mSize == 0 {
        vec.Skip(8 * mIntRegs);
      }
      if mFloatRegs < FLOAT_REGS {
        mFloatData[mFloatRegs] := d;
        mFloatRegs := mFloatRegs + 1;
        if mIntRegs < INT_REGS {
          mIntData[mIntRegs] := d;
          mIntRegs := mIntRegs + 1;
        }
      }
      vec.Append(d);
    }

    /** Any argument, named or variadic, dispatched as dcArgXxx does. */
    method Arg(u: FloatUnit, x: Item)
      requires Valid()
      modifies this, mIntData, mFloatData, vec, vec.data
      ensures Valid() && State() == Push(u, old(State()), x)
    {
      match x.a
      case WordArg(w) =>
        if x.variadic {
          ArgLongLongEllipsis(SignExtend(w, 8));
        } else {
          ArgLongLong(SignExtend(w, 8));
        }
      case LongArg(l) =>
        if x.variadic {
          ArgLongLongEllipsis(l);
        } else {
          ArgLongLong(l);
        }
      case FloatArg(f) =>
        if x.variadic {
          ArgDoubleEllipsis(u.widen(f));
        } else {
          var lo: seq<byte> := f;
          ArgFp(u.widen(f), lo + x.pad);
        }
      case DoubleArg(d) =>
        if x.variadic {
          ArgDoubleEllipsis(d);
        } else {
          ArgFp(d, d);
        }
    }

    /** dc_callvm_reset_ppc64 */
    method Reset()
      requires Valid()
      modifies this, vec
      ensures Valid() && Fresh(State()) && State().vec.mem == old(State().vec.mem)
    {
      vec.Resize(0);
      mIntRegs, mFloatRegs := 0, 0;
    }
  }

  /** DCArgs */
  class Args {
    var iregCount: nat
    var fregCount: nat
    var stackptr: nat
    const img: Image

    ghost function State(): Reader
      reads this
    {
      Reader(iregCount, fregCount, stackptr)
    }

    constructor (img: Image)
      ensures State() == Reader(0, 0, 0) && this.img == img
    {
      this.img := img;
      iregCount, fregCount, stackptr := 0, 0, 0;
    }

    /** dcbArgLongLong */
    method ArgLongLong() returns (l: Eightbyte)
      requires img.Valid()
      modifies this
      ensures l == LongAt(old(State()), img) && State() == After(old(State()), KLong)
    {
      if iregCount < INT_REGS {
        l := img.gi[iregCount];
        iregCount := iregCount + 1;
      } else {
        l := Load(img.mem, stackptr, 8);
      }
      stackptr := stackptr + 8;
    }

    /** dcbArgDouble */
    method ArgDouble() returns (d: Eightbyte)
      requires img.Valid()
      modifies this
      ensures forall u :: d == Answer(u, old(State()), KDouble, img)
      ensures State() == After(old(State()), KDouble)
    {
      if fregCount < FLOAT_REGS {
        d := img.gf[fregCount];
        fregCount := fregCount + 1;
        if iregCount < INT_REGS {
          iregCount := iregCount + 1;
        }
      } else {
        d := Load(img.mem, stackptr, 8);
      }
      stackptr := stackptr + 8;
    }

    /** dcbArgFloat */
    method ArgFloat(u: FloatUnit) returns (f: Word)
      requires img.Valid()
      modifies this
      ensures f == Answer(u, old(State()), KFloat, img) && State() == After(old(State()), KFloat)
    {
      if fregCount < FLOAT_REGS {
        f := u.narrow(img.gf[fregCount]);
        fregCount := fregCount + 1;
        if iregCount < INT_REGS {
          iregCount := iregCount + 1;
        }
      } else {
        f := Load(img.mem, stackptr, 8)[..4];
      }
      stackptr := stackptr + 8;
    }

    /** Any request, dispatched as dcbArgXxx does. */
    method Arg(u: FloatUnit, k: Kind) returns (v: seq<byte>)
      requires img.Valid()
      modifies this
      ensures v == Answer(u, old(State()), k, img) && State() == After(old(State()), k)
    {
      match k
      case KWord =>
        var l := ArgLongLong();
        v := l[..4];
      case KLong => v := ArgLongLong();
      case KFloat => v := ArgFloat(u);
      case KDouble => v := ArgDouble();
    }
  }

  // --- whole calls --------------------------------------------------------------------------

  method PlaceAll(u: FloatUnit, vm: CallVM, items: seq<Item>)
    requires vm.Valid()
    modifies vm, vm.mIntData, vm.mFloatData, vm.vec, vm.vec.data
    ensures vm.Valid() && vm.State() == PushAll(u, old(vm.State()), items)
  {
    hide Push;
    for k := 0 to |items|
      invariant vm.Valid() && PushAll(u, vm.State(), items[k..]) == PushAll(u, old(vm.State()), items)
    {
      assert items[k..][1..] == items[k + 1..];
      vm.Arg(u, items[k]);
    }
  }

  method ReadAll(u: FloatUnit, r: Args, asks: seq<Kind>) returns (answers: seq<seq<byte>>)
    requires r.img.Valid()
    modifies r
    ensures answers == Answers(u, old(r.State()), asks, r.img)
  {
    hide Answer, After;
    answers := [];
    for k := 0 to |asks|
      invariant answers + Answers(u, r.State(), asks[k..], r.img) == Answers(u, old(r.State()), asks, r.img)
    {
      assert asks[k..][1..] == asks[k + 1..];
      var v := r.Arg(u, asks[k]);
      answers := answers + [v];
    }
  }

  /**
    A call through a used call VM to a callback, named arguments first: the handler gets the
    arguments, variadic floats as doubles, whatever registers and buffer held before.
   */
  method Call(u: FloatUnit, vm: CallVM, items: seq<Item>) returns (answers: seq<seq<byte>>)
    requires u.Lossless() && vm.Valid() && NamedFirst(items) && 8 * |items| <= vm.vec.data.Length
    modifies vm, vm.mIntData, vm.mFloatData, vm.vec, vm.vec.data
    ensures answers == ExpectedAll(u, items)
  {
    hide PushAll, Answers, NamedFirst, ExpectedAll;
    vm.Reset();
    ghost var start := vm.State();
    PlaceAll(u, vm, items);
    var r := new Args(Image(vm.mIntData[..], vm.mFloatData[..], vm.vec.data[..]));
    answers := ReadAll(u, r, Asks(items));
    CallRoundTrip(u, start, items);
  }
}
