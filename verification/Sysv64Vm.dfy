/**
  The System V AMD64 call VM and argument iterator as objects (dyncall_callvm_x64.c,
  dyncall_args_x64.c): each method moves the state as the functions of Sysv64 say.
 */
module Sysv64Vm {
  import opened Memory
  import opened Aggregate
  import opened Classify
  import opened SysvClasses
  import opened Sysv64
  import opened Callback
  import AggrReturn

  /** DCCallVM_x64 */
  class CallVM {
    var mAggrReturnReg: int
    var i: nat
    var f: nat
    const ri: array<Eightbyte>
    const rf: array<Eightbyte>
    const vec: Vector

    ghost predicate Valid()
      reads this
    {
      ri.Length == INT_REGS && rf.Length == FLOAT_REGS && ri != rf
    }

    ghost function State(): (s: Caller)
      reads this, ri, rf, vec, vec.data
      requires Valid()
      ensures s.Valid()
    {
      Caller(i, f, ri[..], rf[..], mAggrReturnReg, vec.Value())
    }

    constructor (total: nat)
      ensures Valid() && Fresh(State()) && State().ret == -1 && |State().vec.mem| == total
      ensures fresh(this) && fresh(ri) && fresh(rf) && fresh(vec) && fresh(vec.data)
    {
      ri := new Eightbyte[INT_REGS];
      rf := new Eightbyte[FLOAT_REGS];
      vec := new Vector(total);
      i, f, mAggrReturnReg := 0, 0, -1;
    }

    /** dc_callvm_reset_x64 */
    method Reset()
      requires Valid()
      modifies this, vec
      ensures Valid() && Fresh(State()) && State().ret == -1
      ensures State().vec.mem == old(State().vec.mem)
    {
      vec.Resize(0);
      i, f, mAggrReturnReg := 0, 0, -1;
    }

    /**
      dc_callvm_begin_aggr_x64; after a reset the register is that of CallerMode. `ag` is absent for a
      non-trivial aggregate.
     */
    method BeginAggr(ag: Option<SysvAggr>)
      requires Valid() && i == 0 && f == 0 && (ag.Some? ==> |ag.value.classes| == 8)
      modifies this`mAggrReturnReg
      ensures Valid() && State() == old(State()).(ret := if CallerMode(ag) == 0 then 0 else old(mAggrReturnReg))
    {
      if ag.None? || ag.value.classes[0] == Memory {
        mAggrReturnReg := 0;
      }
    }

    /** dc_callvm_argLongLong_x64, dc_callvm_argPointer_x64 */
    method ArgLongLong(x: Eightbyte)
      requires Valid()
      modifies this, ri, vec, vec.data
      ensures Valid() && State() == PushI64(old(State()), x)
    {
      if i == mAggrReturnReg {
        i := i + 1;
      }
      if i < INT_REGS {
        ri[i] := x;
        i := i + 1;
      } else {
        vec.Append(x);
      }
    }

    /** dc_callvm_argDouble_x64 */
    method ArgDouble(x: Eightbyte)
      requires Valid()
      modifies this, rf, vec, vec.data
      ensures Valid() && State() == PushF64(old(State()), x)
    {
      if f < FLOAT_REGS {
        rf[f] := x;
        f := f + 1;
      } else {
        vec.Append(x);
      }
    }

    /** dc_callvm_argAggr_x64 with a description */
    method ArgAggr(ag: SysvAggr, x: seq<byte>)
      requires Valid() && WellFormed(ag) && ag.size <= |x|
      modifies this, ri, rf, vec, vec.data
      ensures Valid() && State() == PushAggr(old(State()), ag, x)
    {
      var ni, nf := CountRegisters(ag, i, f);
      if ag.classes[0] == Memory || ni > INT_REGS || nf > FLOAT_REGS {
        vec.Append(x[..ag.size]);
        vec.Skip(RoundUp(ag.size, 8) - ag.size);
        return;
      }
      var k := 0;
      while k < 8 && ag.classes[k] != NoClass
        decreases 8 - k
        invariant Valid() && k <= 8
        invariant PushEightbytes(State(), ag.classes, x, k) == PushEightbytes(old(State()), ag.classes, x, 0)
      {
        var w := Load(x, 8 * k, 8);
        match ag.classes[k] {
          case Integer => ArgLongLong(w);
          case Sse => ArgDouble(w);
          case _ =>
        }
        k := k + 1;
      }
    }

    /** Any argument, dispatched as dcArgXxx does. */
    method Arg(a: Sysv64.Arg)
      requires Valid() && ValidArg(a)
      modifies this, ri, rf, vec, vec.data
      ensures Valid() && State() == Push(old(State()), a)
    {
      match a
      case IntArg(b) => ArgLongLong(SignExtend(b, 8));
      case BoolArg(b) => ArgLongLong(SignExtend(b, 8));
      case FloatArg(b, pad) => ArgDouble(b + pad);
      case DoubleArg(b) => ArgDouble(b);
      case PointerArg(b) => ArgLongLong(b);
      case AggrArg(ag, mem) => ArgAggr(ag, mem);
      case NonTrivialArg(b) => ArgLongLong(b);
    }
  }

  /** The register count both sides take before placing or reading an aggregate. */
  method CountRegisters(ag: SysvAggr, i: nat, f: nat) returns (ni: nat, nf: nat)
    requires |ag.classes| == 8
    ensures var n := if ag.classes[0] == Memory then 0 else FirstNone(ag.classes);
            ni == i + Among(ag.classes, Integer, n) && nf == f + Among(ag.classes, Sse, n)
    ensures (ag.classes[0] == Memory || ni > 6 || nf > 8) <==> OnStack(ag, i, f)
  {
    ni, nf := i, f;
    if ag.classes[0] != Memory {
      var k := 0;
      while k < 8 && ag.classes[k] != NoClass
        invariant k <= 8 && FirstNone(ag.classes) >= k
        invariant ni == i + Among(ag.classes, Integer, k)
        invariant nf == f + Among(ag.classes, Sse, k)
      {
        if ag.classes[k] == Integer {
          ni := ni + 1;
        }
        if ag.classes[k] == Sse {
          nf := nf + 1;
        }
        k := k + 1;
      }
    }
    CountIsAmong(ag.classes, Integer);
    CountIsAmong(ag.classes, Sse);
  }

  /** DCArgs; `img` is what the callback kernel saved. */
  class Args {
    var i: nat
    var f: nat
    var sp: nat
    const ret: int
    const img: Image

    constructor (ret: int, img: Image)
      requires img.Valid()
      ensures State() == Reader(0, 0, 0, ret) && this.img == img
    {
      this.ret, this.img := ret, img;
      i, f, sp := 0, 0, 0;
    }

    ghost function State(): Reader
      reads this
    {
      Reader(i, f, sp, ret)
    }

    /** arg_i64 */
    method ArgI64() returns (w: Eightbyte)
      requires img.Valid()
      modifies this
      ensures w == ValueI64(old(State()), img) && State() == AfterI64(old(State()))
    {
      if i == ret {
        i := i + 1;
      }
      if i < INT_REGS {
        w := img.ri[i];
        i := i + 1;
      } else {
        w := Load(img.stack, sp, 8);
        sp := sp + 8;
      }
    }

    /** arg_f64 */
    method ArgF64() returns (w: Eightbyte)
      requires img.Valid()
      modifies this
      ensures w == ValueF64(old(State()), img) && State() == AfterF64(old(State()))
    {
      if f < FLOAT_REGS {
        w := img.rf[f];
        f := f + 1;
      } else {
        w := Load(img.stack, sp, 8);
        sp := sp + 8;
      }
    }

    /** dcbArgAggr with a description, copying into `target` in place */
    method ArgAggr(ag: SysvAggr, target: array<byte>)
      requires img.Valid() && WellFormed(ag) && ag.size <= target.Length
      modifies this, target
      ensures State() == After(old(State()), AskAggr(ag, old(target[..])))
      ensures Bytes(target[..]) == Answer(old(State()), AskAggr(ag, old(target[..])), img)
    {
      var ni, nf := CountRegisters(ag, i, f);
      if ag.classes[0] == Memory || ni > INT_REGS || nf > FLOAT_REGS {
        CopyBytes(target, 0, Load(img.stack, sp, ag.size));
        sp := sp + RoundUp(ag.size, 8);
      } else {
        CopyRegisters(ag, target);
      }
    }

    /** Its register branch. */
    method CopyRegisters(ag: SysvAggr, target: array<byte>)
      requires img.Valid() && WellFormed(ag) && ag.classes[0] != Memory && ag.size <= target.Length
      modifies this, target
      ensures State() == AfterEightbytes(old(State()), ag.classes, 0)
      ensures target[..] == CopyEightbytes(old(State()), ag, old(target[..]), img, 0)
    {
      hide Store, ValueI64, ValueF64, AfterI64, AfterF64;
      var k := 0;
      while k < 8 && ag.classes[k] != NoClass
        invariant k <= Eightbytes(ag.size)
        invariant AfterEightbytes(State(), ag.classes, k) == AfterEightbytes(old(State()), ag.classes, 0)
        invariant CopyEightbytes(State(), ag, target[..], img, k)
                == CopyEightbytes(old(State()), ag, old(target[..]), img, 0)
        decreases 8 - k
      {
        CopyOne(State(), ag, target[..], img, k);
        var s := if ag.size - k * 8 < 8 then ag.size - k * 8 else 8;
        var w: Eightbyte;
        if ag.classes[k] == Integer {
          w := ArgI64();
        } else {
          // an SSE slot: dcbArgDouble or dcbArgFloat, any other size is asserted away
          assert s == 8 || s == 4;
          w := ArgF64();
        }
        CopyBytes(target, 8 * k, w[..s]);
        k := k + 1;
      }
    }

    /** Any request, dispatched as dcbArgXxx does. */
    method Arg(q: Ask) returns (v: Value)
      requires img.Valid() && ValidAsk(q)
      modifies this
      ensures v == Answer(old(State()), q, img) && State() == After(old(State()), q)
    {
      match q
      case AskFloat =>
        var w := ArgF64();
        v := Bytes(w[..4]);
      case AskDouble =>
        var w := ArgF64();
        v := Bytes(w);
      case AskAggr(ag, target) =>
        var t := new byte[|target|](k requires 0 <= k < |target| => target[k]);
        assert t[..] == target;
        ArgAggr(ag, t);
        v := Bytes(t[..]);
      case AskInt(n) =>
        var w := ArgI64();
        v := Bytes(w[..n]);
      case AskBool =>
        var w := ArgI64();
        v := Truth(w[..4] != [0, 0, 0, 0]);
      case _ =>
        var w := ArgI64();
        v := Bytes(w);
    }
  }

  // --- whole calls --------------------------------------------------------------------------

  /** A list of arguments, placed one by one. */
  method PlaceAll(vm: CallVM, args: seq<Arg>)
    requires vm.Valid() && forall a :: a in args ==> ValidArg(a)
    modifies vm, vm.ri, vm.rf, vm.vec, vm.vec.data
    ensures vm.Valid() && vm.State() == PushAll(old(vm.State()), args)
  {
    hide Push;
    for k := 0 to |args|
      invariant vm.Valid() && PushAll(vm.State(), args[k..]) == PushAll(old(vm.State()), args)
    {
      assert args[k..][1..] == args[k + 1..];
      vm.Arg(args[k]);
    }
  }

  /** A list of requests, answered one by one. */
  method ReadAll(r: Args, asks: seq<Ask>) returns (answers: seq<Value>)
    requires r.img.Valid() && forall q :: q in asks ==> ValidAsk(q)
    modifies r
    ensures answers == Answers(old(r.State()), asks, r.img)
  {
    hide Answer, After;
    answers := [];
    for k := 0 to |asks|
      invariant answers + Answers(r.State(), asks[k..], r.img) == Answers(old(r.State()), asks, r.img)
    {
      assert asks[k..][1..] == asks[k + 1..];
      var v := r.Arg(asks[k]);
      answers := answers + [v];
    }
  }

  /** The caller's side: reset, announcement of an aggregate result, arguments, hidden pointer. */
  method Prepare(vm: CallVM, sig: string, aggrs: seq<Option<SysvAggr>>, args: seq<Arg>, hidden: Eightbyte)
      returns (img: Image, ghost start: Caller)
    requires vm.Valid() && forall a :: a in args ==> ValidArg(a)
    requires WellPrefixed(sig) && |aggrs| >= CountAggrs(AfterPrefix(sig))
    requires forall a :: a in aggrs ==> a.Some? ==> |a.value.classes| == 8
    modifies vm, vm.ri, vm.rf, vm.vec, vm.vec.data
    ensures Fresh(start) && |start.vec.mem| == vm.vec.data.Length
    ensures PushAll(start, args).ret == start.ret && img == AtCall(PushAll(start, args), hidden)
    ensures var reg := AggrReturn.CallbackMode(sig, aggrs); start.ret == if reg == -2 then -1 else reg
  {
    hide PushAll;
    vm.Reset();
    var numAggrs, aggrResult := ScanSignature(sig);
    if aggrResult {
      vm.BeginAggr(aggrs[numAggrs - 1]);
    }
    start := vm.State();
    PlaceAll(vm, args);
    ghost var end := vm.State();
    HiddenSlotUntouched(start, args);
    if vm.mAggrReturnReg >= 0 {
      vm.ri[vm.mAggrReturnReg] := hidden;
    }
    img := Image(vm.ri[..], vm.rf[..], vm.vec.data[..]);
    assert img == AtCall(end, hidden);
  }

  /**
    A call through a used call VM to a callback: whatever the VM was used for before, the
    handler gets the arguments, and a hidden pointer arrives where dcbReturnAggr looks for it.
   */
  method Call(vm: CallVM, sig: string, aggrs: seq<Option<SysvAggr>>, args: seq<Arg>, asks: seq<Ask>, hidden: Eightbyte)
      returns (answers: seq<Value>, reg: int, dest: Eightbyte)
    requires vm.Valid() && AllMatch(args, asks)
    requires WellPrefixed(sig) && |aggrs| >= CountAggrs(AfterPrefix(sig))
    requires forall a :: a in aggrs ==> a.Some? ==> |a.value.classes| == 8
    requires Reach(Reader(0, 0, 0, AggrReturn.CallbackMode(sig, aggrs)), asks) <= vm.vec.data.Length
    modifies vm, vm.ri, vm.rf, vm.vec, vm.vec.data
    ensures answers == ExpectedAll(args, asks)
    ensures reg == AggrReturn.CallbackMode(sig, aggrs) && (reg >= 0 ==> dest == hidden)
  {
    hide PushAll, Reach, Answers, ExpectedAll, AtCall, WellPrefixed, AfterPrefix, CountAggrs;
    var img, start := Prepare(vm, sig, aggrs, args, hidden);
    reg := AggrReturn.InitCallback(sig, aggrs);
    var r := new Args(reg, img);
    answers := ReadAll(r, asks);
    CallRoundTrip(start, args, asks, reg, hidden);
    dest := if reg >= 0 then img.ri[reg] else hidden;
  }
}
