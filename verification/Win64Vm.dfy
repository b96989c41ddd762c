/**
  The Win64 call VM and argument iterator as objects (DC_WINDOWS branches of
  dyncall_callvm_x64.c and dyncall_args_x64.c).
 */
module Win64Vm {
  import opened Memory
  import opened Integers
  import opened Aggregate
  import opened Callback
  import opened Win64

  /** DCCallVM_x64; `base` is the address of the vector's data. */
  class CallVM {
    var mAggrReturnReg: int
    var n: nat
    var mpAggrVecCopies: int
    const regs: array<Eightbyte>
    const vec: Vector
    const base: nat

    ghost predicate Valid()
      reads this
    {
      && regs.Length == REGS
      && base + vec.data.Length < 0x1_0000_0000_0000_0000
      && mpAggrVecCopies <= base + vec.data.Length
    }

    ghost function State(): (s: Caller)
      reads this, regs, vec, vec.data
      requires Valid()
      ensures s.Valid()
    {
      Caller(n, regs[..], mAggrReturnReg, vec.Value(), base, mpAggrVecCopies)
    }

    constructor (total: nat, base: nat)
      requires base + total < 0x1_0000_0000_0000_0000
      ensures Valid() && Fresh(State()) && State().ret == -1
      ensures fresh(this) && fresh(regs) && fresh(vec) && fresh(vec.data)
    {
      regs := new Eightbyte[REGS];
      vec := new Vector(total);
      this.base := base;
      n, mAggrReturnReg, mpAggrVecCopies := 0, -1, base + total;
    }

    /** dc_callvm_reset_x64 */
    method Reset()
      requires Valid()
      modifies this, vec
      ensures Valid() && Fresh(State()) && State().ret == -1
      ensures State().vec.mem == old(State().vec.mem)
    {
      vec.Resize(0);
      n, mAggrReturnReg, mpAggrVecCopies := 0, -1, base + vec.data.Length;
    }

    /** dc_callvm_begin_aggr_x64 and, for member functions, dc_callvm_begin_aggr_x64_win64_this */
    method BeginAggr(thiscall: bool, result: Option<nat>)
      requires Valid() && n == 0
      modifies this`mAggrReturnReg
      ensures Valid()
      ensures var reg := CallerMode(thiscall, result);
              State() == old(State()).(ret := if reg < 0 then old(mAggrReturnReg) else reg)
    {
      if thiscall {
        mAggrReturnReg := 1;
      } else if result.None? || result.value > 8 || !(result.value in {0, 1, 2, 4, 8}) {
        mAggrReturnReg := 0;
      }
    }

    /** dc_callvm_argLongLong_x64, argPointer and argDouble */
    method Arg64(x: Eightbyte)
      requires Valid()
      modifies this, regs, vec, vec.data
      ensures Valid() && State() == Push64(old(State()), x)
    {
      if n == mAggrReturnReg {
        n := n + 1;
      }
      if n < REGS {
        regs[n] := x;
        n := n + 1;
      } else {
        vec.Append(x);
      }
    }

    /** dc_callvm_argAggr_x64; the copy has to land in the buffer. */
    method ArgAggr(x: seq<byte>)
      requires Valid()
      requires !ByValue(|x|) ==> NextCopy(mpAggrVecCopies, |x|) >= base
      modifies this, regs, vec, vec.data
      ensures Valid() && State() == Push(old(State()), AggrArg(x))
    {
      if ByValue(|x|) {
        Arg64(SignExtend(x, 8));
      } else {
        mpAggrVecCopies := NextCopy(mpAggrVecCopies, |x|);
        CopyBytes(vec.data, mpAggrVecCopies - base, x);
        assert State() == CopyIn(old(State()), x);
        Arg64(Address(mpAggrVecCopies));
      }
    }

    /** Any argument, dispatched as dcArgXxx does. */
    method Arg(a: Win64.Arg)
      requires Valid() && ValidArg(a)
      requires a.AggrArg? && !ByValue(|a.b|) ==> NextCopy(mpAggrVecCopies, |a.b|) >= base
      modifies this, regs, vec, vec.data
      ensures Valid() && State() == Push(old(State()), a)
    {
      match a
      case IntArg(b) => Arg64(SignExtend(b, 8));
      case BoolArg(b) => Arg64(SignExtend(b, 8));
      case FloatArg(b, pad) => Arg64(b + pad);
      case WideArg(b) => Arg64(b);
      case AggrArg(b) => ArgAggr(b);
    }
  }

  /** DCArgs */
  class Args {
    var n: nat
    var sp: nat
    const ret: int
    const img: Image

    ghost function State(): Reader
      reads this
    {
      Reader(n, sp, ret)
    }

    constructor (ret: int, img: Image)
      ensures State() == Reader(0, 0, ret) && this.img == img
    {
      this.ret, this.img := ret, img;
      n, sp := 0, 0;
    }

    /** arg_i64 and arg_f64 */
    method Arg64() returns (w: Eightbyte)
      requires img.Valid()
      modifies this
      ensures w == Slot(old(State()), img) && State() == After(old(State()))
    {
      if n == ret {
        n := n + 1;
      }
      if n < REGS {
        w := img.regs[n];
        n := n + 1;
      } else {
        w := Load(img.mem, sp, 8);
        sp := sp + 8;
      }
    }

    /** dcbArgAggr with a description */
    method ArgAggr(size: nat, target: array<byte>)
      requires img.Valid() && size <= target.Length
      modifies this, target
      ensures State() == After(old(State()))
      ensures Bytes(target[..]) == Answer(old(State()), AskAggr(size, old(target[..])), img)
    {
      var w := Arg64();
      if ByValue(size) {
        CopyBytes(target, 0, w[..size]);
      } else {
        CopyBytes(target, 0, Fetch(img, FromBytes(w), size));
      }
    }

    /** Any request, dispatched as dcbArgXxx does. */
    method Arg(q: Ask) returns (v: Value)
      requires img.Valid() && (q.AskAggr? ==> q.size <= |q.target|)
      modifies this
      ensures v == Answer(old(State()), q, img) && State() == After(old(State()))
    {
      match q
      case AskAggr(size, target) =>
        var t := new byte[|target|](k requires 0 <= k < |target| => target[k]);
        assert t[..] == target;
        ArgAggr(size, t);
        v := Bytes(t[..]);
      case AskInt(n) =>
        var w := Arg64();
        v := Bytes(w[..if n <= 8 then n else 8]);
      case AskBool =>
        var w := Arg64();
        v := Truth(w[..4] != [0, 0, 0, 0]);
      case AskFloat =>
        var w := Arg64();
        v := Bytes(w[..4]);
      case AskWide =>
        var w := Arg64();
        v := Bytes(w);
    }
  }

  /** The DC_WINDOWS branch of dcbInitCallback2 */
  method InitCallback(sig: string, aggrs: seq<Option<nat>>) returns (reg: int)
    requires WellPrefixed(sig) && |aggrs| >= CountAggrs(AfterPrefix(sig))
    ensures reg == CallbackMode(sig, aggrs)
  {
    reg := -2;
    var numAggrs, aggrResult := ScanSignature(sig);
    if aggrResult {
      var size := aggrs[numAggrs - 1];
      if |sig| >= 2 && sig[0] == '_' && sig[1] == '*' {
        reg := 1;
      } else if size.None? || size.value > 8 || !(size.value in {0, 1, 2, 4, 8}) {
        reg := 0;
      } else {
        reg := -1;
      }
    }
  }

  // --- whole calls --------------------------------------------------------------------------

  /** The arena does not run out below the buffer. */
  method PlaceAll(vm: CallVM, args: seq<Win64.Arg>, ghost asks: seq<Ask>)
    requires vm.Valid() && AllMatch(args, asks) && ArenaAfter(vm.mpAggrVecCopies, asks) >= vm.base
    modifies vm, vm.regs, vm.vec, vm.vec.data
    ensures vm.Valid() && vm.State() == PushAll(old(vm.State()), args)
  {
    hide Push, NextCopy;
    for k := 0 to |args|
      invariant vm.Valid() && PushAll(vm.State(), args[k..]) == PushAll(old(vm.State()), args)
      invariant ArenaAfter(vm.mpAggrVecCopies, asks[k..]) >= vm.base
    {
      assert args[k..][1..] == args[k + 1..] && asks[k..][1..] == asks[k + 1..];
      ArenaOf(vm.State(), args[k], asks[k..]);
      vm.Arg(args[k]);
    }
  }

  /** One argument moves the arena as its request says. */
  lemma ArenaOf(s: Caller, a: Win64.Arg, asks: seq<Ask>)
    requires s.Valid() && asks != [] && ValidArg(a) && Matches(a, asks[0])
    ensures ArenaAfter(s.copies, asks) == ArenaAfter(Push(s, a).copies, asks[1..])
    ensures a.AggrArg? && !ByValue(|a.b|) ==> NextCopy(s.copies, |a.b|) >= ArenaAfter(s.copies, asks)
  {
  }

  method ReadAll(r: Args, asks: seq<Ask>) returns (answers: seq<Value>)
    requires r.img.Valid() && forall q :: q in asks ==> q.AskAggr? ==> q.size <= |q.target|
    modifies r
    ensures answers == Answers(old(r.State()), asks, r.img)
  {
    hide Answer, After;
    answers := [];
    for k := 0 to |asks|
      invariant answers + Answers(r.State(), asks[k..], r.img) == Answers(old(r.State()), asks, r.img)
    {
      assert asks[k..][1..] == asks[k + 1..];
      var v := r.Arg(asks[k]);
      answers := answers + [v];
    }
  }

  /** The caller's side: reset, announcement of an aggregate result, arguments and copies, hidden pointer. */
  method Prepare(vm: CallVM, sig: string, aggrs: seq<Option<nat>>, args: seq<Win64.Arg>, ghost asks: seq<Ask>,
                 hidden: Eightbyte) returns (img: Image, ghost start: Caller)
    requires vm.Valid() && AllMatch(args, asks)
    requires ArenaAfter(vm.base + vm.vec.data.Length, asks) >= vm.base
    requires WellPrefixed(sig) && |aggrs| >= CountAggrs(AfterPrefix(sig))
    modifies vm, vm.regs, vm.vec, vm.vec.data
    ensures Fresh(start) && |start.vec.mem| == vm.vec.data.Length && start.base == vm.base
    ensures PushAll(start, args).ret == start.ret && img == AtCall(PushAll(start, args), hidden)
    ensures var reg := CallbackMode(sig, aggrs); start.ret == if reg == -2 then -1 else reg
  {
    hide PushAll, ArenaAfter;
    vm.Reset();
    var numAggrs, aggrResult := ScanSignature(sig);
    if aggrResult {
      vm.BeginAggr(|sig| >= 2 && sig[0] == '_' && sig[1] == '*', aggrs[numAggrs - 1]);
    }
    start := vm.State();
    PlaceAll(vm, args, asks);
    ghost var end := vm.State();
    if vm.mAggrReturnReg >= 0 {
      vm.regs[vm.mAggrReturnReg] := hidden;
    }
    img := Image(vm.regs[..], vm.vec.data[..], vm.base);
    assert img == AtCall(end, hidden);
  }

  /**
    A call through a used call VM to a callback: if the arguments end below the last copy the
    handler gets them and every aggregate of any size, and a hidden pointer arrives in register
    0 or, for member functions, 1.
   */
  method Call(vm: CallVM, sig: string, aggrs: seq<Option<nat>>, args: seq<Win64.Arg>, asks: seq<Ask>, hidden: Eightbyte)
      returns (answers: seq<Value>, reg: int, dest: Eightbyte)
    requires vm.Valid() && AllMatch(args, asks)
    requires WellPrefixed(sig) && |aggrs| >= CountAggrs(AfterPrefix(sig))
    requires AfterAll(Reader(0, 0, CallbackMode(sig, aggrs)), asks).sp
             <= ArenaAfter(vm.base + vm.vec.data.Length, asks) - vm.base
    modifies vm, vm.regs, vm.vec, vm.vec.data
    ensures answers == ExpectedAll(args, asks)
    ensures reg == CallbackMode(sig, aggrs) && (reg >= 0 ==> dest == hidden)
  {
    hide PushAll, ArenaAfter, AfterAll, Answers, ExpectedAll, AtCall, WellPrefixed, AfterPrefix, CountAggrs;
    var img, start := Prepare(vm, sig, aggrs, args, asks, hidden);
    reg := InitCallback(sig, aggrs);
    var r := new Args(reg, img);
    answers := ReadAll(r, asks);
    CallRoundTrip(start, args, asks, reg, hidden);
    dest := if reg >= 0 then img.regs[reg] else hidden;
  }
}
