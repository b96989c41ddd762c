/**
  System V AMD64 argument passing: what dyncall_callvm_x64.c places and what
  dyncall_args_x64.c reads back, as functions on states, and the round trip between them.
 */
module Sysv64 {
  import opened Memory
  import opened Aggregate
  import opened Classify
  import opened SysvClasses

  const INT_REGS := 6
  const FLOAT_REGS := 8

  /** An argument as dcArgXxx receives it. */
  datatype Arg =
    | IntArg(b: seq<byte>)               // char, short, int, long, long long
    | BoolArg(b: seq<byte>)              // DCbool is an int
    | FloatArg(b: seq<byte>, pad: seq<byte>) // `pad`: the other half of the union, unset by C
    | DoubleArg(b: seq<byte>)
    | PointerArg(b: seq<byte>)
    | AggrArg(ag: SysvAggr, mem: seq<byte>) // `mem`: the aggregate and whatever follows it in memory
    | NonTrivialArg(b: seq<byte>)        // no description: passed by pointer

  predicate ValidArg(a: Arg) {
    match a
    case IntArg(b) => |b| in {1, 2, 4, 8}
    case BoolArg(b) => |b| == 4
    case FloatArg(b, pad) => |b| == 4 && |pad| == 4
    case AggrArg(ag, mem) => WellFormed(ag) && ag.size <= |mem|
    case _ => |a.b| == 8
  }

  /** An argument as the callback asks for it; an aggregate is copied over `target`. */
  datatype Ask = AskInt(n: nat) | AskBool | AskFloat | AskDouble | AskPointer
      | AskAggr(ag: SysvAggr, target: seq<byte>) | AskNonTrivial

  predicate ValidAsk(q: Ask) {
    match q
    case AskInt(n) => n in {1, 2, 4, 8}
    case AskAggr(ag, target) => WellFormed(ag) && ag.size <= |target|
    case _ => true
  }

  datatype Value = Bytes(b: seq<byte>) | Truth(t: bool)

  /** The request matching an argument, and what it must deliver. */
  predicate Matches(a: Arg, q: Ask) {
    match a
    case IntArg(b) => q == AskInt(|b|)
    case BoolArg(_) => q == AskBool
    case FloatArg(_, _) => q == AskFloat
    case DoubleArg(_) => q == AskDouble
    case PointerArg(_) => q == AskPointer
    case AggrArg(ag, _) => q.AskAggr? && q.ag == ag && ag.size <= |q.target|
    case NonTrivialArg(_) => q == AskNonTrivial
  }

  function Expected(a: Arg, q: Ask): Value
    requires ValidArg(a) && Matches(a, q)
  {
    match a
    case BoolArg(b) => Truth(b != [0, 0, 0, 0])
    case AggrArg(ag, mem) => Bytes(mem[..ag.size] + q.target[ag.size..])
    case _ => Bytes(a.b)
  }

  predicate AllMatch(args: seq<Arg>, asks: seq<Ask>) {
    |args| == |asks| && forall k :: 0 <= k < |args| ==> ValidArg(args[k]) && Matches(args[k], asks[k])
  }

  // --- the caller -------------------------------------------------------------------------

  datatype Caller = Caller(i: nat, f: nat, ri: seq<Eightbyte>, rf: seq<Eightbyte>, ret: int, vec: Vec) {
    predicate Valid() {
      |ri| == INT_REGS && |rf| == FLOAT_REGS
    }
  }

  /** dc_callvm_argLongLong_x64 and dc_callvm_argPointer_x64 */
  function PushI64(s: Caller, w: Eightbyte): (r: Caller)
    requires s.Valid()
    ensures r.Valid() && |r.vec.mem| == |s.vec.mem|
  {
    var i := s.i + if s.i == s.ret then 1 else 0;
    if i < INT_REGS then s.(ri := s.ri[i := w], i := i + 1) else s.(i := i, vec := s.vec.Append(w))
  }

  /** dc_callvm_argDouble_x64 */
  function PushF64(s: Caller, w: Eightbyte): (r: Caller)
    requires s.Valid()
    ensures r.Valid() && |r.vec.mem| == |s.vec.mem|
  {
    if s.f < FLOAT_REGS then s.(rf := s.rf[s.f := w], f := s.f + 1) else s.(vec := s.vec.Append(w))
  }

  /** Eightbytes of class `c` from index `k` up to the first NONE. */
  function Count(classes: seq<Class>, c: Class, k: nat): nat
    decreases |classes| - k
  {
    if k >= |classes| || classes[k] == NoClass then 0
    else (if classes[k] == c then 1 else 0) + Count(classes, c, k + 1)
  }

  /** Where the list of classes ends. */
  function FirstNone(classes: seq<Class>): (n: nat)
    ensures n <= |classes| && (n < |classes| ==> classes[n] == NoClass)
    ensures forall k :: 0 <= k < n ==> classes[k] != NoClass
  {
    if classes == [] || classes[0] == NoClass then 0 else 1 + FirstNone(classes[1..])
  }

  /** How many of the first `n` eightbytes are of class `c`. */
  function Among(classes: seq<Class>, c: Class, n: nat): (r: nat)
    requires n <= |classes|
    ensures r <= n
  {
    if n == 0 then 0 else Among(classes, c, n - 1) + if classes[n - 1] == c then 1 else 0
  }

  lemma CountIsAmong(classes: seq<Class>, c: Class)
    requires c != NoClass
    ensures Count(classes, c, 0) == Among(classes, c, FirstNone(classes))
  {
    CountFrom(classes, c, 0);
  }

  lemma {:induction false} CountFrom(classes: seq<Class>, c: Class, k: nat)
    requires c != NoClass && k <= FirstNone(classes)
    ensures Among(classes, c, k) + Count(classes, c, k) == Among(classes, c, FirstNone(classes))
    decreases |classes| - k
  {
    if k < FirstNone(classes) {
      CountFrom(classes, c, k + 1);
    }
  }

  /** The decision both sides take: all of the aggregate on the stack, or all of it in registers. */
  predicate OnStack(ag: SysvAggr, i: nat, f: nat)
    requires |ag.classes| == 8
  {
    || ag.classes[0] == Memory
    || i + Count(ag.classes, Integer, 0) > INT_REGS
    || f + Count(ag.classes, Sse, 0) > FLOAT_REGS
  }

  function PushEightbytes(s: Caller, classes: seq<Class>, mem: seq<byte>, k: nat): (r: Caller)
    requires s.Valid()
    ensures r.Valid() && |r.vec.mem| == |s.vec.mem|
    decreases |classes| - k
  {
    if k >= |classes| || classes[k] == NoClass then s else
    var w := Load(mem, 8 * k, 8);
    var s1 := match classes[k] case Integer => PushI64(s, w) case Sse => PushF64(s, w) case _ => s;
    PushEightbytes(s1, classes, mem, k + 1)
  }

  /** dc_callvm_argAggr_x64 with a description */
  function PushAggr(s: Caller, ag: SysvAggr, mem: seq<byte>): (r: Caller)
    requires s.Valid() && |ag.classes| == 8 && ag.size <= |mem|
    ensures r.Valid() && |r.vec.mem| == |s.vec.mem|
  {
    if OnStack(ag, s.i, s.f)
    then s.(vec := s.vec.Append(mem[..ag.size]).Skip(RoundUp(ag.size, 8) - ag.size))
    else PushEightbytes(s, ag.classes, mem, 0)
  }

  function Push(s: Caller, a: Arg): (r: Caller)
    requires s.Valid() && ValidArg(a)
    ensures r.Valid() && |r.vec.mem| == |s.vec.mem|
  {
    match a
    case IntArg(b) => PushI64(s, SignExtend(b, 8))
    case BoolArg(b) => PushI64(s, SignExtend(b, 8))
    case FloatArg(b, pad) => PushF64(s, b + pad)
    case DoubleArg(b) => PushF64(s, b)
    case PointerArg(b) => PushI64(s, b)
    case AggrArg(ag, mem) => PushAggr(s, ag, mem)
    case NonTrivialArg(b) => PushI64(s, b)
  }

  function PushAll(s: Caller, args: seq<Arg>): (r: Caller)
    requires s.Valid() && forall a :: a in args ==> ValidArg(a)
    ensures r.Valid() && |r.vec.mem| == |s.vec.mem|
    decreases |args|
  {
    if args == [] then s else PushAll(Push(s, args[0]), args[1..])
  }

  // --- the callback -----------------------------------------------------------------------

  /** What the kernels hand over: both register files and the stack image. */
  datatype Image = Image(ri: seq<Eightbyte>, rf: seq<Eightbyte>, stack: seq<byte>) {
    predicate Valid() {
      |ri| == INT_REGS && |rf| == FLOAT_REGS
    }
  }

  /** The counters of DCArgs; `sp` is the byte offset of stack_ptr. */
  datatype Reader = Reader(i: nat, f: nat, sp: nat, ret: int)

  function SkipHidden(r: Reader): nat {
    r.i + if r.i == r.ret then 1 else 0
  }

  /** arg_i64: the counters after it and the value it points at. */
  function AfterI64(r: Reader): (r1: Reader)
    ensures r1.sp >= r.sp
  {
    var i := SkipHidden(r);
    if i < INT_REGS then r.(i := i + 1) else r.(i := i, sp := r.sp + 8)
  }

  function ValueI64(r: Reader, img: Image): Eightbyte
    requires img.Valid()
  {
    var i := SkipHidden(r);
    if i < INT_REGS then img.ri[i] else Load(img.stack, r.sp, 8)
  }

  /** arg_f64 */
  function AfterF64(r: Reader): (r1: Reader)
    ensures r1.sp >= r.sp
  {
    if r.f < FLOAT_REGS then r.(f := r.f + 1) else r.(sp := r.sp + 8)
  }

  function ValueF64(r: Reader, img: Image): Eightbyte
    requires img.Valid()
  {
    if r.f < FLOAT_REGS then img.rf[r.f] else Load(img.stack, r.sp, 8)
  }

  function AfterEightbytes(r: Reader, classes: seq<Class>, k: nat): (r1: Reader)
    ensures r1.sp >= r.sp
    decreases |classes| - k
  {
    if k >= |classes| || classes[k] == NoClass then r else
    var r1 := match classes[k] case Integer => AfterI64(r) case Sse => AfterF64(r) case _ => r;
    AfterEightbytes(r1, classes, k + 1)
  }

  /** The register branch of dcbArgAggr from eightbyte `k` on, writing over `target`. */
  function CopyEightbytes(r: Reader, ag: SysvAggr, target: seq<byte>, img: Image, k: nat): (t: seq<byte>)
    requires img.Valid() && WellFormed(ag) && ag.classes[0] != Memory && ag.size <= |target|
    requires k <= Eightbytes(ag.size)
    ensures |t| == |target|
    decreases |ag.classes| - k
  {
    if ag.classes[k] == NoClass then target else
    var w := if ag.classes[k] == Integer then ValueI64(r, img) else ValueF64(r, img);
    var r1 := if ag.classes[k] == Integer then AfterI64(r) else AfterF64(r);
    CopyEightbytes(r1, ag, Store(target, 8 * k, w[..LiveBytes(ag.size, k)]), img, k + 1)
  }

  lemma CopyOne(r: Reader, ag: SysvAggr, target: seq<byte>, img: Image, k: nat)
    requires img.Valid() && WellFormed(ag) && ag.classes[0] != Memory && ag.size <= |target| && k < Eightbytes(ag.size)
    ensures ag.classes[k] in {Integer, Sse} && (ag.classes[k] == Sse ==> LiveBytes(ag.size, k) in {4, 8})
    ensures var isInt := ag.classes[k] == Integer;
            var w := if isInt then ValueI64(r, img) else ValueF64(r, img);
            var r1 := if isInt then AfterI64(r) else AfterF64(r);
            && CopyEightbytes(r, ag, target, img, k)
               == CopyEightbytes(r1, ag, Store(target, 8 * k, w[..LiveBytes(ag.size, k)]), img, k + 1)
            && AfterEightbytes(r, ag.classes, k) == AfterEightbytes(r1, ag.classes, k + 1)
  {
    hide Store, ValueI64, ValueF64, AfterI64, AfterF64;
  }

  function After(r: Reader, q: Ask): (r1: Reader)
    requires ValidAsk(q)
    ensures r1.sp >= r.sp
  {
    match q
    case AskFloat => AfterF64(r)
    case AskDouble => AfterF64(r)
    case AskAggr(ag, _) =>
      if OnStack(ag, r.i, r.f) then r.(sp := r.sp + RoundUp(ag.size, 8)) else AfterEightbytes(r, ag.classes, 0)
    case _ => AfterI64(r)
  }

  function Answer(r: Reader, q: Ask, img: Image): Value
    requires ValidAsk(q) && img.Valid()
  {
    match q
    case AskInt(n) => Bytes(ValueI64(r, img)[..n])
    case AskBool => Truth(ValueI64(r, img)[..4] != [0, 0, 0, 0])
    case AskFloat => Bytes(ValueF64(r, img)[..4])
    case AskDouble => Bytes(ValueF64(r, img))
    case AskAggr(ag, target) =>
      if OnStack(ag, r.i, r.f) then Bytes(Load(img.stack, r.sp, ag.size) + target[ag.size..])
      else Bytes(CopyEightbytes(r, ag, target, img, 0))
    case _ => Bytes(ValueI64(r, img))
  }

  function AfterAll(r: Reader, asks: seq<Ask>): Reader
    requires forall q :: q in asks ==> ValidAsk(q)
    ensures AfterAll(r, asks).sp >= r.sp
    decreases |asks|
  {
    if asks == [] then r else AfterAll(After(r, asks[0]), asks[1..])
  }

  /** The end of what one request reads from the stack, 0 if it reads nothing there. */
  function ReadTo(r: Reader, q: Ask): nat
    requires ValidAsk(q)
  {
    if q.AskAggr? && OnStack(q.ag, r.i, r.f) then (if q.ag.size > 0 then r.sp + q.ag.size else 0)
    else if After(r, q).sp > r.sp then After(r, q).sp else 0
  }

  /** The end of the last stack byte a list of requests reads: the room the arguments need. */
  function Reach(r: Reader, asks: seq<Ask>): nat
    requires forall q :: q in asks ==> ValidAsk(q)
    decreases |asks|
  {
    if asks == [] then 0 else
    var rest := Reach(After(r, asks[0]), asks[1..]);
    if ReadTo(r, asks[0]) < rest then rest else ReadTo(r, asks[0])
  }

  /** Everything the callback reads, in order. */
  function Answers(r: Reader, asks: seq<Ask>, img: Image): seq<Value>
    requires img.Valid() && forall q :: q in asks ==> ValidAsk(q)
    decreases |asks|
  {
    if asks == [] then [] else [Answer(r, asks[0], img)] + Answers(After(r, asks[0]), asks[1..], img)
  }

  function ExpectedAll(args: seq<Arg>, asks: seq<Ask>): seq<Value>
    requires AllMatch(args, asks)
  {
    if args == [] then [] else [Expected(args[0], asks[0])] + ExpectedAll(args[1..], asks[1..])
  }

  // --- simulation -------------------------------------------------------------------------

  /** Counters and stack depth of the two sides agree. */
  predicate InStep(s: Caller, r: Reader) {
    && s.Valid()
    && s.i == r.i && s.f == r.f && s.vec.size == r.sp && r.sp % 8 == 0
    && (s.ret == r.ret || (s.ret < 0 && r.ret < 0))
  }

  /** What was read between `r` and `r1` lies inside the buffer. */
  predicate Fits(r: Reader, r1: Reader, v: Vec) {
    r1.sp > r.sp ==> r1.sp <= |v.mem|
  }

  /** The image still holds everything placed so far. */
  predicate Holds(s: Caller, img: Image)
    requires s.Valid()
  {
    && img.Valid()
    && (forall k :: 0 <= k < s.i && k < INT_REGS && k != s.ret ==> img.ri[k] == s.ri[k])
    && (forall k :: 0 <= k < s.f && k < FLOAT_REGS ==> img.rf[k] == s.rf[k])
    && SameBelow(s.vec.mem, img.stack, s.vec.size)
  }

  lemma I64Keeps(s: Caller, w: Eightbyte, img: Image)
    requires s.Valid() && Holds(PushI64(s, w), img)
    ensures Holds(s, img)
  {
  }

  lemma F64Keeps(s: Caller, w: Eightbyte, img: Image)
    requires s.Valid() && Holds(PushF64(s, w), img)
    ensures Holds(s, img)
  {
  }

  lemma I64Step(s: Caller, r: Reader, w: Eightbyte, img: Image)
    requires InStep(s, r) && Fits(r, AfterI64(r), s.vec)
    ensures InStep(PushI64(s, w), AfterI64(r))
    ensures Holds(PushI64(s, w), img) ==> ValueI64(r, img) == w
  {
    var s1 := PushI64(s, w);
    if Holds(s1, img) && s1.vec != s.vec {
      SameBelowLoads(s1.vec.mem, img.stack, s1.vec.size, s.vec.size, 8);
    }
  }

  lemma F64Step(s: Caller, r: Reader, w: Eightbyte, img: Image)
    requires InStep(s, r) && Fits(r, AfterF64(r), s.vec)
    ensures InStep(PushF64(s, w), AfterF64(r))
    ensures Holds(PushF64(s, w), img) ==> ValueF64(r, img) == w
  {
    var s1 := PushF64(s, w);
    if Holds(s1, img) && s1.vec != s.vec {
      SameBelowLoads(s1.vec.mem, img.stack, s1.vec.size, s.vec.size, 8);
    }
  }

  lemma {:induction false} EightbytesKeep(s: Caller, classes: seq<Class>, mem: seq<byte>, k: nat, img: Image)
    requires s.Valid() && Holds(PushEightbytes(s, classes, mem, k), img)
    ensures Holds(s, img)
    decreases |classes| - k
  {
    if k < |classes| && classes[k] != NoClass {
      var w := Load(mem, 8 * k, 8);
      match classes[k]
      case Integer =>
        EightbytesKeep(PushI64(s, w), classes, mem, k + 1, img);
        I64Keeps(s, w, img);
      case Sse =>
        EightbytesKeep(PushF64(s, w), classes, mem, k + 1, img);
        F64Keeps(s, w, img);
      case Memory =>
        EightbytesKeep(s, classes, mem, k + 1, img);
      case NoClass =>
    }
  }

  /** `target` with the aggregate's bytes from `lo` on written over it. */
  function Overlay(target: seq<byte>, mem: seq<byte>, lo: nat, size: nat): (t: seq<byte>)
    requires size <= |target| && size <= |mem|
    ensures |t| == |target|
  {
    if lo <= size then target[..lo] + mem[lo..size] + target[size..] else target
  }

  lemma OverlayAll(target: seq<byte>, mem: seq<byte>, size: nat)
    requires size <= |target| && size <= |mem|
    ensures Overlay(target, mem, 0, size) == mem[..size] + target[size..]
  {
  }

  lemma OverlayDone(target: seq<byte>, mem: seq<byte>, lo: nat, size: nat)
    requires size <= |target| && size <= |mem| && size <= lo
    ensures Overlay(target, mem, lo, size) == target
  {
  }

  lemma OverlayStep(target: seq<byte>, mem: seq<byte>, k: nat, size: nat)
    requires 8 * k < size <= |target| && size <= |mem|
    ensures var live := LiveBytes(size, k);
            && Load(mem, 8 * k, 8)[..live] == mem[8 * k..8 * k + live]
            && Overlay(Store(target, 8 * k, mem[8 * k..8 * k + live]), mem, 8 * k + 8, size)
               == Overlay(target, mem, 8 * k, size)
  {
    var lo, live := 8 * k, LiveBytes(size, k);
    LoadPrefix(mem, lo, live);
    var t1 := Store(target, lo, mem[lo..lo + live]);
    assert t1[..lo + live] == target[..lo] + mem[lo..lo + live];
    assert t1[size..] == target[size..];
    if live == 8 {
      assert mem[lo..size] == mem[lo..lo + 8] + mem[lo + 8..size];
    } else {
      assert t1[..size] + t1[size..] == t1;
    }
  }

  lemma LoadPrefix(mem: seq<byte>, off: nat, live: nat)
    requires live <= 8 && off + live <= |mem|
    ensures Load(mem, off, 8)[..live] == mem[off..off + live]
  {
    if off + 8 > |mem| {
      assert mem[off..][..live] == mem[off..off + live];
    }
  }

  /** Eightbyte by eightbyte: both sides move alike, and the bytes read are those of the aggregate. */
  lemma {:induction false} EightbytesStep(s: Caller, r: Reader, ag: SysvAggr, mem: seq<byte>, k: nat,
                                          target: seq<byte>, img: Image)
    requires InStep(s, r) && WellFormed(ag) && ag.classes[0] != Memory && k <= Eightbytes(ag.size)
    requires ag.size <= |mem| && ag.size <= |target|
    requires Fits(r, AfterEightbytes(r, ag.classes, k), s.vec)
    ensures InStep(PushEightbytes(s, ag.classes, mem, k), AfterEightbytes(r, ag.classes, k))
    ensures Holds(PushEightbytes(s, ag.classes, mem, k), img) ==>
              CopyEightbytes(r, ag, target, img, k) == Overlay(target, mem, 8 * k, ag.size)
    decreases |ag.classes| - k
  {
    hide Overlay, Holds, ValueI64, ValueF64, AfterI64, AfterF64, PushI64, PushF64, Load, Store, Fits, InStep,
         CopyEightbytes;
    InStepValid(s, r);
    if ag.classes[k] == NoClass {
      CopyDone(r, ag, target, img, k);
      OverlayDone(target, mem, 8 * k, ag.size);
      if Holds(s, img) {
        HoldsValid(s, img);
      }
    } else {
      OneEightbyte(s, r, ag, mem, k, target, img);
      EightbytesStep(NextCaller(s, ag, mem, k), NextReader(r, ag, k), ag, mem, k + 1,
                     NextTarget(ag, mem, k, target), img);
    }
  }

  lemma CopyDone(r: Reader, ag: SysvAggr, target: seq<byte>, img: Image, k: nat)
    requires WellFormed(ag) && ag.classes[0] != Memory && ag.size <= |target| && k <= Eightbytes(ag.size)
    requires ag.classes[k] == NoClass
    ensures img.Valid() ==> CopyEightbytes(r, ag, target, img, k) == target
    ensures ag.size <= 8 * k
  {
  }

  function NextCaller(s: Caller, ag: SysvAggr, mem: seq<byte>, k: nat): (r: Caller)
    requires s.Valid() && k < |ag.classes|
    ensures r.Valid() && |r.vec.mem| == |s.vec.mem|
  {
    if ag.classes[k] == Integer then PushI64(s, Load(mem, 8 * k, 8)) else PushF64(s, Load(mem, 8 * k, 8))
  }

  function NextReader(r: Reader, ag: SysvAggr, k: nat): Reader
    requires k < |ag.classes|
  {
    if ag.classes[k] == Integer then AfterI64(r) else AfterF64(r)
  }

  function NextTarget(ag: SysvAggr, mem: seq<byte>, k: nat, target: seq<byte>): (t: seq<byte>)
    requires 8 * k < ag.size <= |target|
    ensures |t| == |target|
  {
    Store(target, 8 * k, Load(mem, 8 * k, 8)[..LiveBytes(ag.size, k)])
  }

  /** One eightbyte: in step before and after, and read back if the image holds what was placed. */
  lemma OneEightbyte(s: Caller, r: Reader, ag: SysvAggr, mem: seq<byte>, k: nat, target: seq<byte>, img: Image)
    requires InStep(s, r) && WellFormed(ag) && ag.classes[0] != Memory && k < Eightbytes(ag.size)
    requires ag.size <= |mem| && ag.size <= |target|
    requires Fits(r, AfterEightbytes(r, ag.classes, k), s.vec)
    ensures s.Valid()
    ensures var s1, r1, t1 := NextCaller(s, ag, mem, k), NextReader(r, ag, k), NextTarget(ag, mem, k, target);
            && InStep(s1, r1) && Fits(r1, AfterEightbytes(r1, ag.classes, k + 1), s1.vec)
            && PushEightbytes(s, ag.classes, mem, k) == PushEightbytes(s1, ag.classes, mem, k + 1)
            && AfterEightbytes(r, ag.classes, k) == AfterEightbytes(r1, ag.classes, k + 1)
            && (Holds(PushEightbytes(s, ag.classes, mem, k), img) ==>
                  CopyEightbytes(r, ag, target, img, k) == CopyEightbytes(r1, ag, t1, img, k + 1))
            && Overlay(t1, mem, 8 * k + 8, ag.size) == Overlay(target, mem, 8 * k, ag.size)
  {
    hide Overlay, Holds, ValueI64, ValueF64, AfterI64, AfterF64, PushI64, PushF64, Load, Store, InStep, CopyEightbytes;
    var w := Load(mem, 8 * k, 8);
    InStepValid(s, r);
    if img.Valid() {
      CopyOne(r, ag, target, img, k);
    }
    OverlayStep(target, mem, k, ag.size);
    if ag.classes[k] == Integer {
      I64Step(s, r, w, img);
    } else {
      F64Step(s, r, w, img);
    }
    if Holds(PushEightbytes(s, ag.classes, mem, k), img) {
      EightbytesKeep(NextCaller(s, ag, mem, k), ag.classes, mem, k + 1, img);
      HoldsValid(PushEightbytes(s, ag.classes, mem, k), img);
    }
  }

  lemma InStepValid(s: Caller, r: Reader)
    requires InStep(s, r)
    ensures s.Valid()
  {
  }

  lemma HoldsValid(s: Caller, img: Image)
    requires s.Valid() && Holds(s, img)
    ensures img.Valid()
  {
  }

  lemma PushKeeps(s: Caller, a: Arg, img: Image)
    requires s.Valid() && ValidArg(a) && Holds(Push(s, a), img)
    ensures Holds(s, img)
  {
    if a.AggrArg? && !OnStack(a.ag, s.i, s.f) {
      EightbytesKeep(s, a.ag.classes, a.mem, 0, img);
    }
  }

  lemma {:induction false} PushAllKeeps(s: Caller, args: seq<Arg>, img: Image)
    requires s.Valid() && (forall a :: a in args ==> ValidArg(a)) && Holds(PushAll(s, args), img)
    ensures Holds(s, img)
    decreases |args|
  {
    if args != [] {
      PushAllKeeps(Push(s, args[0]), args[1..], img);
      PushKeeps(s, args[0], img);
    }
  }

  lemma AggrStep(s: Caller, r: Reader, ag: SysvAggr, mem: seq<byte>, target: seq<byte>, img: Image)
    requires InStep(s, r) && WellFormed(ag) && ag.size <= |mem| && ag.size <= |target|
    requires ReadTo(r, AskAggr(ag, target)) <= |s.vec.mem|
    ensures InStep(PushAggr(s, ag, mem), After(r, AskAggr(ag, target)))
    ensures Holds(PushAggr(s, ag, mem), img) ==>
              Answer(r, AskAggr(ag, target), img) == Bytes(mem[..ag.size] + target[ag.size..])
  {
    if OnStack(ag, r.i, r.f) {
      var s1 := PushAggr(s, ag, mem);
      if Holds(s1, img) {
        SameBelowLoads(s1.vec.mem, img.stack, s1.vec.size, s.vec.size, ag.size);
      }
    } else {
      EightbytesStep(s, r, ag, mem, 0, target, img);
      OverlayAll(target, mem, ag.size);
    }
  }

  /** One argument: the two machines stay in step and the request is answered with what was pushed. */
  lemma Step(s: Caller, r: Reader, a: Arg, q: Ask, img: Image)
    requires InStep(s, r) && ValidArg(a) && Matches(a, q)
    requires ReadTo(r, q) <= |s.vec.mem|
    ensures InStep(Push(s, a), After(r, q))
    ensures Holds(Push(s, a), img) ==> Answer(r, q, img) == Expected(a, q)
  {
    match a
    case IntArg(b) => I64Step(s, r, SignExtend(b, 8), img);
    case BoolArg(b) => I64Step(s, r, SignExtend(b, 8), img);
    case FloatArg(b, pad) => F64Step(s, r, b + pad, img);
    case DoubleArg(b) => F64Step(s, r, b, img);
    case PointerArg(b) => I64Step(s, r, b, img);
    case AggrArg(ag, mem) => AggrStep(s, r, ag, mem, q.target, img);
    case NonTrivialArg(b) => I64Step(s, r, b, img);
  }

  /**
    Round trip: for every argument list that fits the vector, reading the same types in order
    returns exactly the values pushed, and counters and stack depth agree at the end (and, by
    the same lemma on prefixes, at every step).
   */
  lemma {:induction false} RoundTrip(s: Caller, r: Reader, args: seq<Arg>, asks: seq<Ask>, img: Image)
    requires InStep(s, r) && AllMatch(args, asks)
    requires Reach(r, asks) <= |s.vec.mem|
    requires Holds(PushAll(s, args), img)
    ensures InStep(PushAll(s, args), AfterAll(r, asks))
    ensures Answers(r, asks, img) == ExpectedAll(args, asks)
    decreases |args|
  {
    if args != [] {
      var s1, r1 := Push(s, args[0]), After(r, asks[0]);
      PushAllKeeps(s1, args[1..], img);
      Step(s, r, args[0], asks[0], img);
      RoundTrip(s1, r1, args[1..], asks[1..], img);
    }
  }

  // --- whole calls ------------------------------------------------------------------------

  /** dc_callvm_reset_x64 and dc_callvm_begin_aggr_x64: registers and buffer hold stale bytes. */
  predicate Fresh(s: Caller) {
    s.Valid() && s.i == 0 && s.f == 0 && s.vec.size == 0 && s.ret in {-1, 0}
  }

  /** The mAggrReturnReg that dc_callvm_begin_aggr_x64 leaves after a reset: 0 for a hidden pointer, else -1. */
  function CallerMode(ag: Option<SysvAggr>): int
    requires ag.Some? ==> |ag.value.classes| == 8
  {
    if ag.None? || ag.value.classes[0] == Memory then 0 else -1
  }

  /** The image at the call: dc_callvm_call_x64_aggr stores the hidden pointer first. */
  function AtCall(s: Caller, hidden: Eightbyte): (img: Image)
    requires s.Valid() && s.ret in {-1, 0}
    ensures img.Valid()
  {
    Image(if s.ret >= 0 then s.ri[s.ret := hidden] else s.ri, s.rf, s.vec.mem)
  }

  /**
    A call and the callback that receives it: every argument list whose stack part fits
    arrives unchanged, with or without a hidden return pointer, and the hidden pointer arrives
    in its register.
   */
  lemma CallRoundTrip(s: Caller, args: seq<Arg>, asks: seq<Ask>, ret: int, hidden: Eightbyte)
    requires Fresh(s) && AllMatch(args, asks)
    requires ret == s.ret || (s.ret == -1 && ret == -2)
    requires Reach(Reader(0, 0, 0, ret), asks) <= |s.vec.mem|
    ensures PushAll(s, args).ret == s.ret
    ensures var img := AtCall(PushAll(s, args), hidden);
            && Answers(Reader(0, 0, 0, ret), asks, img) == ExpectedAll(args, asks)
            && (ret >= 0 ==> img.ri[ret] == hidden)
  {
    HiddenSlotUntouched(s, args);
    RoundTrip(s, Reader(0, 0, 0, ret), args, asks, AtCall(PushAll(s, args), hidden));
  }

  /** No argument is ever placed in the register reserved for the hidden pointer. */
  lemma {:induction false} HiddenSlotUntouched(s: Caller, args: seq<Arg>)
    requires s.Valid() && forall a :: a in args ==> ValidArg(a)
    ensures PushAll(s, args).ret == s.ret
    ensures 0 <= s.ret < INT_REGS ==> PushAll(s, args).ri[s.ret] == s.ri[s.ret]
    decreases |args|
  {
    if args != [] {
      HiddenSlotUntouched(Push(s, args[0]), args[1..]);
      if args[0].AggrArg? && !OnStack(args[0].ag, s.i, s.f) {
        EightbytesMissHidden(s, args[0].ag.classes, args[0].mem, 0);
      }
    }
  }

  lemma {:induction false} EightbytesMissHidden(s: Caller, classes: seq<Class>, mem: seq<byte>, k: nat)
    requires s.Valid()
    ensures PushEightbytes(s, classes, mem, k).ret == s.ret
    ensures 0 <= s.ret < INT_REGS ==> PushEightbytes(s, classes, mem, k).ri[s.ret] == s.ri[s.ret]
    decreases |classes| - k
  {
    if k < |classes| && classes[k] != NoClass {
      var w := Load(mem, 8 * k, 8);
      EightbytesMissHidden(match classes[k] case Integer => PushI64(s, w) case Sse => PushF64(s, w) case _ => s,
                           classes, mem, k + 1);
    }
  }

  // --- all or nothing ---------------------------------------------------------------------

  /** Room for the remaining eightbytes, counting the hidden register that is skipped lazily. */
  predicate Room(s: Caller, classes: seq<Class>, k: nat) {
    && s.i + (if s.i == s.ret then 1 else 0) + Count(classes, Integer, k) <= INT_REGS
    && s.f + Count(classes, Sse, k) <= FLOAT_REGS
  }

  lemma {:induction false} RoomMeansNoSpill(s: Caller, classes: seq<Class>, mem: seq<byte>, k: nat)
    requires s.Valid() && s.ret <= 0 && Room(s, classes, k)
    ensures PushEightbytes(s, classes, mem, k).vec == s.vec
    decreases |classes| - k
  {
    if k < |classes| && classes[k] != NoClass {
      var w := Load(mem, 8 * k, 8);
      RoomMeansNoSpill(match classes[k] case Integer => PushI64(s, w) case Sse => PushF64(s, w) case _ => s,
                       classes, mem, k + 1);
    }
  }

  lemma {:induction false} CountBound(classes: seq<Class>, c: Class, k: nat, n: nat)
    requires k <= n < |classes| && classes[n] == NoClass
    ensures Count(classes, c, k) <= n - k
    decreases n - k
  {
    if k < n {
      CountBound(classes, c, k + 1, n);
    }
  }

  /**
    An aggregate goes entirely into registers or entirely onto the stack: the count taken
    beforehand ignores the hidden register, yet no eightbyte ever overflows; and when the
    count fails no register is used and the stack grows by whole eightbytes.
   */
  lemma AllOrNothing(s: Caller, ag: SysvAggr, mem: seq<byte>)
    requires s.Valid() && s.ret in {-1, 0} && WellFormed(ag) && ag.size <= |mem|
    ensures var s1 := PushAggr(s, ag, mem);
            if OnStack(ag, s.i, s.f)
            then s1.i == s.i && s1.f == s.f && s1.ri == s.ri && s1.rf == s.rf &&
                 (s.vec.size + ag.size <= |s.vec.mem| ==> s1.vec.size == s.vec.size + RoundUp(ag.size, 8))
            else s1.vec == s.vec
  {
    if !OnStack(ag, s.i, s.f) {
      CountBound(ag.classes, Integer, 0, Eightbytes(ag.size));
      RoomMeansNoSpill(s, ag.classes, mem, 0);
    }
  }

  // --- capacity ---------------------------------------------------------------------------

  /** The counters agree; the stack depths agree exactly while everything up to `reach` has fitted. */
  predicate Tracks(s: Caller, r: Reader, reach: nat) {
    && s.Valid()
    && s.i == r.i && s.f == r.f && s.ret == r.ret && reach <= r.sp
    && if reach <= |s.vec.mem| then s.vec.size == r.sp else s.vec.size < r.sp
  }

  function Further(r: Reader, r1: Reader, reach: nat): nat {
    if r1.sp > r.sp then r1.sp else reach
  }

  lemma {:induction false} EightbytesTrack(s: Caller, r: Reader, classes: seq<Class>, mem: seq<byte>, k: nat,
                                           reach: nat)
    requires Tracks(s, r, reach)
    ensures var r1 := AfterEightbytes(r, classes, k);
            Tracks(PushEightbytes(s, classes, mem, k), r1, Further(r, r1, reach))
    decreases |classes| - k
  {
    if k < |classes| && classes[k] != NoClass {
      var w := Load(mem, 8 * k, 8);
      match classes[k]
      case Integer => EightbytesTrack(PushI64(s, w), AfterI64(r), classes, mem, k + 1, Further(r, AfterI64(r), reach));
      case Sse => EightbytesTrack(PushF64(s, w), AfterF64(r), classes, mem, k + 1, Further(r, AfterF64(r), reach));
      case Memory => EightbytesTrack(s, r, classes, mem, k + 1, reach);
      case NoClass =>
    }
  }

  function Max(a: nat, b: nat): nat {
    if a < b then b else a
  }

  /**
    The capacity condition is exact for every buffer size: the caller ends at the depth the
    callback expects if and only if the last stack byte the callback reads is in the vector. A
    dropped append is never made up for.
   */
  lemma CapacityIsExact(s: Caller, r: Reader, args: seq<Arg>, asks: seq<Ask>)
    requires s.Valid() && s.i == r.i && s.f == r.f && s.ret == r.ret && s.vec.size == r.sp
    requires AllMatch(args, asks)
    ensures PushAll(s, args).vec.size == AfterAll(r, asks).sp <==> Reach(r, asks) <= |s.vec.mem|
  {
    CapacityFrom(s, r, 0, args, asks);
  }

  lemma {:induction false} CapacityFrom(s: Caller, r: Reader, reach: nat, args: seq<Arg>, asks: seq<Ask>)
    requires Tracks(s, r, reach) && AllMatch(args, asks)
    ensures PushAll(s, args).vec.size == AfterAll(r, asks).sp <==> Max(reach, Reach(r, asks)) <= |s.vec.mem|
    decreases |args|
  {
    TracksMeansExact(s, r, reach);
    hide Push, After, Tracks, ReadTo;
    if args != [] {
      StepTracks(s, r, reach, args[0], asks[0]);
      CapacityFrom(Push(s, args[0]), After(r, asks[0]), Max(reach, ReadTo(r, asks[0])), args[1..], asks[1..]);
    }
  }

  lemma TracksMeansExact(s: Caller, r: Reader, reach: nat)
    requires Tracks(s, r, reach)
    ensures s.Valid() && (s.vec.size == r.sp <==> reach <= |s.vec.mem|)
  {
  }

  lemma StepTracks(s: Caller, r: Reader, reach: nat, a: Arg, q: Ask)
    requires Tracks(s, r, reach) && ValidArg(a) && Matches(a, q)
    ensures Tracks(Push(s, a), After(r, q), Max(reach, ReadTo(r, q)))
  {
    if a.AggrArg? {
      if OnStack(a.ag, s.i, s.f) {
        BlockTracks(s, r, reach, a.ag, a.mem);
      } else {
        EightbytesTrack(s, r, a.ag.classes, a.mem, 0, reach);
      }
    }
  }

  lemma BlockTracks(s: Caller, r: Reader, reach: nat, ag: SysvAggr, mem: seq<byte>)
    requires Tracks(s, r, reach) && WellFormed(ag) && ag.size <= |mem| && OnStack(ag, s.i, s.f)
    ensures Tracks(PushAggr(s, ag, mem), r.(sp := r.sp + RoundUp(ag.size, 8)),
                   Max(reach, if ag.size > 0 then r.sp + ag.size else 0))
  {
    hide WellFormed;
  }

  /** In a buffer of whole eightbytes the room needed can be read off the final depth. */
  lemma {:induction false} WholeEightbytes(r: Reader, asks: seq<Ask>, total: nat)
    requires (forall q :: q in asks ==> ValidAsk(q)) && total % 8 == 0 && r.sp % 8 == 0 && r.sp <= total
    ensures Reach(r, asks) <= total <==> AfterAll(r, asks).sp <= total
    decreases |asks|
  {
    hide After, ReadTo;
    if asks != [] {
      OneRead(r, asks[0], total);
      if After(r, asks[0]).sp <= total {
        WholeEightbytes(After(r, asks[0]), asks[1..], total);
      }
    }
  }

  lemma OneRead(r: Reader, q: Ask, total: nat)
    requires ValidAsk(q) && total % 8 == 0 && r.sp % 8 == 0 && r.sp <= total
    ensures After(r, q).sp % 8 == 0 && (ReadTo(r, q) <= total <==> After(r, q).sp <= total)
  {
    if q.AskAggr? {
      WholeSteps(r, q.ag.classes, 0);
    }
  }

  lemma {:induction false} WholeSteps(r: Reader, classes: seq<Class>, k: nat)
    requires r.sp % 8 == 0
    ensures AfterEightbytes(r, classes, k).sp % 8 == 0
    decreases |classes| - k
  {
    if k < |classes| && classes[k] != NoClass {
      WholeSteps(match classes[k] case Integer => AfterI64(r) case Sse => AfterF64(r) case _ => r, classes, k + 1);
    }
  }
}
