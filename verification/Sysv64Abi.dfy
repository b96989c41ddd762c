/**
  System V AMD64 calls end to end: where the ABI says each scalar goes, in closed form, and
  aggregates from their declaration to the callback.
 */
module Sysv64Abi {
  import opened Aggregate
  import opened Alignment
  import opened Memory
  import opened Integers
  import opened Classify
  import opened FlatAbi
  import opened FlatProof
  import opened SysvClasses
  import opened Sysv64
  import opened AggrReturn
  import opened Misclassified

  // --- scalar placement -------------------------------------------------------------------

  predicate IsSse(a: Arg) {
    a.FloatArg? || a.DoubleArg?
  }

  predicate Scalars(args: seq<Arg>) {
    forall a :: a in args ==> ValidArg(a) && !a.AggrArg?
  }

  /** The eight bytes a scalar travels as. */
  function Word64(a: Arg): Eightbyte
    requires ValidArg(a) && !a.AggrArg?
  {
    if a.IntArg? || a.BoolArg? then SignExtend(a.b, 8) else if a.FloatArg? then a.b + a.pad else a.b
  }

  /** An eightbyte from which the callee gets the argument: a narrow integer keeps its value. */
  predicate Carries(a: Arg, w: Eightbyte)
    requires ValidArg(a) && !a.AggrArg?
  {
    match a
    case IntArg(b) => SignedValue(w) == SignedValue(b)
    case BoolArg(b) => SignedValue(w) == SignedValue(b)
    case FloatArg(b, _) => w[..4] == b
    case DoubleArg(b) => w == b
    case PointerArg(b) => w == b
    case NonTrivialArg(b) => w == b
  }

  lemma WordCarries(a: Arg)
    requires ValidArg(a) && !a.AggrArg?
    ensures Carries(a, Word64(a))
  {
    hide SignExtend, SignedValue;
    match a
    case IntArg(b) => SignExtendKeepsValue(b, 8);
    case BoolArg(b) => SignExtendKeepsValue(b, 8);
    case _ =>
  }

  function Sses(args: seq<Arg>): (n: nat)
    ensures n <= |args|
  {
    if args == [] then 0 else Sses(args[..|args| - 1]) + if IsSse(args[|args| - 1]) then 1 else 0
  }

  /** INTEGER arguments, with the hidden return pointer as the first of them. */
  function Ints(hidden: bool, args: seq<Arg>): nat {
    |args| - Sses(args) + if hidden then 1 else 0
  }

  function Excess(n: nat, limit: nat): nat {
    if n < limit then 0 else n - limit
  }

  /** Stack slots of the arguments that found no register. */
  function Spilled(hidden: bool, args: seq<Arg>): nat {
    Excess(Ints(hidden, args), 6) + Excess(Sses(args), 8)
  }

  lemma {:induction false} SpilledMonotone(hidden: bool, args: seq<Arg>, k: nat)
    requires k <= |args|
    ensures Spilled(hidden, args[..k]) <= Spilled(hidden, args)
    ensures Sses(args[..k]) <= Sses(args) && Ints(hidden, args[..k]) <= Ints(hidden, args)
  {
    if k < |args| {
      SpilledMonotone(hidden, args[..|args| - 1], k);
      assert args[..|args| - 1][..k] == args[..k];
    } else {
      assert args[..k] == args;
    }
  }

  lemma {:induction false} PushAllSplit(s: Caller, args: seq<Arg>, k: nat)
    requires s.Valid() && (forall a :: a in args ==> ValidArg(a)) && k <= |args|
    ensures PushAll(s, args) == PushAll(PushAll(s, args[..k]), args[k..])
    decreases k
  {
    if k == 0 {
      assert args[0..] == args;
    } else {
      PushAllSplit(Push(s, args[0]), args[1..], k - 1);
      assert args[..k][1..] == args[1..][..k - 1];
      assert args[1..][k - 1..] == args[k..];
    }
  }

  /** The counters after a list of scalars that fits. */
  predicate CountersAre(s: Caller, hidden: bool, args: seq<Arg>) {
    && s.f == Sses(args) - Excess(Sses(args), FLOAT_REGS)
    && s.i + (if s.i == s.ret then 1 else 0) == Ints(hidden, args) - Excess(Ints(hidden, args), INT_REGS)
    && s.vec.size == 8 * Spilled(hidden, args)
  }

  lemma {:induction false} Counters(s: Caller, args: seq<Arg>)
    requires Fresh(s) && Scalars(args) && 8 * Spilled(s.ret == 0, args) <= |s.vec.mem|
    ensures CountersAre(PushAll(s, args), s.ret == 0, args) && PushAll(s, args).ret == s.ret
    decreases |args|
  {
    if args != [] {
      var n := |args| - 1;
      SpilledMonotone(s.ret == 0, args, n);
      Counters(s, args[..n]);
      PushAllSplit(s, args, n);
      assert args[n..] == [args[n]];
      assert args[n] in args;
      PushOne(PushAll(s, args[..n]), s.ret == 0, args);
    }
  }

  lemma PushOne(p: Caller, hidden: bool, args: seq<Arg>)
    requires args != [] && Scalars(args) && p.Valid() && CountersAre(p, hidden, args[..|args| - 1])
    requires p.ret == (if hidden then 0 else -1) && 8 * Spilled(hidden, args) <= |p.vec.mem|
    requires p.Valid() && ValidArg(args[|args| - 1])
    ensures var r := PushAll(p, [args[|args| - 1]]);
            r == Push(p, args[|args| - 1]) && CountersAre(r, hidden, args) && r.ret == p.ret
  {
    hide SignExtend, Load, Store;
    var a := args[|args| - 1];
    assert a in args;
    assert PushAll(Push(p, a), []) == Push(p, a);
    assert [a][1..] == [];
  }

  /**
    Placement as the ABI states it: the n-th INTEGER argument (a hidden return pointer being the
    first) is in the n-th integer register, the n-th SSE argument in the n-th vector register,
    and those that find none are on the stack in order, eight bytes each.
   */
  lemma ScalarPlacement(s: Caller, args: seq<Arg>, k: nat, hidden: Eightbyte)
    requires Fresh(s) && Scalars(args) && k < |args| && 8 * Spilled(s.ret == 0, args) <= |s.vec.mem|
    ensures PushAll(s, args).ret == s.ret && ValidArg(args[k]) && !args[k].AggrArg?
    ensures var img := AtCall(PushAll(s, args), hidden);
            var before := args[..k];
            var n := if IsSse(args[k]) then Sses(before) else Ints(s.ret == 0, before);
            Carries(args[k], if IsSse(args[k]) && n < 8 then img.rf[n]
                             else if !IsSse(args[k]) && n < 6 then img.ri[n]
                             else Load(img.stack, 8 * Spilled(s.ret == 0, before), 8))
  {
    hide Push, Carries, Holds, CountersAre, Word64, Spilled, Ints, Sses, PushAll;
    FreshValid(s);
    var h := s.ret == 0;
    assert args[k] in args;
    Counters(s, args);
    Counters'(s, args, k);
    var p := PushAll(s, args[..k]);
    var q := Push(p, args[k]);
    PushAllSplit(s, args, k);
    PushAllHead(p, args[k..]);
    assert args[k..][0] == args[k] && args[k..][1..] == args[k + 1..];
    assert args[..k + 1] == args[..k] + [args[k]];
    HoldsAtCall(PushAll(s, args), hidden);
    PushAllKeeps(q, args[k + 1..], AtCall(PushAll(s, args), hidden));
    PlacedAt(p, h, args[..k], args[k], AtCall(PushAll(s, args), hidden));
    WordCarries(args[k]);
  }

  lemma FreshValid(s: Caller)
    requires Fresh(s)
    ensures s.Valid() && s.ret in {-1, 0}
  {
  }

  lemma Counters'(s: Caller, args: seq<Arg>, k: nat)
    requires Fresh(s) && Scalars(args) && k < |args| && 8 * Spilled(s.ret == 0, args) <= |s.vec.mem|
    ensures var p := PushAll(s, args[..k]);
            CountersAre(p, s.ret == 0, args[..k])
               && p.ret == s.ret && 8 * Spilled(s.ret == 0, args[..k + 1]) <= |s.vec.mem|
  {
    SpilledMonotone(s.ret == 0, args, k);
    SpilledMonotone(s.ret == 0, args, k + 1);
    Counters(s, args[..k]);
  }

  lemma PushAllHead(p: Caller, args: seq<Arg>)
    requires p.Valid() && args != [] && forall a :: a in args ==> ValidArg(a)
    ensures PushAll(p, args) == PushAll(Push(p, args[0]), args[1..])
  {
  }

  lemma HoldsAtCall(e: Caller, hidden: Eightbyte)
    requires e.Valid() && e.ret in {-1, 0}
    ensures Holds(e, AtCall(e, hidden))
  {
  }

  lemma PlacedAt(p: Caller, hidden: bool, before: seq<Arg>, a: Arg, img: Image)
    requires p.Valid() && ValidArg(a) && !a.AggrArg? && CountersAre(p, hidden, before)
    requires p.ret == if hidden then 0 else -1
    requires 8 * Spilled(hidden, before + [a]) <= |p.vec.mem|
    requires Holds(Push(p, a), img)
    ensures var n := if IsSse(a) then Sses(before) else Ints(hidden, before);
            if IsSse(a) && n < FLOAT_REGS then img.rf[n] == Word64(a)
            else if !IsSse(a) && n < INT_REGS then img.ri[n] == Word64(a)
            else Load(img.stack, 8 * Spilled(hidden, before), 8) == Word64(a)
  {
    hide SignExtend, Holds, PushI64, PushF64, Load;
    assert (before + [a])[..|before|] == before;
    if IsSse(a) {
      SsePlaced(p, Sses(before), Spilled(hidden, before), Word64(a), img);
    } else {
      IntPlaced(p, Ints(hidden, before), Spilled(hidden, before), Word64(a), img);
    }
  }

  /** The n-th INTEGER eightbyte, `spilled` slots of the stack being taken. */
  lemma IntPlaced(p: Caller, n: nat, spilled: nat, w: Eightbyte, img: Image)
    requires p.Valid() && p.i + (if p.i == p.ret then 1 else 0) == n - Excess(n, INT_REGS) && p.vec.size == 8 * spilled
    requires n >= INT_REGS ==> 8 * spilled + 8 <= |p.vec.mem|
    requires Holds(PushI64(p, w), img) && p.vec.size <= |p.vec.mem|
    ensures if n < INT_REGS then img.ri[n] == w else Load(img.stack, 8 * spilled, 8) == w
  {
    hide Load, PushI64, Holds;
    I64Step(p, Reader(p.i, p.f, p.vec.size, p.ret), w, img);
  }

  lemma SsePlaced(p: Caller, n: nat, spilled: nat, w: Eightbyte, img: Image)
    requires p.Valid() && p.f == n - Excess(n, FLOAT_REGS) && p.vec.size == 8 * spilled
    requires n >= FLOAT_REGS ==> 8 * spilled + 8 <= |p.vec.mem|
    requires Holds(PushF64(p, w), img) && p.vec.size <= |p.vec.mem|
    ensures if n < FLOAT_REGS then img.rf[n] == w else Load(img.stack, 8 * spilled, 8) == w
  {
    hide Load, PushF64, Holds;
    F64Step(p, Reader(p.i, p.f, p.vec.size, p.ret), w, img);
  }

  // --- aggregates from declaration to callback ----------------------------------------------

  /** The description dcCloseAggr leaves behind. */
  function Closed(ag: Aggr, stale: seq<Class>): SysvAggr
    requires |stale| == 8
  {
    SysvAggr(ag.size, ClassesOf(CArithmetic, ag, stale))
  }

  /**
    An aggregate declared field by field and closed as the compiled code does it, passed and
    read: its bytes, and only its bytes, arrive in the target, at any point of an argument list,
    unless one of its eightbytes came out as NONE. This includes aggregates whose classes are
    not those of the ABI: both sides use the same ones.
   */
  lemma DeclaredAggregateArrives(ag: Aggr, stale: seq<Class>, s: Caller, r: Reader, mem: seq<byte>,
                                 target: seq<byte>, img: Image)
    requires |stale| == 8 && Built(ag) && WellNested(ag) && SizeFitsAlignment(ag)
    requires Usable(ag.size, Closed(ag, stale).classes)
    requires InStep(s, r) && ag.size <= |mem| && ag.size <= |target|
    requires WellFormed(Closed(ag, stale)) ==> ReadTo(r, AskAggr(Closed(ag, stale), target)) <= |s.vec.mem|
    ensures var a, q := AggrArg(Closed(ag, stale), mem), AskAggr(Closed(ag, stale), target);
            && ValidArg(a) && ValidAsk(q)
            && InStep(Push(s, a), After(r, q))
            && (Holds(Push(s, a), img) ==> Answer(r, q, img) == Bytes(mem[..ag.size] + target[ag.size..]))
  {
    hide Built, WellNested, SizeFitsAlignment, WellFormed, ClassesOf, Usable, Holds, InStep;
    ClassesWellFormed(CArithmetic, ag, stale);
    Step(s, r, AggrArg(Closed(ag, stale), mem), AskAggr(Closed(ag, stale), target), img);
  }

  /** A described result needs a hidden pointer exactly when it is too large or has a MEMORY eightbyte. */
  lemma HiddenPointerExactly(ag: Aggr, stale: seq<Class>)
    requires |stale| == 8
    ensures CallerMode(None) == 0
    ensures CallerMode(Some(Closed(ag, stale)))
         == if ag.size > 16 || exists i :: 0 <= i < 2 && ClassOf(CArithmetic, ag, 8 * i, 0) == Memory then 0 else -1
  {
    hide ClassesOf, ClassOf;
    StoredClasses(CArithmetic, ag, stale);
  }

  /** The same for a result returned in registers. */
  lemma DeclaredAggregateReturns(ag: Aggr, stale: seq<Class>, mem: seq<byte>, regs: Registers, dest: seq<byte>)
    requires |stale| == 8 && Built(ag) && WellNested(ag) && SizeFitsAlignment(ag)
    requires Usable(ag.size, Closed(ag, stale).classes) && CallerMode(Some(Closed(ag, stale))) == -1
    requires ag.size <= |mem| && ag.size <= |dest|
    ensures var c := Closed(ag, stale);
            InRegisters(c) && Reassemble(c, Distribute(c, mem, regs, 0, 0, 0), dest, 0, 0, 0)
               == mem[..ag.size] + dest[ag.size..]
  {
    hide Built, WellNested, SizeFitsAlignment, WellFormed, ClassesOf, Usable, Distribute, Reassemble;
    ClassesWellFormed(CArithmetic, ag, stale);
    ReturnRoundTrip(Closed(ag, stale), mem, regs, dest);
  }

  // --- when classes lose bytes --------------------------------------------------------------

  /** A caller with registers and room on the stack. */
  predicate HasRoom(s: Caller, size: nat) {
    s.Valid() && s.ret in {-1, 0} && s.vec.size % 8 == 0 && s.vec.size + size <= |s.vec.mem|
  }

  /** What the caller places determines every byte of the aggregate, wherever it stands in a list. */
  ghost predicate KeepsAllBytes(c: SysvAggr)
    requires |c.classes| == 8
  {
    forall s: Caller, a: seq<byte>, b: seq<byte> ::
      HasRoom(s, RoundUp(c.size, 8)) && c.size <= |a| && c.size <= |b| && PushAggr(s, c, a) == PushAggr(s, c, b) ==>
        a[..c.size] == b[..c.size]
  }

  /**
    Exactly the usable classes carry an aggregate: for any others two aggregates that differ are
    placed alike, so no callback can tell them apart.
   */
  lemma ArrivesExactly(ag: Aggr, stale: seq<Class>)
    requires |stale| == 8 && Built(ag) && WellNested(ag) && SizeFitsAlignment(ag)
    ensures KeepsAllBytes(Closed(ag, stale)) <==> Usable(ag.size, Closed(ag, stale).classes)
  {
    hide Built, WellNested, SizeFitsAlignment, PushAggr, WellFormed, Usable, ClassesOf;
    var c := Closed(ag, stale);
    ClassesWellFormed(CArithmetic, ag, stale);
    if Usable(ag.size, c.classes) {
      forall s: Caller, a: seq<byte>, b: seq<byte> |
          HasRoom(s, RoundUp(c.size, 8)) && c.size <= |a| && c.size <= |b| && PushAggr(s, c, a) == PushAggr(s, c, b)
        ensures a[..c.size] == b[..c.size]
      {
        PlacedDetermines(s, c, a, b);
      }
    } else {
      UnusableLosesBytes(ag, stale);
    }
  }

  lemma PlacedDetermines(s: Caller, c: SysvAggr, a: seq<byte>, b: seq<byte>)
    requires WellFormed(c) && HasRoom(s, RoundUp(c.size, 8)) && c.size <= |a| && c.size <= |b|
    requires PushAggr(s, c, a) == PushAggr(s, c, b)
    ensures a[..c.size] == b[..c.size]
  {
    var r, t := Reader(s.i, s.f, s.vec.size, s.ret), Zeros(c.size);
    var e := PushAggr(s, c, a);
    var img := Image(e.ri, e.rf, e.vec.mem);
    RoomIsReach(s, r, c, t);
    hide PushAggr, WellFormed, After, Answer, ReadTo;
    AggrStep(s, r, c, a, t, img);
    AggrStep(s, r, c, b, t, img);
    assert t[c.size..] == [];
    assert a[..c.size] + [] == a[..c.size] && b[..c.size] + [] == b[..c.size];
  }

  lemma RoomIsReach(s: Caller, r: Reader, c: SysvAggr, t: seq<byte>)
    requires WellFormed(c) && HasRoom(s, RoundUp(c.size, 8))
            && c.size <= |t| && r == Reader(s.i, s.f, s.vec.size, s.ret)
    ensures ReadTo(r, AskAggr(c, t)) <= |s.vec.mem|
  {
    if !OnStack(c, r.i, r.f) {
      CountBound(c.classes, Integer, 0, Eightbytes(c.size));
      NoSpill(r, c.classes, 0);
    }
  }

  /** The callback's side of RoomMeansNoSpill. */
  lemma {:induction false} NoSpill(r: Reader, classes: seq<Class>, k: nat)
    requires r.ret <= 0 && r.i + (if r.i == r.ret then 1 else 0) + Count(classes, Integer, k) <= INT_REGS
    requires r.f + Count(classes, Sse, k) <= FLOAT_REGS
    ensures AfterEightbytes(r, classes, k).sp == r.sp
    decreases |classes| - k
  {
    if k < |classes| && classes[k] != NoClass {
      NoSpill(match classes[k] case Integer => AfterI64(r) case Sse => AfterF64(r) case _ => r, classes, k + 1);
    }
  }

  /** A caller at the start of a list, with a buffer that has room. */
  function Start(total: nat): (s: Caller)
    ensures HasRoom(s, total) && Fresh(s)
  {
    Caller(0, 0, seq(INT_REGS, _ => [0, 0, 0, 0, 0, 0, 0, 0]), seq(FLOAT_REGS, _ => [0, 0, 0, 0, 0, 0, 0, 0]), -1,
           Vec(Zeros(total), 0))
  }

  lemma UnusableLosesBytes(ag: Aggr, stale: seq<Class>)
    requires |stale| == 8 && !Usable(ag.size, Closed(ag, stale).classes)
    ensures !KeepsAllBytes(Closed(ag, stale))
  {
    var c := Closed(ag, stale);
    var n := c.size;
    var s := Start(RoundUp(n, 8));
    var a, b := Zeros(n), Zeros(n)[n - 1 := 1];
    OnlyTheFirst(s, c, a, b);
    assert a[..n][n - 1] != b[..n][n - 1];
  }

  /** Nothing behind a NONE is placed. */
  lemma OnlyTheFirst(s: Caller, c: SysvAggr, a: seq<byte>, b: seq<byte>)
    requires Fresh(s) && |c.classes| == 8 && c.classes[0] != Memory && 0 < c.size <= 16
    requires c.classes[0] == NoClass || (c.size > 8 && c.classes[1] == NoClass)
    requires c.size <= |a| && c.size <= |b| && (c.classes[0] != NoClass ==> a[..8] == b[..8])
    ensures PushAggr(s, c, a) == PushAggr(s, c, b)
  {
    hide Load;
    assert Count(c.classes, Integer, 0) <= 1 && Count(c.classes, Sse, 0) <= 1 by {
      assert c.classes[0] != NoClass ==> Count(c.classes, Integer, 1) == 0 && Count(c.classes, Sse, 1) == 0;
    }
    if c.classes[0] != NoClass {
      SameFirst(a, b);
      var w := Load(a, 0, 8);
      var s1 := match c.classes[0] case Integer => PushI64(s, w) case Sse => PushF64(s, w) case _ => s;
      assert PushEightbytes(s1, c.classes, a, 1) == s1 == PushEightbytes(s1, c.classes, b, 1);
    }
  }

  lemma SameFirst(a: seq<byte>, b: seq<byte>)
    requires |a| >= 8 && |b| >= 8 && a[..8] == b[..8]
    ensures Load(a, 0, 8) == Load(b, 0, 8)
  {
  }

  /**
    An aggregate whose only field is a long long at byte 8 is naturally laid out, but its first
    class is NONE, which ends the list of classes, and nothing of it is passed.
   */
  lemma LeadingPaddingIsLost(stale: seq<Class>, s: Caller, mem: seq<byte>)
    requires |stale| == 8 && s.Valid() && s.i <= INT_REGS && s.f <= FLOAT_REGS && |mem| >= 16
    ensures var ag := Aggr(16, 8, [NewField('l', 8, 1, None)]);
            && Built(ag) && WellNested(ag) && Natural(ag)
            && ClassesOf(CArithmetic, ag, stale)[..3] == [NoClass, Integer, NoClass]
            && PushAggr(s, Closed(ag, stale), mem) == s
  {
    hide ClassOf, OnStack;
    var f := NewField('l', 8, 1, None);
    var ag := Aggr(16, 8, [f]);
    assert f in ag.fields;
    LoneField(f);
    NoneIsNotPassed(Closed(ag, stale), s, mem);
  }

  lemma NoneIsNotPassed(c: SysvAggr, s: Caller, mem: seq<byte>)
    requires |c.classes| == 8 && c.classes[0] == NoClass && c.size <= |mem|
    requires s.Valid() && s.i <= INT_REGS && s.f <= FLOAT_REGS
    ensures PushAggr(s, c, mem) == s
  {
    assert Count(c.classes, Integer, 0) == 0 && Count(c.classes, Sse, 0) == 0;
  }

  lemma LoneField(f: Field)
    requires f == NewField('l', 8, 1, None)
    ensures ClassOf(CArithmetic, Aggr(16, 8, [f]), 0, 0) == NoClass
    ensures ClassOf(CArithmetic, Aggr(16, 8, [f]), 8, 0) == Integer
  {
    OneField(CArithmetic, Aggr(16, 8, [f]), 0, 0);
    OneField(CArithmetic, Aggr(16, 8, [f]), 8, 0);
  }

  /**
    `{ int :32; struct { int[3] } }` has an int in both eightbytes and is naturally laid out,
    but its first class is NONE because the struct starts inside the eightbyte: nothing of it is passed.
   */
  lemma CoveredAggregateIsLost(stale: seq<Class>, s: Caller, mem: seq<byte>)
    requires |stale| == 8 && s.Valid() && s.i <= INT_REGS && s.f <= FLOAT_REGS && |mem| >= 16
    ensures var ag := GapThen(ThreeInts());
            && Proper(ag) && Natural(ag) && ag.size == 16
            && AbiClass(NodesOf(ag, 0), 0) == Integer && AbiClass(NodesOf(ag, 0), 8) == Integer
            && PushAggr(s, Closed(ag, stale), mem) == s
  {
    hide ClassOf, OnStack, AbiClass, NodesOf, Proper, PushAggr;
    var ag := GapThen(ThreeInts());
    DroppedAggregate();
    InnerIsProper();
    OuterIsProper('i', ThreeInts());
    assert Natural(ThreeInts());
    NoneIsNotPassed(Closed(ag, stale), s, mem);
  }
}
