/**
  Where the System V AMD64 ABI has the eightbytes of an aggregate: section 3.2.3 of the psABI,
  "If there are no registers available for any eightbyte of an argument, the whole argument is
  passed on the stack".
 */
module Sysv64Placement {
  import opened Memory
  import opened Classify
  import opened SysvClasses
  import opened Sysv64

  /** The next integer register, behind that of a hidden return pointer. */
  function NextInt(s: Caller): nat {
    if s.i == s.ret then s.i + 1 else s.i
  }

  /** Eightbytes `k` to `n` in registers: each in the next one of its file, and nothing else touched. */
  predicate InRegistersFrom(s: Caller, e: Caller, classes: seq<Class>, mem: seq<byte>, k: nat, n: nat)
    requires s.Valid() && e.Valid() && k <= n <= |classes|
  {
    var i0, f0 := NextInt(s) - Among(classes, Integer, k), s.f - Among(classes, Sse, k);
    && e.vec == s.vec && e.ret == s.ret
    && e.f == f0 + Among(classes, Sse, n) <= 8
    && NextInt(e) == i0 + Among(classes, Integer, n) <= 6
    && (forall j :: k <= j < n && classes[j] == Integer ==>
          0 <= i0 + Among(classes, Integer, j) < 6 && e.ri[i0 + Among(classes, Integer, j)] == Load(mem, 8 * j, 8))
    && (forall j :: k <= j < n && classes[j] == Sse ==>
          0 <= f0 + Among(classes, Sse, j) < 8 && e.rf[f0 + Among(classes, Sse, j)] == Load(mem, 8 * j, 8))
    && (forall x :: 0 <= x < 6 && !(NextInt(s) <= x < NextInt(e)) ==> e.ri[x] == s.ri[x])
    && (forall x :: 0 <= x < 8 && !(s.f <= x < e.f) ==> e.rf[x] == s.rf[x])
  }

  lemma {:induction false} AmongGrows(classes: seq<Class>, c: Class, j: nat, n: nat)
    requires j <= n <= |classes|
    ensures Among(classes, c, j) <= Among(classes, c, n)
    ensures j < n && classes[j] == c ==> Among(classes, c, j) < Among(classes, c, n)
    decreases n
  {
    if j < n {
      AmongGrows(classes, c, j, n - 1);
    }
  }

  lemma {:induction false} EightbytesPlaced(s: Caller, classes: seq<Class>, mem: seq<byte>, k: nat, n: nat)
    requires s.Valid() && s.ret in {-1, 0} && k <= n < |classes| && classes[n] == NoClass
    requires forall j :: 0 <= j < n ==> classes[j] in {Integer, Sse}
    requires NextInt(s) + Among(classes, Integer, n) - Among(classes, Integer, k) <= 6
    requires s.f + Among(classes, Sse, n) - Among(classes, Sse, k) <= 8
    ensures InRegistersFrom(s, PushEightbytes(s, classes, mem, k), classes, mem, k, n)
    decreases n - k
  {
    if k < n {
      hide Load, Among, InRegistersFrom;
      var w := Load(mem, 8 * k, 8);
      var s1 := if classes[k] == Integer then PushI64(s, w) else PushF64(s, w);
      OneMore(classes, Integer, k);
      OneMore(classes, Sse, k);
      AmongGrows(classes, Integer, k + 1, n);
      AmongGrows(classes, Sse, k + 1, n);
      EightbytesPlaced(s1, classes, mem, k + 1, n);
      assert PushEightbytes(s, classes, mem, k) == PushEightbytes(s1, classes, mem, k + 1);
      FirstPlaced(s, s1, PushEightbytes(s1, classes, mem, k + 1), classes, mem, k, n);
    }
  }

  lemma OneMore(classes: seq<Class>, c: Class, k: nat)
    requires k < |classes|
    ensures Among(classes, c, k + 1) == Among(classes, c, k) + if classes[k] == c then 1 else 0
  {
  }

  lemma FirstPlaced(s: Caller, s1: Caller, e: Caller, classes: seq<Class>, mem: seq<byte>, k: nat, n: nat)
    requires s.Valid() && s.ret in {-1, 0} && k < n <= |classes| && classes[k] in {Integer, Sse}
    requires s1 == if classes[k] == Integer then PushI64(s, Load(mem, 8 * k, 8)) else PushF64(s, Load(mem, 8 * k, 8))
    requires NextInt(s) + Among(classes, Integer, n) - Among(classes, Integer, k) <= 6
    requires s.f + Among(classes, Sse, n) - Among(classes, Sse, k) <= 8
    requires e.Valid() && InRegistersFrom(s1, e, classes, mem, k + 1, n)
    ensures InRegistersFrom(s, e, classes, mem, k, n)
  {
    hide Load, Among, InRegistersFrom;
    OneMore(classes, Integer, k);
    OneMore(classes, Sse, k);
    AmongGrows(classes, Integer, k + 1, n);
    AmongGrows(classes, Sse, k + 1, n);
    if classes[k] == Integer {
      FirstInteger(s, s1, e, classes, mem, k, n);
    } else {
      FirstSse(s, s1, e, classes, mem, k, n);
    }
  }

  lemma FirstInteger(s: Caller, s1: Caller, e: Caller, classes: seq<Class>, mem: seq<byte>, k: nat, n: nat)
    requires s.Valid() && s.ret in {-1, 0} && k < n <= |classes| && classes[k] == Integer && NextInt(s) < 6
    requires s1 == PushI64(s, Load(mem, 8 * k, 8)) && e.Valid() && InRegistersFrom(s1, e, classes, mem, k + 1, n)
    requires Among(classes, Integer, k + 1) == Among(classes, Integer, k) + 1 <= Among(classes, Integer, n)
    requires Among(classes, Sse, k + 1) == Among(classes, Sse, k) <= Among(classes, Sse, n)
    ensures InRegistersFrom(s, e, classes, mem, k, n)
  {
    hide Load, Among;
    assert NextInt(s1) == NextInt(s) + 1 && s1.f == s.f;
    assert e.ri[NextInt(s)] == Load(mem, 8 * k, 8);
  }

  lemma FirstSse(s: Caller, s1: Caller, e: Caller, classes: seq<Class>, mem: seq<byte>, k: nat, n: nat)
    requires s.Valid() && s.ret in {-1, 0} && k < n <= |classes| && classes[k] == Sse && s.f < 8
    requires s1 == PushF64(s, Load(mem, 8 * k, 8)) && e.Valid() && InRegistersFrom(s1, e, classes, mem, k + 1, n)
    requires Among(classes, Integer, k + 1) == Among(classes, Integer, k) <= Among(classes, Integer, n)
    requires Among(classes, Sse, k + 1) == Among(classes, Sse, k) + 1 <= Among(classes, Sse, n)
    ensures InRegistersFrom(s, e, classes, mem, k, n)
  {
    hide Load, Among;
    assert NextInt(s1) == NextInt(s) && s1.f == s.f + 1;
    assert e.rf[s.f] == Load(mem, 8 * k, 8);
  }

  /** The aggregate by its bytes at the stack depth, padded to whole eightbytes; no register touched. */
  predicate OnStackWhole(s: Caller, e: Caller, size: nat, mem: seq<byte>)
    requires s.Valid() && e.Valid() && size <= |mem|
  {
    && |e.vec.mem| == |s.vec.mem| && e.ri == s.ri && e.rf == s.rf && e.i == s.i && e.f == s.f && e.ret == s.ret
    && (s.vec.size + size <= |s.vec.mem| ==>
          && e.vec.size == s.vec.size + (size + 7) / 8 * 8
          && e.vec.mem[s.vec.size..s.vec.size + size] == mem[..size]
          && e.vec.mem[..s.vec.size] == s.vec.mem[..s.vec.size])
  }

  /**
    Placement of an aggregate: if its class is not MEMORY and its INTEGER and SSE eightbytes fit
    the registers left of 6 and 8, each eightbyte is in the next register of its file;
    otherwise the aggregate is on the stack. Either way this is the whole change of state.
   */
  lemma AggrPlacement(s: Caller, ag: SysvAggr, mem: seq<byte>)
    requires s.Valid() && s.ret in {-1, 0} && WellFormed(ag) && ag.size <= |mem|
    ensures var n := (ag.size + 7) / 8;
            var e := PushAggr(s, ag, mem);
            if ag.classes[0] != Memory && s.i + Among(ag.classes, Integer, n) <= 6
               && s.f + Among(ag.classes, Sse, n) <= 8
            then n <= 2 && InRegistersFrom(s, e, ag.classes, mem, 0, n)
            else OnStackWhole(s, e, ag.size, mem)
  {
    if ag.classes[0] != Memory {
      var n := Eightbytes(ag.size);
      ClassesEnd(ag);
      CountIsAmong(ag.classes, Integer);
      CountIsAmong(ag.classes, Sse);
      BothCounts(ag.classes, n);
      if s.i + Among(ag.classes, Integer, n) <= 6 && s.f + Among(ag.classes, Sse, n) <= 8 {
        HiddenFits(s, ag.classes, n);
        EightbytesPlaced(s, ag.classes, mem, 0, n);
      } else {
        WholeOnStack(s, ag, mem);
      }
    } else {
      WholeOnStack(s, ag, mem);
    }
  }

  lemma ClassesEnd(ag: SysvAggr)
    requires WellFormed(ag) && ag.classes[0] != Memory
    ensures FirstNone(ag.classes) == Eightbytes(ag.size) <= 2
  {
    var m := FirstNone(ag.classes);
    assert m < |ag.classes| ==> ag.classes[m] == NoClass;
  }

  lemma {:induction false} BothCounts(classes: seq<Class>, n: nat)
    requires n <= |classes|
    ensures Among(classes, Integer, n) + Among(classes, Sse, n) <= n
  {
    if n > 0 {
      BothCounts(classes, n - 1);
    }
  }

  /** The register of the hidden pointer is skipped only where the registers are all free. */
  lemma HiddenFits(s: Caller, classes: seq<Class>, n: nat)
    requires s.ret in {-1, 0} && n <= 2 <= |classes| && s.i + Among(classes, Integer, n) <= 6
    ensures NextInt(s) + Among(classes, Integer, n) <= 6
  {
  }

  lemma WholeOnStack(s: Caller, ag: SysvAggr, mem: seq<byte>)
    requires s.Valid() && WellFormed(ag) && ag.size <= |mem| && OnStack(ag, s.i, s.f)
    ensures OnStackWhole(s, PushAggr(s, ag, mem), ag.size, mem)
  {
    hide WellFormed, OnStack;
    var v := s.vec.Append(mem[..ag.size]);
    if s.vec.size + ag.size <= |s.vec.mem| {
      assert v.mem[s.vec.size..s.vec.size + ag.size] == mem[..ag.size];
    }
  }

  /** What is in registers at one point of a list is there at the call. */
  lemma StaysToTheCall(e: Caller, rest: seq<Arg>, hidden: Eightbyte)
    requires e.Valid() && e.ret in {-1, 0} && forall a :: a in rest ==> ValidArg(a)
    ensures PushAll(e, rest).ret == e.ret
    ensures var img := AtCall(PushAll(e, rest), hidden);
            && (forall x :: 0 <= x < e.i && x < 6 && x != e.ret ==> img.ri[x] == e.ri[x])
            && (forall x :: 0 <= x < e.f && x < 8 ==> img.rf[x] == e.rf[x])
            && SameBelow(e.vec.mem, img.stack, e.vec.size)
  {
    HiddenSlotUntouched(e, rest);
    var end := PushAll(e, rest);
    assert Holds(end, AtCall(end, hidden));
    PushAllKeeps(e, rest, AtCall(end, hidden));
  }
}
