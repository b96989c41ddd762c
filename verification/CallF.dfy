/**
  Formatted calls (dyncall_callf.c). For a function returning an aggregate, dcVCallF walks the
  signature twice over the same variadic values: once to find the description and the buffer
  of the result, which follow the arguments, and once to bind the arguments.
 */
module CallF {
  /** A value fetched with va_arg. */
  type Va = int

  /** What is done to the call VM. `Mode` is dcMode, or nothing for a character without a mode. */
  datatype Event =
    | Mode(c: char)
    | Bind(typ: char, v: Va)
    | BindAggr(ag: Va, x: Va)
    | BeginCallAggr(ag: Va)

  /** The variadic values one type character stands for. */
  function Width(ch: char): (n: nat)
    ensures n <= 2
  {
    if ch in "BcCsSiIjJlLfdpZ" then 1 else if ch == 'A' then 2 else 0
  }

  /** handle_mode on the character behind '_': a mode that ends the string is not taken. */
  function HandleMode(sig: string, p: nat): (r: nat)
    ensures p <= r <= p + 1 && (p <= |sig| ==> r <= |sig|)
  {
    if p + 1 < |sig| then p + 1 else p
  }

  function ModeEvent(sig: string, p: nat): seq<Event> {
    if p + 1 < |sig| then [Mode(sig[p])] else []
  }

  function Fetch(va: seq<Va>, i: nat): Va {
    if i < |va| then va[i] else 0
  }

  // --- the scan that binds arguments: dcArgF_impl ------------------------------------------

  datatype Scan = Scan(p: nat, i: nat, events: seq<Event>)

  function BindEvent(ch: char, va: seq<Va>, i: nat): seq<Event> {
    match Width(ch)
    case 0 => []
    case 1 => [Bind(ch, Fetch(va, i))]
    case _ => [BindAggr(Fetch(va, i), Fetch(va, i + 1))]
  }

  function ArgScan(sig: string, va: seq<Va>, s: Scan): Scan
    requires s.p <= |sig|
    decreases |sig| - s.p
  {
    if s.p == |sig| then s
    else if sig[s.p] == ')' then s.(p := s.p + 1)
    else if sig[s.p] == '_' then
      ArgScan(sig, va, Scan(HandleMode(sig, s.p + 1), s.i, s.events + ModeEvent(sig, s.p + 1)))
    else
      ArgScan(sig, va, Scan(s.p + 1, s.i + Width(sig[s.p]), s.events + BindEvent(sig[s.p], va, s.i)))
  }

  method ArgF(sig: string, va: seq<Va>) returns (s: Scan)
    ensures s == ArgScan(sig, va, Scan(0, 0, []))
  {
    var p: nat, i: nat, events := 0, 0, [];
    while p < |sig|
      invariant p <= |sig|
      invariant ArgScan(sig, va, Scan(p, i, events)) == ArgScan(sig, va, Scan(0, 0, []))
      decreases |sig| - p
    {
      var ch := sig[p];
      if ch == ')' {
        return Scan(p + 1, i, events);
      }
      if ch == '_' {
        events := events + ModeEvent(sig, p + 1);
        p := HandleMode(sig, p + 1);
      } else {
        events := events + BindEvent(ch, va, i);
        i := i + Width(ch);
        p := p + 1;
      }
    }
    return Scan(p, i, events);
  }

  // --- the scan that looks for the result ---------------------------------------------------

  /** `ret` and `result` are what the last 'A' seen fetched. */
  datatype PreScan = PreScan(p: nat, i: nat, events: seq<Event>, ret: Va, result: Va)

  function ResultScan(sig: string, va: seq<Va>, s: PreScan): PreScan
    requires s.p <= |sig|
    decreases |sig| - s.p
  {
    if s.p == |sig| then s else
    var ch := sig[s.p];
    if ch == '_' then
      ResultScan(sig, va, s.(p := HandleMode(sig, s.p + 1), events := s.events + ModeEvent(sig, s.p + 1)))
    else if ch == 'A' then
      ResultScan(sig, va, s.(p := s.p + 1, i := s.i + 2, ret := Fetch(va, s.i), result := Fetch(va, s.i + 1)))
    else
      ResultScan(sig, va, s.(p := s.p + 1, i := s.i + Width(ch)))
  }

  const NOTHING := PreScan(0, 0, [], 0, 0)

  method FindResult(sig: string, va: seq<Va>) returns (s: PreScan)
    ensures s == ResultScan(sig, va, NOTHING)
  {
    s := NOTHING;
    while s.p < |sig|
      invariant s.p <= |sig|
      invariant ResultScan(sig, va, s) == ResultScan(sig, va, NOTHING)
      decreases |sig| - s.p
    {
      var ch := sig[s.p];
      if ch == '_' {
        s := s.(p := HandleMode(sig, s.p + 1), events := s.events + ModeEvent(sig, s.p + 1));
      } else if ch == 'A' {
        s := s.(p := s.p + 1, i := s.i + 2, ret := Fetch(va, s.i), result := Fetch(va, s.i + 1));
      } else {
        s := s.(p := s.p + 1, i := s.i + Width(ch));
      }
    }
  }

  // --- signatures as lists of items ---------------------------------------------------------

  /** A mode prefix, whatever its mode character, or a type character. */
  datatype Item = ModeItem(c: char) | TypeItem(typ: char)

  predicate ValidItems(items: seq<Item>) {
    forall x :: x in items && x.TypeItem? ==> x.typ != '_' && x.typ != ')'
  }

  function Render(items: seq<Item>): string {
    if items == [] then "" else
    (match items[0] case ModeItem(c) => ['_', c] case TypeItem(ch) => [ch]) + Render(items[1..])
  }

  function Values(items: seq<Item>): nat {
    if items == [] then 0 else (if items[0].TypeItem? then Width(items[0].typ) else 0) + Values(items[1..])
  }

  /** What the items mean: modes set and values bound in order, from value `i` on. */
  function Meaning(items: seq<Item>, va: seq<Va>, i: nat): seq<Event> {
    if items == [] then [] else
    match items[0]
    case ModeItem(c) => [Mode(c)] + Meaning(items[1..], va, i)
    case TypeItem(ch) => BindEvent(ch, va, i) + Meaning(items[1..], va, i + Width(ch))
  }

  function Modes(items: seq<Item>): seq<Event> {
    if items == [] then [] else (if items[0].ModeItem? then [Mode(items[0].c)] else []) + Modes(items[1..])
  }

  function ItemLength(x: Item): nat {
    if x.ModeItem? then 2 else 1
  }

  /** `items` and then `rest` remain to be read from position `p` on. */
  predicate Remain(sig: string, p: nat, items: seq<Item>, rest: string) {
    p <= |sig| && sig[p..] == Render(items) + rest
  }

  lemma NextItem(sig: string, p: nat, items: seq<Item>, rest: string)
    requires Remain(sig, p, items, rest) && items != []
    ensures var n := ItemLength(items[0]);
            && p + n + |rest| <= |sig| && Remain(sig, p + n, items[1..], rest)
            && sig[p] == (if items[0].ModeItem? then '_' else items[0].typ)
            && (items[0].ModeItem? ==> sig[p + 1] == items[0].c)
  {
    var n := ItemLength(items[0]);
    assert |Render(items)| == n + |Render(items[1..])|;
    assert sig[p..][n..] == sig[p + n..];
    assert sig[p..][0] == sig[p];
    assert items[0].ModeItem? ==> sig[p..][1] == sig[p + 1];
  }

  lemma Regroup(a: seq<Event>, b: seq<Event>, c: seq<Event>)
    ensures a + b + c == a + (b + c)
  {
  }

  lemma {:induction false} ArgScanReads(sig: string, items: seq<Item>, rest: string, va: seq<Va>, s: Scan)
    requires ValidItems(items) && rest != "" && rest[0] == ')' && Remain(sig, s.p, items, rest)
    ensures ArgScan(sig, va, s)
         == Scan(s.p + |Render(items)| + 1, s.i + Values(items), s.events + Meaning(items, va, s.i))
    decreases |items|
  {
    hide Remain, BindEvent, Width, ArgScan, ItemLength;
    if items == [] {
      RemainEmpty(sig, s.p, rest);
      ArgStop(sig, va, s);
      assert s.events + [] == s.events;
    } else {
      var x := items[0];
      assert x in items;
      NextItem(sig, s.p, items, rest);
      RenderLength(items);
      var s1 := ArgStep(sig, va, s, x);
      ArgScanReads(sig, items[1..], rest, va, s1);
      Regroup(s.events, if x.ModeItem? then [Mode(x.c)] else BindEvent(x.typ, va, s.i), Meaning(items[1..], va, s1.i));
    }
  }

  lemma RenderLength(items: seq<Item>)
    requires items != []
    ensures |Render(items)| == ItemLength(items[0]) + |Render(items[1..])|
  {
  }

  lemma ArgStop(sig: string, va: seq<Va>, s: Scan)
    requires s.p < |sig| && sig[s.p] == ')'
    ensures ArgScan(sig, va, s) == Scan(s.p + 1, s.i, s.events)
  {
  }

  lemma ArgStep(sig: string, va: seq<Va>, s: Scan, x: Item) returns (s1: Scan)
    requires s.p + ItemLength(x) < |sig|
    requires if x.ModeItem? then sig[s.p] == '_' && sig[s.p + 1] == x.c
             else sig[s.p] == x.typ && x.typ != '_' && x.typ != ')'
    ensures s1.p == s.p + ItemLength(x) && ArgScan(sig, va, s) == ArgScan(sig, va, s1)
    ensures s1.i == if x.ModeItem? then s.i else s.i + Width(x.typ)
    ensures s1.events == s.events + if x.ModeItem? then [Mode(x.c)] else BindEvent(x.typ, va, s.i)
  {
    hide BindEvent, Width;
    s1 := if x.ModeItem? then Scan(s.p + 2, s.i, s.events + [Mode(x.c)])
          else Scan(s.p + 1, s.i + Width(x.typ), s.events + BindEvent(x.typ, va, s.i));
  }

  lemma RemainEmpty(sig: string, p: nat, rest: string)
    requires Remain(sig, p, [], rest) && rest != ""
    ensures p < |sig| && sig[p] == rest[0]
  {
    assert sig[p..] == rest;
  }

  /** The pre-scan over the items: it counts the same values and meets the same modes. */
  lemma {:induction false} ResultScanReads(sig: string, items: seq<Item>, rest: string, va: seq<Va>, s: PreScan)
      returns (r: PreScan)
    requires ValidItems(items) && rest != "" && Remain(sig, s.p, items, rest)
    ensures r.p == s.p + |Render(items)| <= |sig| && r.i == s.i + Values(items) && r.events == s.events + Modes(items)
    ensures ResultScan(sig, va, s) == ResultScan(sig, va, r)
    decreases |items|
  {
    hide Remain;
    if items == [] {
      RemainEmpty(sig, s.p, rest);
      r := s;
      assert s.events + [] == s.events;
    } else {
      var x := items[0];
      assert x in items;
      NextItem(sig, s.p, items, rest);
      var e := if x.ModeItem? then [Mode(x.c)] else [];
      var s1 := ResultStep(sig, va, s, x);
      r := ResultScanReads(sig, items[1..], rest, va, s1);
      Regroup(s.events, e, Modes(items[1..]));
    }
  }

  lemma ResultStep(sig: string, va: seq<Va>, s: PreScan, x: Item) returns (s1: PreScan)
    requires s.p + ItemLength(x) < |sig|
    requires if x.ModeItem? then sig[s.p] == '_' && sig[s.p + 1] == x.c else sig[s.p] == x.typ && x.typ != '_'
    ensures s1.p == s.p + ItemLength(x) && ResultScan(sig, va, s) == ResultScan(sig, va, s1)
    ensures s1.i == (if x.ModeItem? then s.i else s.i + Width(x.typ))
    ensures s1.events == s.events + if x.ModeItem? then [Mode(x.c)] else []
  {
    if x.ModeItem? {
      s1 := s.(p := s.p + 2, events := s.events + [Mode(x.c)]);
    } else {
      assert s.events + [] == s.events;
      s1 := if x.typ == 'A' then s.(p := s.p + 1, i := s.i + 2, ret := Fetch(va, s.i), result := Fetch(va, s.i + 1))
            else s.(p := s.p + 1, i := s.i + Width(x.typ));
    }
  }

  /**
    The two scans agree: for every list of modes and arguments, aggregates included, followed
    by an aggregate result, the pre-scan ends with the two values right behind those that the
    main scan binds, and the main scan stops at the result type having bound all the others.
   */
  lemma ScansAgree(items: seq<Item>, va: seq<Va>)
    requires ValidItems(items)
    ensures var sig := Render(items) + ")A";
            var main := ArgScan(sig, va, Scan(0, 0, []));
            var pre := ResultScan(sig, va, NOTHING);
            && main == Scan(|sig| - 1, Values(items), Meaning(items, va, 0))
            && pre.ret == Fetch(va, main.i) && pre.result == Fetch(va, main.i + 1)
            && pre.i == main.i + 2 && pre.events == Modes(items)
  {
    hide Width, BindEvent;
    var sig := Render(items) + ")A";
    assert Remain(sig, 0, items, ")A");
    ArgScanReads(sig, items, ")A", va, Scan(0, 0, []));
    var r := ResultScanReads(sig, items, ")A", va, NOTHING);
    ResultTail(sig, va, r);
    Regroup([], Meaning(items, va, 0), []);
    Regroup([], Modes(items), []);
  }

  /** Behind the items: ')' is passed over and the final 'A' fetches the result. */
  lemma ResultTail(sig: string, va: seq<Va>, r: PreScan)
    requires r.p + 2 == |sig| && sig[r.p] == ')' && sig[r.p + 1] == 'A'
    ensures ResultScan(sig, va, r) == PreScan(|sig|, r.i + 2, r.events, Fetch(va, r.i), Fetch(va, r.i + 1))
  {
    assert Width(')') == 0;
    var e := PreScan(|sig|, r.i + 2, r.events, Fetch(va, r.i), Fetch(va, r.i + 1));
    assert ResultScan(sig, va, r.(p := r.p + 1)) == ResultScan(sig, va, e);
    assert ResultScan(sig, va, r) == ResultScan(sig, va, r.(p := r.p + 1));
  }

  /**
    dcVCallF up to the call: the events at the call VM, and for an aggregate result its
    description and buffer.
   */
  method VCallF(sig: string, va: seq<Va>) returns (events: seq<Event>, ret: Va, result: Va, resultType: nat)
    ensures forall items :: ValidItems(items) && sig == Render(items) + ")A" ==>
              && events == Modes(items) + [BeginCallAggr(Fetch(va, Values(items)))] + Meaning(items, va, 0)
              && ret == Fetch(va, Values(items)) && result == Fetch(va, Values(items) + 1)
              && resultType == |sig| - 1
    ensures forall items, ch :: ValidItems(items) && ch != 'A' && sig == Render(items) + [')', ch] ==>
              events == Meaning(items, va, 0) && resultType == |sig| - 1
  {
    events, ret, result := [], 0, 0;
    if sig != "" && sig[|sig| - 1] == 'A' {
      var pre := FindResult(sig, va);
      ret, result := pre.ret, pre.result;
      events := pre.events + [BeginCallAggr(ret)];
    }
    var main := ArgF(sig, va);
    events := events + main.events;
    resultType := main.p;
    forall items | ValidItems(items) && sig == Render(items) + ")A"
      ensures main == Scan(|sig| - 1, Values(items), Meaning(items, va, 0))
      ensures ret == Fetch(va, main.i) && result == Fetch(va, main.i + 1)
      ensures events == Modes(items) + [BeginCallAggr(ret)] + Meaning(items, va, 0)
    {
      ScansAgree(items, va);
    }
    forall items, ch | ValidItems(items) && ch != 'A' && sig == Render(items) + [')', ch]
      ensures main == Scan(|sig| - 1, Values(items), Meaning(items, va, 0)) && events == main.events
    {
      ScalarResult(items, ch, va);
    }
  }

  /** Before any other result type the arguments are bound alike. */
  lemma ScalarResult(items: seq<Item>, ch: char, va: seq<Va>)
    requires ValidItems(items)
    ensures var sig := Render(items) + [')', ch];
            ArgScan(sig, va, Scan(0, 0, [])) == Scan(|sig| - 1, Values(items), Meaning(items, va, 0))
  {
    hide Width, BindEvent;
    var sig := Render(items) + [')', ch];
    assert Remain(sig, 0, items, [')', ch]);
    ArgScanReads(sig, items, [')', ch], va, Scan(0, 0, []));
    Regroup([], Meaning(items, va, 0), []);
  }

  // --- what is bound, by position -----------------------------------------------------------

  /** The variadic values an item takes: one for a scalar, two for an aggregate. */
  function Takes(x: Item): nat {
    if x.ModeItem? then 0
    else if x.typ == 'A' then 2
    else if x.typ in "BcCsSiIjJlLfdpZ" then 1
    else 0
  }

  /** The events an item causes. */
  function Causes(x: Item): nat {
    if x.ModeItem? || x.typ == 'A' || x.typ in "BcCsSiIjJlLfdpZ" then 1 else 0
  }

  function Taken(items: seq<Item>, n: nat): nat
    requires n <= |items|
  {
    if n == 0 then 0 else Taken(items, n - 1) + Takes(items[n - 1])
  }

  function Caused(items: seq<Item>, n: nat): nat
    requires n <= |items|
  {
    if n == 0 then 0 else Caused(items, n - 1) + Causes(items[n - 1])
  }

  lemma {:induction false} CountsOfTail(items: seq<Item>, n: nat)
    requires 0 < n <= |items|
    ensures Taken(items, n) == Takes(items[0]) + Taken(items[1..], n - 1)
    ensures Caused(items, n) == Causes(items[0]) + Caused(items[1..], n - 1)
  {
    if n > 1 {
      CountsOfTail(items, n - 1);
    }
  }

  lemma {:induction false} CountsGrow(items: seq<Item>, m: nat, n: nat)
    requires m <= n <= |items|
    ensures Taken(items, m) <= Taken(items, n) && Caused(items, m) <= Caused(items, n)
    decreases n
  {
    if m < n {
      CountsGrow(items, m, n - 1);
    }
  }

  /** What item `x` must have caused, as event number `e`, from value number `m` on. */
  predicate IsBound(x: Item, events: seq<Event>, e: nat, va: seq<Va>, m: nat) {
    match x
    case ModeItem(c) => e < |events| && events[e] == Mode(c)
    case TypeItem(ch) =>
      if ch == 'A' then e < |events| && m + 1 < |va| && events[e] == BindAggr(va[m], va[m + 1])
      else if ch in "BcCsSiIjJlLfdpZ" then e < |events| && m < |va| && events[e] == Bind(ch, va[m])
      else true
  }

  /** The events of the first item. */
  function Head(x: Item, va: seq<Va>, i: nat): seq<Event> {
    if x.ModeItem? then [Mode(x.c)] else BindEvent(x.typ, va, i)
  }

  lemma HeadAndTail(items: seq<Item>, va: seq<Va>, i: nat)
    requires items != []
    ensures Meaning(items, va, i) == Head(items[0], va, i) + Meaning(items[1..], va, i + Takes(items[0]))
    ensures |Head(items[0], va, i)| == Causes(items[0])
    ensures Values(items) == Takes(items[0]) + Values(items[1..])
  {
  }

  /** As many events as items that cause one, and as many values as they take. */
  lemma {:induction false} MeaningLength(items: seq<Item>, va: seq<Va>, i: nat)
    ensures |Meaning(items, va, i)| == Caused(items, |items|)
    ensures Values(items) == Taken(items, |items|)
    decreases |items|
  {
    hide Meaning, Values, Takes, Causes, Head, Taken, Caused;
    if items == [] {
      NothingAtAll(items, va, i);
    } else {
      HeadAndTail(items, va, i);
      CountsOfTail(items, |items|);
      MeaningLength(items[1..], va, i + Takes(items[0]));
    }
  }

  lemma NothingAtAll(items: seq<Item>, va: seq<Va>, i: nat)
    requires items == []
    ensures |Meaning(items, va, i)| == Caused(items, 0) && Values(items) == Taken(items, 0)
  {
  }

  /**
    The k-th item binds the values right behind those its predecessors took, a description
    before its data, and nothing else is bound.
   */
  lemma MeaningByPosition(items: seq<Item>, va: seq<Va>, i: nat, k: nat)
    requires k < |items| && i + Taken(items, |items|) <= |va|
    ensures |Meaning(items, va, i)| == Caused(items, |items|)
    ensures IsBound(items[k], Meaning(items, va, i), Caused(items, k), va, i + Taken(items, k))
    ensures Values(items) == Taken(items, |items|)
  {
    hide *;
    MeaningLength(items, va, i);
    ItemIsBound(items, va, i, k);
  }

  lemma {:induction false} ItemIsBound(items: seq<Item>, va: seq<Va>, i: nat, k: nat)
    requires k < |items| && i + Taken(items, |items|) <= |va|
    ensures IsBound(items[k], Meaning(items, va, i), Caused(items, k), va, i + Taken(items, k))
    decreases k
  {
    hide *;
    var x, rest := items[0], items[1..];
    var j, head := i + Takes(x), Head(x, va, i);
    HeadAndTail(items, va, i);
    CountsOfTail(items, |items|);
    if k == 0 {
      FirstIsBound(items, va, i);
      KeptInFront(x, head, Meaning(rest, va, j), va, i);
      NothingBefore(items);
    } else {
      ItemIsBound(rest, va, j, k - 1);
      CountsOfTail(items, k);
      Shifted(rest[k - 1], head, Meaning(rest, va, j), Caused(rest, k - 1), va, j + Taken(rest, k - 1));
    }
  }

  lemma NothingBefore(items: seq<Item>)
    ensures Taken(items, 0) == 0 && Caused(items, 0) == 0
  {
  }

  lemma FirstIsBound(items: seq<Item>, va: seq<Va>, i: nat)
    requires items != [] && i + Taken(items, |items|) <= |va|
    ensures IsBound(items[0], Head(items[0], va, i), 0, va, i)
  {
    CountsGrow(items, 1, |items|);
    assert Taken(items, 0) == 0 && Taken(items, 1) == Takes(items[0]);
  }

  lemma KeptInFront(x: Item, head: seq<Event>, tail: seq<Event>, va: seq<Va>, m: nat)
    requires IsBound(x, head, 0, va, m)
    ensures IsBound(x, head + tail, 0, va, m)
  {
  }

  lemma Shifted(x: Item, head: seq<Event>, tail: seq<Event>, e: nat, va: seq<Va>, m: nat)
    requires IsBound(x, tail, e, va, m)
    ensures IsBound(x, head + tail, |head| + e, va, m)
  {
    assert e < |tail| ==> (head + tail)[|head| + e] == tail[e];
  }

  /** The scan of a written-out signature binds each value to its item, by position. */
  lemma BoundByPosition(items: seq<Item>, rest: string, va: seq<Va>, k: nat)
    requires ValidItems(items) && k < |items| && rest != "" && rest[0] == ')'
    requires Taken(items, |items|) <= |va|
    ensures var s := ArgScan(Render(items) + rest, va, Scan(0, 0, []));
            && s.i == Taken(items, |items|) && |s.events| == Caused(items, |items|)
            && IsBound(items[k], s.events, Caused(items, k), va, Taken(items, k))
  {
    hide IsBound, Meaning, Taken, Caused, ArgScan, Render;
    var sig := Render(items) + rest;
    assert Remain(sig, 0, items, rest);
    ArgScanReads(sig, items, rest, va, Scan(0, 0, []));
    var events := Meaning(items, va, 0);
    assert [] + events == events && 0 + Taken(items, k) == Taken(items, k);
    MeaningByPosition(items, va, 0, k);
  }

  /** A mode character that ends the signature is not taken for a mode, but for a type. */
  lemma TrailingMode(ch: char, va: seq<Va>)
    requires ch != '_' && ch != ')' && Takes(TypeItem(ch)) <= |va|
    ensures var s := ArgScan(['_', ch], va, Scan(0, 0, []));
            && s.p == 2 && s.i == Takes(TypeItem(ch)) && |s.events| == Causes(TypeItem(ch))
            && IsBound(TypeItem(ch), s.events, 0, va, 0)
  {
    var sig, events := ['_', ch], BindEvent(ch, va, 0);
    assert [] + [] + events == events;
    assert ArgScan(sig, va, Scan(2, Width(ch), [] + [] + events)) == Scan(2, Width(ch), events);
    assert ArgScan(sig, va, Scan(1, 0, [] + [])) == Scan(2, Width(ch), events);
  }
}
