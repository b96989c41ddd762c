/**
  The recursive classifier computes the flat ABI class: the proof goes through the join of
  the weights of all nodes, which concatenates over fields and array elements.
 */
module FlatProof {
  import opened Alignment
  import opened Aggregate
  import opened Classify
  import opened Windows
  import opened FlatAbi

  /** The classifier's test of a field against the eightbyte, and what it makes of the node. */
  function Weight(n: Node, q: nat): Class {
    if n.off < q + 8 && q < n.off + n.extent then Verdict(n) else NoClass
  }

  function Join(nodes: seq<Node>, q: nat): Class {
    if nodes == [] then NoClass
    else Merge(Join(nodes[..|nodes| - 1], q), Weight(nodes[|nodes| - 1], q))
  }

  /** dc_merge_sysv_classes is the larger class in the order NONE < SSE < INTEGER < MEMORY. */
  lemma MergeIsMaximum(a: Class, b: Class)
    ensures Rank(Merge(a, b)) == if Rank(a) < Rank(b) then Rank(b) else Rank(a)
    ensures Merge(a, b) == a || Merge(a, b) == b
  {
  }

  lemma {:induction false} JoinConcat(a: seq<Node>, b: seq<Node>, q: nat)
    ensures Join(a + b, q) == Merge(Join(a, q), Join(b, q))
  {
    if b == [] {
      assert a + b == a;
    } else {
      var b' := b[..|b| - 1];
      assert (a + b)[..|a + b| - 1] == a + b';
      JoinConcat(a, b', q);
    }
  }

  lemma {:induction false} JoinIsUpperBound(nodes: seq<Node>, q: nat)
    ensures forall n :: n in nodes ==> Rank(Weight(n, q)) <= Rank(Join(nodes, q))
    ensures Join(nodes, q) == NoClass || exists n :: n in nodes && Weight(n, q) == Join(nodes, q)
  {
    if nodes != [] {
      var front, last := nodes[..|nodes| - 1], nodes[|nodes| - 1];
      JoinIsUpperBound(front, q);
      assert nodes == front + [last];
      assert last in nodes;
      assert forall n :: n in nodes ==> n in front || n == last;
      if Join(nodes, q) != NoClass && Join(nodes, q) != Weight(last, q) {
        var n :| n in front && Weight(n, q) == Join(front, q);
        assert n in nodes;
      }
    }
  }

  /** The classes a node can carry. */
  predicate Leafy(nodes: seq<Node>) {
    forall n :: n in nodes ==> n.cls != Memory
  }

  /** The join is the ABI class exactly when nodes without bytes do not raise it; it is never less. */
  lemma JoinIsAbiClass(nodes: seq<Node>, q: nat)
    requires Leafy(nodes)
    ensures Join(nodes, q) == AbiClass(nodes, q) <==> EmptyNodesAddNothing(nodes, q)
    ensures Rank(AbiClass(nodes, q)) <= Rank(Join(nodes, q))
  {
    JoinIsUpperBound(nodes, q);
    forall n | n in nodes && !Overlaps(n, q) && !IsEmptyInside(n, q) ensures Weight(n, q) == NoClass {
    }
    forall n | n in nodes && IsEmptyInside(n, q) ensures Weight(n, q) == Verdict(n) {
    }
  }

  /** Every node carries a leaf class and lies inside the aggregate. */
  predicate Inside(nodes: seq<Node>, lo: nat, hi: nat) {
    forall n :: n in nodes ==> lo <= n.off && n.off + n.extent <= hi && n.cls != Memory
  }

  lemma {:induction false} NodesInside(ag: Aggr, base: nat)
    requires WellNested(ag)
    ensures Inside(NodesOf(ag, base), base, base + ag.size)
    decreases ag, 1, 0
  {
    FieldNodesInside(ag, |ag.fields|, base);
  }

  lemma {:induction false} FieldNodesInside(ag: Aggr, n: nat, base: nat)
    requires WellNested(ag) && n <= |ag.fields|
    ensures Inside(NodesOfFields(ag, n, base), base, base + ag.size)
    decreases ag, 0, n
  {
    if n > 0 {
      FieldNodesInside(ag, n - 1, base);
      var f := ag.fields[n - 1];
      assert f in ag.fields;
      if f.sub.Some? && f.size != 0 {
        ElementNodesInside(f.sub.value, base + f.offset, f.size, f.arrayLen);
      }
    }
  }

  lemma {:induction false} ElementNodesInside(sub: Aggr, offset: nat, size: nat, count: nat)
    requires WellNested(sub) && size == sub.size
    ensures Inside(NodesOfElements(sub, offset, size, count), offset, offset + size * count)
    decreases sub, 2, count
  {
    if count > 0 {
      ElementNodesInside(sub, offset, size, count - 1);
      NodesInside(sub, offset + size * (count - 1));
      assert size * count == size * (count - 1) + size;
    }
  }

  lemma {:induction false} OutsideJoinsToNone(nodes: seq<Node>, lo: nat, hi: nat, q: nat)
    requires Inside(nodes, lo, hi) && (lo >= q + 8 || hi <= q)
    ensures Join(nodes, q) == NoClass
  {
    JoinIsUpperBound(nodes, q);
  }

  // --- an aggregate at another place --------------------------------------------------------

  /**
    Wherever the classifier looks at an aggregate, if only its alignment is kept it sees no more
    than there is in a copy of it that lies inside the eightbyte.
   */
  lemma {:induction false} ClassBounded(rule: WindowRule, ag: Aggr, q: nat, base: int, b: nat)
    requires Built(ag) && WellNested(ag) && Described(ag)
    requires q <= b && b + ag.size <= q + 8 && OnBoundary(base - b, ag.alignment)
    ensures Rank(ClassOf(rule, ag, q, base)) <= Rank(Join(NodesOf(ag, b), q))
    decreases ag, 2, 0
  {
    FieldsBounded(rule, ag, |ag.fields|, q, base, b);
  }

  lemma {:induction false} FieldsBounded(rule: WindowRule, ag: Aggr, n: nat, q: nat, base: int, b: nat)
    requires Built(ag) && WellNested(ag) && Described(ag) && n <= |ag.fields|
    requires q <= b && b + ag.size <= q + 8 && OnBoundary(base - b, ag.alignment)
    ensures Rank(ClassOfFields(rule, ag, n, q, base)) <= Rank(Join(NodesOfFields(ag, n, b), q))
    decreases ag, 1, n
  {
    hide ClassOfField, NodesOfField, OnBoundary, BuiltField, WellNestedField, Join, Merge;
    NoElements(q);
    if n > 0 {
      FieldsBounded(rule, ag, n - 1, q, base, b);
      var f := ag.fields[n - 1];
      assert f in ag.fields;
      FieldAlignment(f);
      BoundaryWeakens(base - b, f.alignment, ag.alignment);
      FieldBounded(rule, f, q, base, b);
      JoinConcat(NodesOfFields(ag, n - 1, b), NodesOfField(f, b), q);
      MergeIsMaximum(Join(NodesOfFields(ag, n - 1, b), q), Join(NodesOfField(f, b), q));
      MergeIsMaximum(ClassOfFields(rule, ag, n - 1, q, base), ClassOfField(rule, f, q, base));
    } else {
      assert ClassOfFields(rule, ag, 0, q, base) == NoClass;
    }
  }

  lemma FieldAlignment(f: Field)
    requires BuiltField(f)
    ensures IsAlignment(f.alignment)
    ensures f.sub.Some? ==> f.alignment == f.sub.value.alignment && f.size == f.sub.value.size
  {
  }

  /** An aggregate of size zero holds nothing but aggregates of size zero. */
  lemma {:induction false} EmptyHasNoAlignment(ag: Aggr)
    requires Built(ag) && WellNested(ag) && Described(ag) && ag.size == 0
    ensures ag.alignment == 0
  {
    if ag.alignment != 0 {
      var f :| f in ag.fields && f.alignment == ag.alignment;
      assert BuiltField(f) && WellNestedField(f) && f.arrayLen > 0;
      ZeroExtent(f.size, f.arrayLen);
      assert f.sub.Some?;
      EmptyHasNoAlignment(f.sub.value);
    }
  }

  lemma ZeroExtent(size: nat, arrayLen: nat)
    requires arrayLen > 0
    ensures size * arrayLen == 0 <==> size == 0
  {
  }

  lemma {:induction false} FieldBounded(rule: WindowRule, f: Field, q: nat, base: int, b: nat)
    requires BuiltField(f) && WellNestedField(f) && f.arrayLen > 0
    requires f.sub.Some? ==> SizeFitsAlignment(f.sub.value) && Described(f.sub.value)
    requires q <= b && b + f.offset + f.Extent() <= q + 8 && OnBoundary(base - b, f.alignment)
    ensures Rank(ClassOfField(rule, f, q, base)) <= Rank(Join(NodesOfField(f, b), q))
    decreases f, 0, 0
  {
    hide OnBoundary, ClassOfElements, NodesOfElements, WindowOf, Built, WellNested, Described, Join;
    var offset, b1 := U64(base + f.offset), b + f.offset;
    var node := Node(b1, f.Extent(), f.alignment, LeafClass(f.typ));
    FieldAlignment(f);
    WrapKeepsBoundary(base + f.offset, b1, f.alignment, WrapCount(base + f.offset));
    assert OnBoundary(offset - b1, f.alignment);
    SameRemainder(offset, b1, f.alignment);
    assert NodesOfField(f, b)[0] == node;
    JoinIsUpperBound(NodesOfField(f, b), q);
    if f.size == 0 {
      EmptyHasNoAlignment(f.sub.value);
    } else {
      assert f.size * f.arrayLen > 0;
      assert Weight(node, q) == Verdict(node);
      if f.sub.Some? {
        var w := WindowOf(rule, q, offset, f.size, f.arrayLen);
        ElementFits8(b1, f.size, f.arrayLen, q);
        ElementsBounded(rule, f.sub.value, q, offset, f.size, w.first, w.end, b1);
        FirstElementCounts(f.sub.value, q, b1, f.size, f.arrayLen);
        SubsetJoins(NodesOfElements(f.sub.value, b1, f.size, f.arrayLen), NodesOfField(f, b), q);
      }
    }
  }

  lemma ElementFits8(b: nat, size: nat, arrayLen: nat, q: nat)
    requires arrayLen > 0 && b + size * arrayLen <= q + 8
    ensures b + size <= q + 8
  {
    MulMonotone(size, 1, arrayLen);
  }

  /** How often 2^32 has to be added to reduce `x` modulo 2^64. */
  function WrapCount(x: int): (k: int)
    ensures U64(x) == x + k * 0x1_0000_0000
  {
    -(x / 0x1_0000_0000_0000_0000) * 0x1_0000_0000
  }

  function TruncationCount(x: int): (k: int)
    ensures I32(x) == x + k * 0x1_0000_0000
  {
    -((x + 0x8000_0000) / 0x1_0000_0000)
  }

  lemma SameRemainder(x: nat, y: nat, a: nat)
    requires IsAlignment(a) && OnBoundary(x - y, a)
    ensures a != 0 ==> (x % a == 0 <==> y % a == 0)
  {
    BoundaryIsModulo(x, a);
    BoundaryIsModulo(y, a);
    if OnBoundary(x, a) {
      BoundarySum(x - y, x, a);
      BoundarySum(y - x, x, a);
    }
    if OnBoundary(y, a) {
      BoundarySum(x - y, y, a);
    }
  }

  lemma {:induction false} ElementsBounded(rule: WindowRule, sub: Aggr, q: nat, offset: nat, size: nat,
                                           first: int, end: int, b: nat)
    requires Built(sub) && WellNested(sub) && Described(sub) && SizeFitsAlignment(sub) && size == sub.size
    requires q <= b && b + size <= q + 8 && OnBoundary(offset - b, sub.alignment)
    ensures Rank(ClassOfElements(rule, sub, q, offset, size, first, end)) <= Rank(Join(NodesOf(sub, b), q))
    decreases sub, 3, end - first
  {
    hide OnBoundary, ClassOf, NodesOf, WellNested, Described, Join, Merge;
    if first < end {
      ElementsBounded(rule, sub, q, offset, size, first, end - 1, b);
      var at := offset + size * (end - 1);
      MultipleOnBoundary(size, end - 1, sub.alignment);
      BoundarySum(offset - b, size * (end - 1), sub.alignment);
      assert offset - b + size * (end - 1) == at - b;
      WrapKeepsBoundary(at, b, sub.alignment, TruncationCount(at));
      ClassBounded(rule, sub, q, I32(at), b);
      MergeIsMaximum(ClassOfElements(rule, sub, q, offset, size, first, end - 1), ClassOf(rule, sub, q, I32(at)));
    }
  }

  // --- nodes without bytes ------------------------------------------------------------------

  /** Nodes without bytes ask for nothing: they are empty aggregates. */
  predicate Solid(nodes: seq<Node>) {
    forall n :: n in nodes && n.extent == 0 ==> Verdict(n) == NoClass
  }

  /** A description as the manual asks for it has no other nodes without bytes. */
  lemma {:induction false} DescribedIsSolid(ag: Aggr, base: nat)
    requires Built(ag) && WellNested(ag) && Described(ag)
    ensures Solid(NodesOf(ag, base))
    decreases ag, 1, 0
  {
    FieldsAreSolid(ag, |ag.fields|, base);
  }

  lemma {:induction false} FieldsAreSolid(ag: Aggr, n: nat, base: nat)
    requires Built(ag) && WellNested(ag) && Described(ag) && n <= |ag.fields|
    ensures Solid(NodesOfFields(ag, n, base))
    decreases ag, 0, n
  {
    if n > 0 {
      FieldsAreSolid(ag, n - 1, base);
      var f := ag.fields[n - 1];
      assert f in ag.fields;
      FieldIsSolid(f, base);
    }
  }

  lemma {:induction false} FieldIsSolid(f: Field, base: nat)
    requires BuiltField(f) && WellNestedField(f) && f.arrayLen > 0
    requires f.sub.Some? ==> Described(f.sub.value)
    ensures Solid(NodesOfField(f, base))
    decreases f, 0, 0
  {
    ZeroExtent(f.size, f.arrayLen);
    if f.size == 0 {
      EmptyHasNoAlignment(f.sub.value);
    } else if f.sub.Some? {
      ElementsAreSolid(f.sub.value, base + f.offset, f.size, f.arrayLen);
    }
  }

  lemma {:induction false} ElementsAreSolid(sub: Aggr, offset: nat, size: nat, count: nat)
    requires Built(sub) && WellNested(sub) && Described(sub)
    ensures Solid(NodesOfElements(sub, offset, size, count))
    decreases sub, 2, count
  {
    if count > 0 {
      ElementsAreSolid(sub, offset, size, count - 1);
      DescribedIsSolid(sub, offset + size * (count - 1));
    }
  }

  lemma SolidJoinIsAbiClass(nodes: seq<Node>, q: nat)
    requires Leafy(nodes) && Solid(nodes)
    ensures Join(nodes, q) == AbiClass(nodes, q)
  {
    JoinIsAbiClass(nodes, q);
  }

  /** Nothing is asked of the commented window. */
  predicate WindowsAreExact(rule: WindowRule, ag: Aggr, q: nat, base: nat) {
    rule == CArithmetic ==> Harmless(ag, q, base)
  }

  /**
    The recursive classifier is the flat ABI definition, for every well-nested aggregate in
    the first sixteen bytes, exactly when nodes without bytes (arrays of length zero) do not
    raise the class. With the commented window there is no other condition; with the window as C
    computes it, aggregate-typed fields have to start harmlessly.
   */
  lemma {:induction false} ClassifierIsFlat(rule: WindowRule, ag: Aggr, q: nat, base: nat)
    requires q == 0 || q == 8
    requires WellNested(ag) && base + ag.size <= 16
    requires WindowsAreExact(rule, ag, q, base)
    ensures ClassOf(rule, ag, q, base) == AbiClass(NodesOf(ag, base), q)
            <==> EmptyNodesAddNothing(NodesOf(ag, base), q)
    ensures Rank(AbiClass(NodesOf(ag, base), q)) <= Rank(ClassOf(rule, ag, q, base))
  {
    AggrJoins(rule, ag, q, base);
    NodesInside(ag, base);
    JoinIsAbiClass(NodesOf(ag, base), q);
  }

  /** With arrays that have elements nothing else is needed. */
  lemma ClassifierIsAbi(rule: WindowRule, ag: Aggr, q: nat, base: nat)
    requires q == 0 || q == 8
    requires Built(ag) && WellNested(ag) && Described(ag) && base + ag.size <= 16
    requires WindowsAreExact(rule, ag, q, base)
    ensures ClassOf(rule, ag, q, base) == AbiClass(NodesOf(ag, base), q)
  {
    ClassifierIsFlat(rule, ag, q, base);
    DescribedIsSolid(ag, base);
  }

  lemma {:induction false} AggrJoins(rule: WindowRule, ag: Aggr, q: nat, base: nat)
    requires q == 0 || q == 8
    requires WellNested(ag) && base + ag.size <= 16
    requires WindowsAreExact(rule, ag, q, base)
    ensures ClassOf(rule, ag, q, base) == Join(NodesOf(ag, base), q)
    decreases ag, 2, 0
  {
    FieldsJoin(rule, ag, |ag.fields|, q, base);
  }

  lemma {:induction false} FieldsJoin(rule: WindowRule, ag: Aggr, n: nat, q: nat, base: nat)
    requires q == 0 || q == 8
    requires WellNested(ag) && base + ag.size <= 16 && n <= |ag.fields|
    requires WindowsAreExact(rule, ag, q, base)
    ensures ClassOfFields(rule, ag, n, q, base) == Join(NodesOfFields(ag, n, base), q)
    decreases ag, 1, n
  {
    hide ClassOfField, NodesOfField, WellNestedField, FieldHarmless;
    if n > 0 {
      FieldsJoin(rule, ag, n - 1, q, base);
      var f := ag.fields[n - 1];
      assert f in ag.fields;
      FieldJoins(rule, f, ag.size, q, base);
      JoinConcat(NodesOfFields(ag, n - 1, base), NodesOfField(f, base), q);
    }
  }

  lemma {:induction false} FieldJoins(rule: WindowRule, f: Field, agSize: nat, q: nat, base: nat)
    requires q == 0 || q == 8
    requires WellNestedField(f) && f.offset + f.Extent() <= agSize && base + agSize <= 16
    requires rule == CArithmetic ==> FieldHarmless(f, q, base)
    ensures ClassOfField(rule, f, q, base) == Join(NodesOfField(f, base), q)
    decreases f, 0, 1
  {
    hide ClassOfElements, NodesOfElements, WindowOf, Harmless, WellNested, Built, Described, Proper;
    var offset := base + f.offset;
    var node := Node(offset, f.Extent(), f.alignment, LeafClass(f.typ));
    assert Join([node], q) == Weight(node, q);
    assert U64(offset) == offset && U64(offset + f.Extent()) == offset + f.Extent();
    if f.sub.Some? && f.size != 0 {
      assert f.typ == 'A' && node.cls == NoClass;
      if Weight(node, q) != Memory {
        NestedFieldJoins(rule, f, q, offset);
      }
      JoinConcat([node], NodesOfElements(f.sub.value, offset, f.size, f.arrayLen), q);
    } else {
      assert NodesOfField(f, base) == [node];
    }
  }

  lemma {:induction false} NestedFieldJoins(rule: WindowRule, f: Field, q: nat, offset: nat)
    requires q == 0 || q == 8
    requires WellNestedField(f) && offset + f.Extent() <= 16 && f.sub.Some? && f.size != 0
    requires rule == CArithmetic && offset < q + 8 && q < offset + f.Extent() ==>
               && (offset <= q || (HarmlessStart(offset - q, f.size) && f.arrayLen > 0 && Proper(f.sub.value)))
               && forall e :: 0 <= e < f.arrayLen ==> Harmless(f.sub.value, q, offset + f.size * e)
    ensures var all := Join(NodesOfElements(f.sub.value, offset, f.size, f.arrayLen), q);
            var w := WindowOf(rule, q, offset, f.size, f.arrayLen);
            if offset < q + 8 && q < offset + f.Extent()
            then all == ClassOfElements(rule, f.sub.value, q, offset, f.size, w.first, w.end)
            else all == NoClass
    decreases f, 0, 0
  {
    if offset < q + 8 && q < offset + f.Extent() {
      WindowJoins(rule, f.sub.value, q, offset, f.size, f.arrayLen);
    } else {
      ElementsOutside(f.sub.value, offset, f.size, f.arrayLen, q);
    }
  }

  lemma ElementsOutside(sub: Aggr, offset: nat, size: nat, count: nat, q: nat)
    requires WellNested(sub) && size == sub.size
    requires offset >= q + 8 || offset + size * count <= q
    ensures Join(NodesOfElements(sub, offset, size, count), q) == NoClass
  {
    ElementNodesInside(sub, offset, size, count);
    OutsideJoinsToNone(NodesOfElements(sub, offset, size, count), offset, offset + size * count, q);
  }

  /** The fold over the window equals the join over the whole array. */
  lemma {:induction false} WindowJoins(rule: WindowRule, sub: Aggr, q: nat, offset: nat, size: nat, arrayLen: nat)
    requires q == 0 || q == 8
    requires WellNested(sub) && size == sub.size > 0 && offset + size * arrayLen <= 16
    requires offset < q + 8 && q < offset + size * arrayLen
    requires rule == CArithmetic ==>
               && (offset <= q || (HarmlessStart(offset - q, size) && arrayLen > 0 && Proper(sub)))
               && forall e :: 0 <= e < arrayLen ==> Harmless(sub, q, offset + size * e)
    ensures var w := WindowOf(rule, q, offset, size, arrayLen);
            ClassOfElements(rule, sub, q, offset, size, w.first, w.end)
              == Join(NodesOfElements(sub, offset, size, arrayLen), q)
    decreases sub, 4, 0
  {
    if rule == CArithmetic && offset > q {
      HarmlessWindowJoins(sub, q, offset, size, arrayLen);
      return;
    }
    if rule == CArithmetic {
      CWindowExact(q, offset, size, arrayLen);
    }
    var w := WindowOf(FromFirstElement, q, offset, size, arrayLen);
    if offset <= q {
      DivBelow(q - offset, size, arrayLen);
    }
    DivBounds(8, size);
    forall e | 0 <= e < arrayLen && ElementOverlaps(q, offset, size, e) ensures w.first <= e < w.end {
      WindowLosesNothing(q, offset, size, arrayLen, e);
    }
    ElementsJoin(rule, sub, q, offset, size, w.first, w.end, arrayLen, arrayLen);
  }

  /** A start inside the eightbyte: the window takes in elements before the first, and then the array. */
  lemma {:induction false} InsideWindowJoins(sub: Aggr, q: nat, offset: nat, size: nat, arrayLen: nat)
    requires q == 0 || q == 8
    requires WellNested(sub) && size == sub.size > 0 && arrayLen > 0 && offset + size * arrayLen <= 16
    requires q < offset < q + 8 && !LostSize(size)
    requires forall e :: 0 <= e < arrayLen ==> Harmless(sub, q, offset + size * e)
    ensures var w := WindowOf(CArithmetic, q, offset, size, arrayLen);
            && w.first < 0
            && ClassOfElements(CArithmetic, sub, q, offset, size, w.first, w.end)
               == Merge(ClassOfElements(CArithmetic, sub, q, offset, size, w.first, 0),
                        Join(NodesOfElements(sub, offset, size, arrayLen), q))
    decreases sub, 3, arrayLen + 1
  {
    hide ClassOf, ClassOfElements, NodesOf, NodesOfElements, Harmless, WellNested, Join, Merge, WindowOf;
    InsideWindow(q, offset, size, arrayLen);
    var w := WindowOf(CArithmetic, q, offset, size, arrayLen);
    ElementsJoin(CArithmetic, sub, q, offset, size, 0, w.end, arrayLen, arrayLen);
    ElementsSplit(CArithmetic, sub, q, offset, size, w.first, 0, w.end);
  }

  /** From a harmless start the elements before the first show nothing that the first does not hold. */
  lemma {:induction false} HarmlessWindowJoins(sub: Aggr, q: nat, offset: nat, size: nat, arrayLen: nat)
    requires q == 0 || q == 8
    requires Proper(sub) && size == sub.size && arrayLen > 0 && offset + size * arrayLen <= 16
    requires offset > q && HarmlessStart(offset - q, size)
    requires forall e :: 0 <= e < arrayLen ==> Harmless(sub, q, offset + size * e)
    ensures var w := WindowOf(CArithmetic, q, offset, size, arrayLen);
            ClassOfElements(CArithmetic, sub, q, offset, size, w.first, w.end)
              == Join(NodesOfElements(sub, offset, size, arrayLen), q)
    decreases sub, 3, arrayLen + 2
  {
    hide ClassOf, ClassOfElements, NodesOf, NodesOfElements, Harmless, WellNested, Built, Described, Join, Merge,
         WindowOf;
    InsideWindowJoins(sub, q, offset, size, arrayLen);
    var w := WindowOf(CArithmetic, q, offset, size, arrayLen);
    NothingMoved(offset, sub.alignment);
    ElementsBounded(CArithmetic, sub, q, offset, size, w.first, 0, offset);
    FirstElementCounts(sub, q, offset, size, arrayLen);
    MergeIsMaximum(ClassOfElements(CArithmetic, sub, q, offset, size, w.first, 0),
                   Join(NodesOfElements(sub, offset, size, arrayLen), q));
  }

  lemma NothingMoved(offset: nat, alignment: nat)
    ensures OnBoundary(offset - offset, alignment)
  {
  }

  lemma {:induction false} ElementsSplit(rule: WindowRule, sub: Aggr, q: nat, offset: nat, size: nat,
                                         first: int, mid: int, end: int)
    requires first <= mid <= end
    ensures ClassOfElements(rule, sub, q, offset, size, first, end)
         == Merge(ClassOfElements(rule, sub, q, offset, size, first, mid),
                  ClassOfElements(rule, sub, q, offset, size, mid, end))
    decreases end - mid
  {
    hide ClassOf;
    if mid < end {
      ElementsSplit(rule, sub, q, offset, size, first, mid, end - 1);
    }
  }

  lemma SubsetJoins(a: seq<Node>, b: seq<Node>, q: nat)
    requires forall n :: n in a ==> n in b
    ensures Rank(Join(a, q)) <= Rank(Join(b, q))
  {
    JoinIsUpperBound(a, q);
    JoinIsUpperBound(b, q);
  }

  lemma {:induction false} FirstElementIn(sub: Aggr, offset: nat, size: nat, count: nat)
    requires count > 0
    ensures forall n :: n in NodesOf(sub, offset) ==> n in NodesOfElements(sub, offset, size, count)
    decreases count
  {
    if count > 1 {
      FirstElementIn(sub, offset, size, count - 1);
    } else {
      assert NodesOfElements(sub, offset, size, 0) == [];
    }
  }

  lemma FirstElementCounts(sub: Aggr, q: nat, offset: nat, size: nat, count: nat)
    requires count > 0
    ensures Rank(Join(NodesOf(sub, offset), q)) <= Rank(Join(NodesOfElements(sub, offset, size, count), q))
  {
    FirstElementIn(sub, offset, size, count);
    SubsetJoins(NodesOf(sub, offset), NodesOfElements(sub, offset, size, count), q);
  }

  /** The first `count` elements, of which those in the window have been folded and the others add nothing. */
  lemma {:induction false} ElementsJoin(rule: WindowRule, sub: Aggr, q: nat, offset: nat, size: nat,
                                        first: nat, end: nat, count: nat, arrayLen: nat)
    requires q == 0 || q == 8
    requires WellNested(sub) && size == sub.size && offset + size * arrayLen <= 16
    requires first <= end <= arrayLen && count <= arrayLen
    requires rule == CArithmetic ==>
               forall e :: 0 <= e < arrayLen ==> Harmless(sub, q, offset + size * e)
    requires forall e :: 0 <= e < arrayLen && ElementOverlaps(q, offset, size, e) ==> first <= e < end
    ensures ClassOfElements(rule, sub, q, offset, size, first, if count < end then count else end)
              == Join(NodesOfElements(sub, offset, size, count), q)
    decreases sub, 3, count
  {
    hide ClassOf, NodesOf, Harmless, WellNested, Join, Merge;
    NoElements(q);
    if count > 0 {
      var e := count - 1;
      ElementsJoin(rule, sub, q, offset, size, first, end, e, arrayLen);
      var b := offset + size * e;
      ElementFits(offset, size, e, arrayLen);
      assert ElementOverlaps(q, offset, size, e) ==> first <= e < end;
      JoinConcat(NodesOfElements(sub, offset, size, e), NodesOf(sub, b), q);
      ElementJoins(rule, sub, q, b, first <= e < end);
    }
  }

  lemma NoElements(q: nat)
    ensures Join([], q) == NoClass
    ensures forall c :: Merge(c, NoClass) == c
  {
  }

  lemma ElementFits(offset: nat, size: nat, e: nat, arrayLen: nat)
    requires e < arrayLen && offset + size * arrayLen <= 16
    ensures 0 <= offset + size * e <= offset + size * e + size <= 16
  {
    MulMonotone(size, e + 1, arrayLen);
  }

  /** One element at `b`: visited, it contributes its nodes; not visited, its nodes contribute nothing. */
  lemma {:induction false} ElementJoins(rule: WindowRule, sub: Aggr, q: nat, b: nat, visited: bool)
    requires q == 0 || q == 8
    requires WellNested(sub) && b + sub.size <= 16
    requires WindowsAreExact(rule, sub, q, b)
    requires !visited ==> b >= q + 8 || b + sub.size <= q
    ensures Join(NodesOf(sub, b), q) == if visited then ClassOf(rule, sub, q, I32(b)) else NoClass
    decreases sub, 2, 1
  {
    if visited {
      AggrJoins(rule, sub, q, b);
    } else {
      NodesInside(sub, b);
      OutsideJoinsToNone(NodesOf(sub, b), b, b + sub.size, q);
    }
  }
}
