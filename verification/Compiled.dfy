/**
  What the classifier as compiled computes for any aggregate, whatever starts where: the class
  of the nodes it sees, joined with the classes of phantom elements. From this it follows for
  every aggregate whether its compiled class is the ABI class.
 */
module Compiled {
  import opened Alignment
  import opened Aggregate
  import opened Classify
  import opened Windows
  import opened FlatAbi
  import opened FlatProof

  /** An array of aggregates that the compiled loop does not look at: its window is empty. */
  predicate IsLost(f: Field, q: nat, base: nat) {
    && f.sub.Some? && LostSize(f.size) && q < base + f.offset < q + 8
    && (f.alignment == 0 || (base + f.offset) % f.alignment == 0)
  }

  // --- seen and lost nodes ------------------------------------------------------------------

  /** The nodes inside lost arrays, or all the others. */
  function Part(ag: Aggr, q: nat, base: nat, lost: bool): seq<Node>
    decreases ag, 2, 0
  {
    PartOfFields(ag, |ag.fields|, q, base, lost)
  }

  function PartOfFields(ag: Aggr, n: nat, q: nat, base: nat, lost: bool): seq<Node>
    requires n <= |ag.fields|
    decreases ag, 1, n
  {
    if n == 0 then [] else PartOfFields(ag, n - 1, q, base, lost) + PartOfField(ag.fields[n - 1], q, base, lost)
  }

  function PartOfField(f: Field, q: nat, base: nat, lost: bool): seq<Node>
    decreases f, 0, 0
  {
    (if lost then [] else [Node(base + f.offset, f.Extent(), f.alignment, LeafClass(f.typ))]) +
    (if f.sub.None? || f.size == 0 then []
     else if !IsLost(f, q, base) then PartOfElements(f.sub.value, q, base + f.offset, f.size, f.arrayLen, lost)
     else if lost then NodesOfElements(f.sub.value, base + f.offset, f.size, f.arrayLen) else [])
  }

  function PartOfElements(sub: Aggr, q: nat, offset: nat, size: nat, count: nat, lost: bool): seq<Node>
    decreases sub, 3, count
  {
    if count == 0 then []
    else PartOfElements(sub, q, offset, size, count - 1, lost) + Part(sub, q, offset + size * (count - 1), lost)
  }

  // --- phantoms -----------------------------------------------------------------------------

  /** The class of the elements before the first of an array that the compiled loop visits, at every depth. */
  function Phantoms(ag: Aggr, q: nat, base: nat): Class
    decreases ag, 2, 0
  {
    PhantomsOfFields(ag, |ag.fields|, q, base)
  }

  function PhantomsOfFields(ag: Aggr, n: nat, q: nat, base: nat): Class
    requires n <= |ag.fields|
    decreases ag, 1, n
  {
    if n == 0 then NoClass
    else Merge(PhantomsOfFields(ag, n - 1, q, base), PhantomsOfField(ag.fields[n - 1], q, base))
  }

  function PhantomsOfField(f: Field, q: nat, base: nat): Class
    decreases f, 0, 0
  {
    var offset := base + f.offset;
    if offset >= q + 8 || offset + f.Extent() <= q || f.sub.None? || f.size == 0 then NoClass
    else if (f.alignment != 0 && offset % f.alignment != 0) || IsLost(f, q, base) then NoClass
    else Merge(if offset <= q then NoClass else PhantomsBefore(f, q, offset),
               PhantomsOfElements(f.sub.value, q, offset, f.size, f.arrayLen))
  }

  function PhantomsBefore(f: Field, q: nat, offset: nat): Class
    requires f.sub.Some? && f.size != 0
  {
    var w := WindowOf(CArithmetic, q, offset, f.size, f.arrayLen);
    ClassOfElements(CArithmetic, f.sub.value, q, offset, f.size, w.first, 0)
  }

  function PhantomsOfElements(sub: Aggr, q: nat, offset: nat, size: nat, count: nat): Class
    decreases sub, 3, count
  {
    if count == 0 then NoClass
    else Merge(PhantomsOfElements(sub, q, offset, size, count - 1), Phantoms(sub, q, offset + size * (count - 1)))
  }

  // --- the parts make the whole -------------------------------------------------------------

  lemma Reorder(a: Class, b: Class, c: Class, d: Class)
    ensures Merge(Merge(a, b), Merge(c, d)) == Merge(Merge(a, c), Merge(b, d))
    ensures Merge(a, Merge(b, c)) == Merge(Merge(a, b), c)
    ensures Merge(a, NoClass) == a == Merge(NoClass, a)
  {
  }

  /** `whole` is made of `seen` and `lost`, class by class and node by node. */
  predicate Makes(whole: seq<Node>, seen: seq<Node>, lost: seq<Node>, q: nat) {
    && Join(whole, q) == Merge(Join(seen, q), Join(lost, q))
    && (forall n :: n in seen ==> n in whole)
    && (forall n :: n in lost ==> n in whole)
  }

  lemma MakesConcat(w1: seq<Node>, s1: seq<Node>, l1: seq<Node>, w2: seq<Node>, s2: seq<Node>, l2: seq<Node>, q: nat)
    requires Makes(w1, s1, l1, q) && Makes(w2, s2, l2, q)
    ensures Makes(w1 + w2, s1 + s2, l1 + l2, q)
  {
    hide Join, Merge;
    JoinConcat(w1, w2, q);
    JoinConcat(s1, s2, q);
    JoinConcat(l1, l2, q);
    Reorder(Join(s1, q), Join(l1, q), Join(s2, q), Join(l2, q));
  }

  lemma MakesItself(nodes: seq<Node>, q: nat)
    ensures Makes(nodes, nodes, [], q) && Makes(nodes, [], nodes, q)
  {
    NoElements(q);
    Reorder(Join(nodes, q), NoClass, NoClass, NoClass);
  }

  lemma {:induction false} PartsMake(ag: Aggr, q: nat, base: nat)
    ensures Makes(NodesOf(ag, base), Part(ag, q, base, false), Part(ag, q, base, true), q)
    decreases ag, 2, 0
  {
    FieldPartsMake(ag, |ag.fields|, q, base);
  }

  lemma {:induction false} FieldPartsMake(ag: Aggr, n: nat, q: nat, base: nat)
    requires n <= |ag.fields|
    ensures Makes(NodesOfFields(ag, n, base),
                  PartOfFields(ag, n, q, base, false), PartOfFields(ag, n, q, base, true), q)
    decreases ag, 1, n
  {
    hide NodesOfField, PartOfField, Makes;
    if n == 0 {
      MakesItself([], q);
    } else {
      var f := ag.fields[n - 1];
      FieldPartsMake(ag, n - 1, q, base);
      OneFieldPartsMake(f, q, base);
      MakesConcat(NodesOfFields(ag, n - 1, base),
                  PartOfFields(ag, n - 1, q, base, false), PartOfFields(ag, n - 1, q, base, true),
                  NodesOfField(f, base), PartOfField(f, q, base, false), PartOfField(f, q, base, true), q);
    }
  }

  lemma {:induction false} OneFieldPartsMake(f: Field, q: nat, base: nat)
    ensures Makes(NodesOfField(f, base), PartOfField(f, q, base, false), PartOfField(f, q, base, true), q)
    decreases f, 0, 0
  {
    hide Makes, NodesOfElements, PartOfElements, IsLost;
    var node := [Node(base + f.offset, f.Extent(), f.alignment, LeafClass(f.typ))];
    MakesItself(node, q);
    if f.sub.Some? && f.size != 0 {
      var sub, offset := f.sub.value, base + f.offset;
      var all := NodesOfElements(sub, offset, f.size, f.arrayLen);
      if IsLost(f, q, base) {
        MakesItself(all, q);
        MakesConcat(node, node, [], all, [], all, q);
      } else {
        ElementPartsMake(sub, q, offset, f.size, f.arrayLen);
        MakesConcat(node, node, [], all, PartOfElements(sub, q, offset, f.size, f.arrayLen, false),
                    PartOfElements(sub, q, offset, f.size, f.arrayLen, true), q);
      }
    }
    assert node + [] == node;
    assert PartOfField(f, q, base, true) == PartOfField(f, q, base, true)[0..];
  }

  lemma {:induction false} ElementPartsMake(sub: Aggr, q: nat, offset: nat, size: nat, count: nat)
    ensures Makes(NodesOfElements(sub, offset, size, count), PartOfElements(sub, q, offset, size, count, false),
                  PartOfElements(sub, q, offset, size, count, true), q)
    decreases sub, 3, count
  {
    hide NodesOf, Part, Makes;
    if count == 0 {
      MakesItself([], q);
    } else {
      var b := offset + size * (count - 1);
      ElementPartsMake(sub, q, offset, size, count - 1);
      PartsMake(sub, q, b);
      MakesConcat(NodesOfElements(sub, offset, size, count - 1), PartOfElements(sub, q, offset, size, count - 1, false),
                  PartOfElements(sub, q, offset, size, count - 1, true),
                  NodesOf(sub, b), Part(sub, q, b, false), Part(sub, q, b, true), q);
    }
  }

  // --- the compiled classifier --------------------------------------------------------------

  /** Seen nodes and phantoms together. */
  function Visible(ag: Aggr, q: nat, base: nat): Class {
    Merge(Phantoms(ag, q, base), Join(Part(ag, q, base, false), q))
  }

  function VisibleElements(sub: Aggr, q: nat, offset: nat, size: nat, count: nat): Class {
    Merge(PhantomsOfElements(sub, q, offset, size, count), Join(PartOfElements(sub, q, offset, size, count, false), q))
  }

  lemma {:induction false} NoPhantomsOutside(ag: Aggr, n: nat, q: nat, base: nat)
    requires WellNested(ag) && n <= |ag.fields| && (base >= q + 8 || base + ag.size <= q)
    ensures PhantomsOfFields(ag, n, q, base) == NoClass
  {
    if n > 0 {
      NoPhantomsOutside(ag, n - 1, q, base);
      assert ag.fields[n - 1] in ag.fields;
    }
  }

  lemma OutsideIsInvisible(sub: Aggr, q: nat, b: nat)
    requires WellNested(sub) && (b >= q + 8 || b + sub.size <= q)
    ensures Visible(sub, q, b) == NoClass
  {
    hide Join;
    NoPhantomsOutside(sub, |sub.fields|, q, b);
    NodesInside(sub, b);
    OutsideJoinsToNone(NodesOf(sub, b), b, b + sub.size, q);
    PartsMake(sub, q, b);
    SubsetJoins(Part(sub, q, b, false), NodesOf(sub, b), q);
  }

  /** Nothing of an array outside the eightbyte is visible. */
  lemma {:induction false} OutsideElements(sub: Aggr, q: nat, offset: nat, size: nat, count: nat)
    requires WellNested(sub) && size == sub.size && (offset >= q + 8 || offset + size * count <= q)
    ensures VisibleElements(sub, q, offset, size, count) == NoClass
    decreases count
  {
    hide Phantoms, Part, Join, Merge;
    NoElements(q);
    if count > 0 {
      MulMonotone(size, count - 1, count);
      OutsideElements(sub, q, offset, size, count - 1);
      assert size * count == size * (count - 1) + size;
      OutsideIsInvisible(sub, q, offset + size * (count - 1));
      OneMore(sub, q, offset, size, count);
    } else {
      assert PhantomsOfElements(sub, q, offset, size, 0) == NoClass;
    }
  }

  lemma OneMore(sub: Aggr, q: nat, offset: nat, size: nat, count: nat)
    requires count > 0
    ensures VisibleElements(sub, q, offset, size, count)
         == Merge(VisibleElements(sub, q, offset, size, count - 1), Visible(sub, q, offset + size * (count - 1)))
    ensures Merge(NoClass, NoClass) == NoClass
  {
    hide Phantoms, Part, Join, Merge;
    NoElements(q);
    var b := offset + size * (count - 1);
    JoinConcat(PartOfElements(sub, q, offset, size, count - 1, false), Part(sub, q, b, false), q);
    Reorder(PhantomsOfElements(sub, q, offset, size, count - 1), Phantoms(sub, q, b),
            Join(PartOfElements(sub, q, offset, size, count - 1, false), q), Join(Part(sub, q, b, false), q));
  }

  /** The compiled classifier sees its nodes and its phantoms. */
  lemma {:induction false} CompiledSees(ag: Aggr, q: nat, base: nat)
    requires q == 0 || q == 8
    requires WellNested(ag) && Described(ag) && base + ag.size <= 16
    ensures ClassOf(CArithmetic, ag, q, base) == Visible(ag, q, base)
    decreases ag, 2, 0
  {
    CompiledSeesFields(ag, |ag.fields|, q, base);
  }

  lemma {:induction false} CompiledSeesFields(ag: Aggr, n: nat, q: nat, base: nat)
    requires q == 0 || q == 8
    requires WellNested(ag) && Described(ag) && base + ag.size <= 16 && n <= |ag.fields|
    ensures ClassOfFields(CArithmetic, ag, n, q, base)
         == Merge(PhantomsOfFields(ag, n, q, base), Join(PartOfFields(ag, n, q, base, false), q))
    decreases ag, 1, n
  {
    hide ClassOfField, PartOfField, PhantomsOfField, WellNestedField, SizeFitsAlignment, Join, Merge;
    NoElements(q);
    if n > 0 {
      CompiledSeesFields(ag, n - 1, q, base);
      var f := ag.fields[n - 1];
      assert f in ag.fields;
      CompiledSeesField(f, q, base);
      JoinConcat(PartOfFields(ag, n - 1, q, base, false), PartOfField(f, q, base, false), q);
      Reorder(PhantomsOfFields(ag, n - 1, q, base), PhantomsOfField(f, q, base),
              Join(PartOfFields(ag, n - 1, q, base, false), q), Join(PartOfField(f, q, base, false), q));
      Reorder(PhantomsOfFields(ag, n - 1, q, base), Join(PartOfFields(ag, n - 1, q, base, false), q),
              PhantomsOfField(f, q, base), Join(PartOfField(f, q, base, false), q));
    } else {
      assert ClassOfFields(CArithmetic, ag, 0, q, base) == NoClass && PhantomsOfFields(ag, 0, q, base) == NoClass;
    }
  }

  lemma {:induction false} CompiledSeesField(f: Field, q: nat, base: nat)
    requires q == 0 || q == 8
    requires WellNestedField(f) && f.arrayLen > 0 && (f.sub.Some? ==> Described(f.sub.value))
    requires base + f.offset + f.Extent() <= 16
    ensures ClassOfField(CArithmetic, f, q, base)
         == Merge(PhantomsOfField(f, q, base), Join(PartOfField(f, q, base, false), q))
    decreases f, 0, 2
  {
    var offset := base + f.offset;
    var node := Node(offset, f.Extent(), f.alignment, LeafClass(f.typ));
    assert Join([node], q) == Weight(node, q);
    assert U64(offset) == offset && U64(offset + f.Extent()) == offset + f.Extent();
    hide ClassOfElements, PartOfElements, PhantomsOfElements, WindowOf, WellNested, Described, IsLost, Join;
    if f.sub.Some? && f.size != 0 {
      CompiledSeesNested(f, q, base, node);
    } else {
      assert PartOfField(f, q, base, false) == [node];
    }
  }

  /** Of an aggregate-typed field at `offset`, what the classifier's tests make of it. */
  predicate IsIn(f: Field, q: nat, offset: nat) {
    offset < q + 8 && q < offset + f.Extent()
  }

  predicate IsOff(f: Field, offset: nat) {
    f.alignment != 0 && offset % f.alignment != 0
  }

  lemma {:induction false} CompiledSeesNested(f: Field, q: nat, base: nat, node: Node)
    requires q == 0 || q == 8
    requires WellNestedField(f) && f.arrayLen > 0 && f.sub.Some? && f.size != 0 && Described(f.sub.value)
    requires base + f.offset + f.Extent() <= 16
    requires node == Node(base + f.offset, f.Extent(), f.alignment, NoClass) && Join([node], q) == Weight(node, q)
    ensures ClassOfField(CArithmetic, f, q, base)
         == Merge(PhantomsOfField(f, q, base), Join(PartOfField(f, q, base, false), q))
    decreases f, 0, 1
  {
    hide ClassOfField, ClassOfElements, PartOfField, PartOfElements, PhantomsOfField, PhantomsOfElements,
         PhantomsBefore, WindowOf, Described, IsLost, Join, NodesOfElements, WellNested, Weight;
    var offset := base + f.offset;
    var elements := PartOfElements(f.sub.value, q, offset, f.size, f.arrayLen, false);
    CodeOfNested(f, q, base);
    PartOfNested(f, q, base, node);
    JoinConcat([node], elements, q);
    if !IsIn(f, q, offset) {
      OutsideElements(f.sub.value, q, offset, f.size, f.arrayLen);
    } else if !IsOff(f, offset) {
      CompiledSeesArray(f, q, base);
    }
  }

  lemma CodeOfNested(f: Field, q: nat, base: nat)
    requires f.typ == 'A' && f.sub.Some? && f.size != 0 && base + f.offset + f.Extent() <= 16
    ensures var offset := base + f.offset;
            var w := WindowOf(CArithmetic, q, offset, f.size, f.arrayLen);
            ClassOfField(CArithmetic, f, q, base)
            == if !IsIn(f, q, offset) then NoClass
               else if IsOff(f, offset) then Memory
               else ClassOfElements(CArithmetic, f.sub.value, q, offset, f.size, w.first, w.end)
    ensures var offset := base + f.offset;
            PhantomsOfField(f, q, base)
            == if !IsIn(f, q, offset) || IsOff(f, offset) || IsLost(f, q, base) then NoClass
               else Merge(if offset <= q then NoClass else PhantomsBefore(f, q, offset),
                          PhantomsOfElements(f.sub.value, q, offset, f.size, f.arrayLen))
  {
    hide ClassOfElements, PhantomsOfElements, PhantomsBefore, WindowOf, Merge, IsLost;
    var offset := base + f.offset;
    assert U64(offset) == offset && U64(offset + f.Extent()) == offset + f.Extent();
  }

  lemma PartOfNested(f: Field, q: nat, base: nat, node: Node)
    requires f.typ == 'A' && f.sub.Some? && f.size != 0 && f.arrayLen > 0
    requires node == Node(base + f.offset, f.Extent(), f.alignment, NoClass)
    ensures PartOfField(f, q, base, false)
         == if IsLost(f, q, base) then [node]
            else [node] + PartOfElements(f.sub.value, q, base + f.offset, f.size, f.arrayLen, false)
    ensures IsLost(f, q, base) ==> IsIn(f, q, base + f.offset) && !IsOff(f, base + f.offset)
    ensures Weight(node, q) == if IsIn(f, q, base + f.offset) && IsOff(f, base + f.offset) then Memory else NoClass
  {
    hide PartOfElements;
    assert [node] + [] == [node];
  }

  lemma {:induction false} CompiledSeesArray(f: Field, q: nat, base: nat)
    requires q == 0 || q == 8
    requires WellNestedField(f) && f.arrayLen > 0 && f.sub.Some? && f.size != 0 && Described(f.sub.value)
    requires base + f.offset + f.Extent() <= 16 && base + f.offset < q + 8 && q < base + f.offset + f.Extent()
    requires f.alignment == 0 || (base + f.offset) % f.alignment == 0
    ensures var offset := base + f.offset;
            var w := WindowOf(CArithmetic, q, offset, f.size, f.arrayLen);
            ClassOfElements(CArithmetic, f.sub.value, q, offset, f.size, w.first, w.end)
            == if IsLost(f, q, base) then NoClass
               else Merge(if offset <= q then NoClass else PhantomsBefore(f, q, offset),
                          VisibleElements(f.sub.value, q, offset, f.size, f.arrayLen))
    decreases f, 0, 0
  {
    hide ClassOf, ClassOfElements, PartOfElements, PhantomsOfElements, WindowOf, WellNested, Described, Join,
         Merge, VisibleElements;
    var sub, offset := f.sub.value, base + f.offset;
    var w := WindowOf(CArithmetic, q, offset, f.size, f.arrayLen);
    ArrayLenBound(f.size, f.arrayLen);
    if IsLost(f, q, base) {
      CWindowWraps(q, offset, f.size, f.arrayLen);
      EmptyWindow(sub, q, offset, f.size, w.first, w.end);
    } else if offset <= q {
      OrdinaryWindow(q, offset, f.size, f.arrayLen);
      ElementsSeen(sub, q, offset, f.size, w.first, w.end, f.arrayLen, f.arrayLen);
      Reorder(VisibleElements(sub, q, offset, f.size, f.arrayLen), NoClass, NoClass, NoClass);
    } else {
      InsideWindow(q, offset, f.size, f.arrayLen);
      ElementsSplit(CArithmetic, sub, q, offset, f.size, w.first, 0, w.end);
      ElementsSeen(sub, q, offset, f.size, 0, w.end, f.arrayLen, f.arrayLen);
    }
  }

  lemma EmptyWindow(sub: Aggr, q: nat, offset: nat, size: nat, first: int, end: int)
    requires end <= first
    ensures ClassOfElements(CArithmetic, sub, q, offset, size, first, end) == NoClass
  {
  }

  /** At or before the eightbyte the compiled window is the intended one. */
  lemma OrdinaryWindow(q: nat, offset: nat, size: nat, arrayLen: nat)
    requires q == 0 || q == 8
    requires size > 0 && arrayLen > 0 && offset + size * arrayLen <= 16 && offset <= q < offset + size * arrayLen
    ensures var w := WindowOf(CArithmetic, q, offset, size, arrayLen);
            && 0 <= w.first <= w.end <= arrayLen
            && forall e :: 0 <= e < arrayLen && ElementOverlaps(q, offset, size, e) ==> w.first <= e < w.end
  {
    CWindowExact(q, offset, size, arrayLen);
    var w := WindowOf(FromFirstElement, q, offset, size, arrayLen);
    forall e | 0 <= e < arrayLen && ElementOverlaps(q, offset, size, e) ensures w.first <= e < w.end {
      WindowLosesNothing(q, offset, size, arrayLen, e);
    }
  }

  /** The first `count` elements, of which those in the window have been folded and the others are invisible. */
  lemma {:induction false} ElementsSeen(sub: Aggr, q: nat, offset: nat, size: nat, first: nat, end: nat,
                                        count: nat, arrayLen: nat)
    requires q == 0 || q == 8
    requires WellNested(sub) && Described(sub) && size == sub.size && offset + size * arrayLen <= 16
    requires first <= end <= arrayLen && count <= arrayLen
    requires forall e :: 0 <= e < arrayLen && ElementOverlaps(q, offset, size, e) ==> first <= e < end
    ensures ClassOfElements(CArithmetic, sub, q, offset, size, first, if count < end then count else end)
         == VisibleElements(sub, q, offset, size, count)
    decreases sub, 3, count
  {
    hide ClassOf, WellNested, Described, Visible, Merge, VisibleElements;
    if count > 0 {
      var e := count - 1;
      ElementsSeen(sub, q, offset, size, first, end, e, arrayLen);
      OneMore(sub, q, offset, size, count);
      ElementFits(offset, size, e, arrayLen);
      assert ElementOverlaps(q, offset, size, e) ==> first <= e < end;
      NoElements(q);
      if first <= e < end {
        CompiledSees(sub, q, offset + size * e);
      } else {
        OutsideIsInvisible(sub, q, offset + size * e);
      }
    } else {
      NoneVisible(sub, q, offset, size);
    }
  }

  lemma NoneVisible(sub: Aggr, q: nat, offset: nat, size: nat)
    ensures VisibleElements(sub, q, offset, size, 0) == NoClass
  {
    assert Join([], q) == NoClass;
  }

  // --- compiled class and ABI class ---------------------------------------------------------

  /**
    For every described aggregate of at most sixteen bytes: its compiled class is the ABI class
    if and only if phantom elements and lost nodes either do not exceed the class of the nodes
    that are seen, or happen to be of equal class.
   */
  lemma CompiledClassExactly(ag: Aggr, q: nat)
    requires q == 0 || q == 8
    requires Built(ag) && WellNested(ag) && Described(ag) && ag.size <= 16
    ensures var seen := Rank(AbiClass(Part(ag, q, 0, false), q));
            var lost := Rank(AbiClass(Part(ag, q, 0, true), q));
            var phantoms := Rank(Phantoms(ag, q, 0));
            ClassOf(CArithmetic, ag, q, 0) == AbiClass(NodesOf(ag, 0), q) <==>
            (phantoms <= seen && lost <= seen) || phantoms == lost
  {
    hide *;
    CompiledSees(ag, q, 0);
    NodesInside(ag, 0);
    DescribedIsSolid(ag, 0);
    PartsMake(ag, q, 0);
    PartsAreAbi(NodesOf(ag, 0), Part(ag, q, 0, false), Part(ag, q, 0, true), ag.size, q);
    VisibleRank(ag, q);
    RankIsInjective(ClassOf(CArithmetic, ag, q, 0), AbiClass(NodesOf(ag, 0), q));
  }

  lemma RankIsInjective(a: Class, b: Class)
    ensures a == b <==> Rank(a) == Rank(b)
  {
  }

  lemma VisibleRank(ag: Aggr, q: nat)
    ensures var a, b := Rank(Phantoms(ag, q, 0)), Rank(Join(Part(ag, q, 0, false), q));
            Rank(Visible(ag, q, 0)) == if a < b then b else a
  {
    MergeIsMaximum(Phantoms(ag, q, 0), Join(Part(ag, q, 0, false), q));
  }

  lemma PartsAreAbi(whole: seq<Node>, seen: seq<Node>, lost: seq<Node>, size: nat, q: nat)
    requires Makes(whole, seen, lost, q) && Solid(whole) && Inside(whole, 0, 0 + size)
    ensures Join(seen, q) == AbiClass(seen, q)
    ensures var a, b := Rank(AbiClass(seen, q)), Rank(AbiClass(lost, q));
            Rank(AbiClass(whole, q)) == if a < b then b else a
  {
    hide AbiClass, Join;
    SolidJoinIsAbiClass(whole, q);
    SolidJoinIsAbiClass(seen, q);
    SolidJoinIsAbiClass(lost, q);
    MergeIsMaximum(Join(seen, q), Join(lost, q));
  }
}
