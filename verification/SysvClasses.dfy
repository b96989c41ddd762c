/**
  What classification means for the rest of System V marshalling: the classes dcCloseAggr
  stores, and when they can carry an aggregate.
 */
module SysvClasses {
  import opened Alignment
  import opened Aggregate
  import opened Classify
  import opened FlatAbi
  import opened FlatProof

  /** The part of a closed DCaggr that argument passing uses. */
  datatype SysvAggr = SysvAggr(size: nat, classes: seq<Class>)

  /** dc_get_sysv_classes_for_aggr; entries it does not reach keep the contents of fresh memory. */
  function ClassesOf(rule: WindowRule, ag: Aggr, stale: seq<Class>): (r: seq<Class>)
    requires |stale| == 8
    ensures |r| == 8
  {
    if ag.size > 16 then stale[0 := Memory] else
    var c0 := ClassOf(rule, ag, 0, 0);
    if c0 == Memory then stale[0 := Memory] else
    var c1 := ClassOf(rule, ag, 8, 0);
    if c1 == Memory then stale[0 := Memory][1 := Memory] else stale[0 := c0][1 := c1][2 := NoClass]
  }

  /** dcCloseAggr on `classes`, ag->sysv_classes. */
  method CloseAggr(ag: Aggr, classes: array<Class>)
    requires classes.Length == 8
    modifies classes
    ensures classes[..] == ClassesOf(CArithmetic, ag, old(classes[..]))
    ensures classes[0] == Memory <==>
            ag.size > 16 || exists i :: 0 <= i < 2 && ClassOf(CArithmetic, ag, 8 * i, 0) == Memory
    ensures classes[0] != Memory ==>
              classes[2] == NoClass && forall i :: 0 <= i < 2 ==> classes[i] == ClassOf(CArithmetic, ag, 8 * i, 0)
    ensures Built(ag) && WellNested(ag) && Described(ag) && ExactWindows(CArithmetic, ag) && classes[0] != Memory ==>
              forall i :: 0 <= i < 2 ==> classes[i] == AbiClass(NodesOf(ag, 0), 8 * i)
  {
    hide ClassOf, AbiClass, NodesOf, Built, WellNested, Described, WindowsAreExact;
    StoredClasses(CArithmetic, ag, classes[..]);
    if Built(ag) && WellNested(ag) && Described(ag) && ExactWindows(CArithmetic, ag) {
      StoredAreAbi(CArithmetic, ag, classes[..]);
    }
    if ag.size > 16 {
      classes[0] := Memory;
      return;
    }
    classes[0] := ClassFor8byte(ag, 0, 0);
    if classes[0] != Memory {
      classes[1] := ClassFor8byte(ag, 1, 0);
      if classes[1] == Memory {
        classes[0] := Memory;
      } else {
        classes[2] := NoClass;
      }
    }
  }

  /** Stored class `i` is the class of eightbyte `i`, unless one of them, or the size, makes the whole MEMORY. */
  lemma StoredClasses(rule: WindowRule, ag: Aggr, stale: seq<Class>)
    requires |stale| == 8
    ensures var r := ClassesOf(rule, ag, stale);
            && (r[0] == Memory <==> ag.size > 16 || exists i :: 0 <= i < 2 && ClassOf(rule, ag, 8 * i, 0) == Memory)
            && (r[0] != Memory ==> r[2] == NoClass && forall i :: 0 <= i < 2 ==> r[i] == ClassOf(rule, ag, 8 * i, 0))
  {
    hide ClassOf;
    assert ClassOf(rule, ag, 0, 0) == ClassOf(rule, ag, 8 * 0, 0);
    assert ClassOf(rule, ag, 8, 0) == ClassOf(rule, ag, 8 * 1, 0);
  }

  /** And where the classifier is right these are the classes of the ABI. */
  lemma StoredAreAbi(rule: WindowRule, ag: Aggr, stale: seq<Class>)
    requires |stale| == 8
    requires Built(ag) && WellNested(ag) && Described(ag) && ExactWindows(rule, ag)
    ensures var r := ClassesOf(rule, ag, stale);
            && (r[0] == Memory <==>
                  ag.size > 16 || exists i :: 0 <= i < 2 && AbiClass(NodesOf(ag, 0), 8 * i) == Memory)
            && (r[0] != Memory ==> forall i :: 0 <= i < 2 ==> r[i] == AbiClass(NodesOf(ag, 0), 8 * i))
  {
    hide ClassOf, AbiClass, NodesOf, Built, WellNested, Described, WindowsAreExact, ClassesOf;
    StoredClasses(rule, ag, stale);
    if ag.size <= 16 {
      ClassifierIsAbi(rule, ag, 0, 0);
      ClassifierIsAbi(rule, ag, 8, 0);
      forall i | 0 <= i < 2 ensures ClassOf(rule, ag, 8 * i, 0) == AbiClass(NodesOf(ag, 0), 8 * i) {
        assert i == 0 || i == 1;
      }
    }
  }

  function Eightbytes(size: nat): nat {
    (size + 7) / 8
  }

  /** Bytes of the aggregate in its eightbyte `i`. */
  function LiveBytes(size: nat, i: nat): nat
    requires 8 * i < size
  {
    if size - 8 * i < 8 then size - 8 * i else 8
  }

  /** Classes that make an aggregate travel correctly: one per eightbyte, or MEMORY. */
  predicate WellFormed(ag: SysvAggr) {
    && |ag.classes| == 8
    && (ag.classes[0] != Memory ==>
          && Eightbytes(ag.size) <= 2
          && ag.classes[Eightbytes(ag.size)] == NoClass
          && forall i :: 0 <= i < Eightbytes(ag.size) ==>
               && ag.classes[i] in {Integer, Sse}
               && (ag.classes[i] == Sse ==> LiveBytes(ag.size, i) in {4, 8}))
  }

  /** Some scalar field has a byte in the eightbyte at `q`. */
  ghost predicate Covered(ag: Aggr, q: nat) {
    exists n :: n in NodesOf(ag, 0) && Overlaps(n, q) && n.cls != NoClass
  }

  ghost predicate HasMisalignedNode(ag: Aggr, q: nat) {
    exists n :: n in NodesOf(ag, 0) && Overlaps(n, q) && Misaligned(n)
  }

  // --- the classes dcCloseAggr stores -----------------------------------------------------

  ghost predicate ExactWindows(rule: WindowRule, ag: Aggr) {
    WindowsAreExact(rule, ag, 0, 0) && WindowsAreExact(rule, ag, 8, 0)
  }

  /** MEMORY exactly for an overlapping misaligned field; otherwise a class exactly where a leaf is. */
  lemma ClassMeaning(rule: WindowRule, ag: Aggr, q: nat)
    requires q == 0 || q == 8
    requires WellNested(ag) && ag.size <= 16 && WindowsAreExact(rule, ag, q, 0)
    requires EmptyNodesAddNothing(NodesOf(ag, 0), q)
    ensures ClassOf(rule, ag, q, 0) == Memory <==> HasMisalignedNode(ag, q)
    ensures !HasMisalignedNode(ag, q) ==> (ClassOf(rule, ag, q, 0) == NoClass <==> !Covered(ag, q))
  {
    ClassifierIsFlat(rule, ag, q, 0);
    NodesInside(ag, 0);
  }

  // --- SSE eightbytes -----------------------------------------------------------------------

  lemma {:induction false} SseIsAligned(rule: WindowRule, ag: Aggr, n: nat, q: nat, base: int)
    requires Built(ag) && n <= |ag.fields| && ClassOfFields(rule, ag, n, q, base) == Sse
    ensures ag.alignment >= 4
    decreases ag, 1, n
  {
    var f := ag.fields[n - 1];
    assert f in ag.fields;
    MergeIsMaximum(ClassOfFields(rule, ag, n - 1, q, base), ClassOfField(rule, f, q, base));
    if ClassOfFields(rule, ag, n - 1, q, base) == Sse {
      SseIsAligned(rule, ag, n - 1, q, base);
    } else {
      SseFieldIsAligned(rule, f, q, base);
    }
  }

  lemma {:induction false} SseFieldIsAligned(rule: WindowRule, f: Field, q: nat, base: int)
    requires BuiltField(f) && ClassOfField(rule, f, q, base) == Sse
    ensures f.alignment >= 4
    decreases f, 0, 0
  {
    hide WindowOf, ClassOfElements;
    if f.sub.Some? {
      var offset := U64(base + f.offset);
      var w := WindowOf(rule, q, offset, f.size, f.arrayLen);
      SseElementsAreAligned(rule, f.sub.value, q, offset, f.size, w.first, w.end);
    }
  }

  lemma {:induction false} SseElementsAreAligned(rule: WindowRule, sub: Aggr, q: nat, offset: nat, size: nat,
                                                 first: int, end: int)
    requires Built(sub) && ClassOfElements(rule, sub, q, offset, size, first, end) == Sse
    ensures sub.alignment >= 4
    decreases sub, 2, end - first
  {
    var at := I32(offset + size * (end - 1));
    MergeIsMaximum(ClassOfElements(rule, sub, q, offset, size, first, end - 1), ClassOf(rule, sub, q, at));
    if ClassOfElements(rule, sub, q, offset, size, first, end - 1) == Sse {
      SseElementsAreAligned(rule, sub, q, offset, size, first, end - 1);
    } else {
      SseIsAligned(rule, sub, |sub.fields|, q, at);
    }
  }

  lemma {:induction false} NothingBeyond(rule: WindowRule, ag: Aggr, n: nat, q: nat)
    requires WellNested(ag) && ag.size <= q && q <= 8 && n <= |ag.fields|
    ensures ClassOfFields(rule, ag, n, q, 0) == NoClass
  {
    hide WindowOf, ClassOfElements;
    if n > 0 {
      NothingBeyond(rule, ag, n - 1, q);
      var f := ag.fields[n - 1];
      assert f in ag.fields;
      assert U64(0 + f.offset) == f.offset && U64(f.offset + f.Extent()) == f.offset + f.Extent();
    }
  }

  /**
    An SSE eightbyte has four or eight live bytes, so the mismatch assertion of dcbArgAggr is
    unreachable, wherever the fields of the aggregate start.
   */
  lemma SseSlotIsFloatOrDouble(rule: WindowRule, ag: Aggr, i: nat)
    requires i < 2 && Built(ag) && WellNested(ag) && ag.size <= 16 && SizeFitsAlignment(ag)
    requires ClassOf(rule, ag, 8 * i, 0) == Sse
    ensures 8 * i < ag.size && LiveBytes(ag.size, i) in {4, 8}
  {
    hide ClassOfFields, WellNested, LiveBytes;
    SseIsAligned(rule, ag, |ag.fields|, 8 * i, 0);
    if ag.size <= 8 * i {
      NothingBeyond(rule, ag, |ag.fields|, 8 * i);
      assert false;
    }
    assert ag.alignment in {4, 8};
    hide Built;
    FourOrEightLive(ag.size, ag.alignment, i);
  }

  lemma FourOrEightLive(size: nat, alignment: nat, i: nat)
    requires alignment in {4, 8} && OnBoundary(size, alignment) && 8 * i < size <= 16
    ensures LiveBytes(size, i) in {4, 8}
  {
    assert i == 0 || i == 1;
    assert size in {4, 8, 12, 16} by {
      assert alignment == 4 ==> size % 4 == 0;
      assert alignment == 8 ==> size % 8 == 0;
    }
    hide OnBoundary;
  }

  // --- usable classes -----------------------------------------------------------------------

  /** Passed in memory, or no eightbyte of the aggregate without a class. */
  predicate Usable(size: nat, classes: seq<Class>)
    requires |classes| == 8
  {
    size > 16 || classes[0] == Memory || ((size > 0 ==> classes[0] != NoClass) && (size > 8 ==> classes[1] != NoClass))
  }

  /**
    What dcCloseAggr stores for an aggregate is well formed exactly when no eightbyte of it
    came out as NONE; what else well-formedness asks for is always so, in particular that SSE
    eightbytes have four or eight bytes and that nothing follows the last eightbyte.
   */
  lemma ClassesWellFormed(rule: WindowRule, ag: Aggr, stale: seq<Class>)
    requires |stale| == 8
    requires Built(ag) && WellNested(ag) && SizeFitsAlignment(ag)
    ensures var r := ClassesOf(rule, ag, stale);
            WellFormed(SysvAggr(ag.size, r)) <==> Usable(ag.size, r)
  {
    hide Built, WellNested, ClassOf, SizeFitsAlignment;
    if ag.size <= 16 {
      var n := Eightbytes(ag.size);
      var r := ClassesOf(rule, ag, stale);
      if r[0] != Memory {
        assert forall i {:trigger r[i]} :: 0 <= i < 2 ==> r[i] == ClassOf(rule, ag, 8 * i, 0);
        forall i | 0 <= i < 2 && r[i] == Sse ensures i < n && LiveBytes(ag.size, i) in {4, 8} {
          SseSlotIsFloatOrDouble(rule, ag, i);
        }
        forall i | n <= i < 2 ensures r[i] == NoClass {
          ClassBeyond(rule, ag, i);
        }
      }
    }
  }

  lemma ClassBeyond(rule: WindowRule, ag: Aggr, i: nat)
    requires WellNested(ag) && Eightbytes(ag.size) <= i < 2
    ensures ClassOf(rule, ag, 8 * i, 0) == NoClass
  {
    NothingBeyond(rule, ag, |ag.fields|, 8 * i);
  }

  /** Where no start is harmful the fields decide: a misaligned one, or one in every eightbyte. */
  lemma CoverageDecides(rule: WindowRule, ag: Aggr, stale: seq<Class>)
    requires |stale| == 8
    requires Built(ag) && WellNested(ag) && Described(ag) && SizeFitsAlignment(ag) && ExactWindows(rule, ag)
    ensures WellFormed(SysvAggr(ag.size, ClassesOf(rule, ag, stale))) <==>
            || ag.size > 16
            || HasMisalignedNode(ag, 0)
            || HasMisalignedNode(ag, 8)
            || forall i :: 0 <= i < Eightbytes(ag.size) ==> Covered(ag, 8 * i)
  {
    hide Built, WellNested, Described, SizeFitsAlignment, ClassOf, WellFormed, Covered, HasMisalignedNode,
         WindowsAreExact;
    ClassesWellFormed(rule, ag, stale);
    if ag.size <= 16 {
      NothingEmpty(ag);
      ClassMeaning(rule, ag, 0);
      ClassMeaning(rule, ag, 8);
      var n := Eightbytes(ag.size);
      if forall i :: 0 <= i < n ==> Covered(ag, 8 * i) {
        assert n > 0 ==> Covered(ag, 8 * 0);
        assert n > 1 ==> Covered(ag, 8 * 1);
      }
      if (n > 0 ==> Covered(ag, 0)) && (n > 1 ==> Covered(ag, 8)) {
        forall i | 0 <= i < n ensures Covered(ag, 8 * i) {
          assert i == 0 || i == 1;
        }
      }
    }
  }

  lemma NothingEmpty(ag: Aggr)
    requires Built(ag) && WellNested(ag) && Described(ag)
    ensures EmptyNodesAddNothing(NodesOf(ag, 0), 0) && EmptyNodesAddNothing(NodesOf(ag, 0), 8)
  {
    DescribedIsSolid(ag, 0);
  }

  // --- field order ------------------------------------------------------------------------

  /** The fold over the fields is the largest of their classes. */
  lemma {:induction false} LargestField(rule: WindowRule, ag: Aggr, n: nat, q: nat, base: int)
    requires n <= |ag.fields|
    ensures forall i :: 0 <= i < n ==>
              Rank(ClassOfField(rule, ag.fields[i], q, base)) <= Rank(ClassOfFields(rule, ag, n, q, base))
    ensures ClassOfFields(rule, ag, n, q, base) == NoClass ||
            exists i :: 0 <= i < n && ClassOfField(rule, ag.fields[i], q, base) == ClassOfFields(rule, ag, n, q, base)
  {
    hide ClassOfField;
    if n > 0 {
      LargestField(rule, ag, n - 1, q, base);
    }
  }

  /** Fields of another aggregate cannot exceed those of one that has them all. */
  lemma MoreFields(rule: WindowRule, a: Aggr, b: Aggr, q: nat, base: int)
    requires forall f :: f in a.fields ==> f in b.fields
    ensures Rank(ClassOf(rule, a, q, base)) <= Rank(ClassOf(rule, b, q, base))
  {
    hide ClassOfField;
    LargestField(rule, a, |a.fields|, q, base);
    LargestField(rule, b, |b.fields|, q, base);
    if ClassOf(rule, a, q, base) != NoClass {
      var i :| 0 <= i < |a.fields| && ClassOfField(rule, a.fields[i], q, base) == ClassOf(rule, a, q, base);
      assert a.fields[i] in b.fields;
      var j :| 0 <= j < |b.fields| && b.fields[j] == a.fields[i];
      assert Rank(ClassOfField(rule, b.fields[j], q, base)) <= Rank(ClassOf(rule, b, q, base));
    }
  }

  /** Declaring the fields in another order, or repeating one, does not change any class. */
  lemma FieldOrderIrrelevant(rule: WindowRule, a: Aggr, b: Aggr, q: nat, base: int)
    requires forall f :: f in a.fields <==> f in b.fields
    ensures ClassOf(rule, a, q, base) == ClassOf(rule, b, q, base)
  {
    hide ClassOfFields;
    MoreFields(rule, a, b, q, base);
    MoreFields(rule, b, a, q, base);
  }

  // --- natural layout ---------------------------------------------------------------------

  /** Fields at multiples of their alignment and array elements at multiples of theirs, at every depth. */
  predicate Natural(ag: Aggr) {
    forall f :: f in ag.fields ==>
      && OnBoundary(f.offset, f.alignment)
      && (f.sub.Some? ==> SizeFitsAlignment(f.sub.value) && Natural(f.sub.value))
  }

  /**
    A naturally laid out aggregate never has class MEMORY, not even where the compiled window
    looks at elements that are not there: they are as well aligned as the others.
   */
  lemma {:induction false} NaturalIsNeverMemory(rule: WindowRule, ag: Aggr, q: nat, base: int)
    requires Built(ag) && Natural(ag) && OnBoundary(base, ag.alignment)
    ensures ClassOf(rule, ag, q, base) != Memory
    decreases ag, 2, 0
  {
    NaturalFields(rule, ag, |ag.fields|, q, base);
  }

  lemma {:induction false} NaturalFields(rule: WindowRule, ag: Aggr, n: nat, q: nat, base: int)
    requires Built(ag) && Natural(ag) && OnBoundary(base, ag.alignment) && n <= |ag.fields|
    ensures ClassOfFields(rule, ag, n, q, base) != Memory
    decreases ag, 1, n
  {
    hide OnBoundary, ClassOfField, BuiltField;
    if n > 0 {
      var f := ag.fields[n - 1];
      assert f in ag.fields;
      NaturalFields(rule, ag, n - 1, q, base);
      FieldAlignment(f);
      BoundaryWeakens(base, f.alignment, ag.alignment);
      NaturalField(rule, f, q, base);
      MergeIsMaximum(ClassOfFields(rule, ag, n - 1, q, base), ClassOfField(rule, f, q, base));
    }
  }

  lemma {:induction false} NaturalField(rule: WindowRule, f: Field, q: nat, base: int)
    requires BuiltField(f) && OnBoundary(base, f.alignment) && OnBoundary(f.offset, f.alignment)
    requires f.sub.Some? ==> SizeFitsAlignment(f.sub.value) && Natural(f.sub.value)
    ensures ClassOfField(rule, f, q, base) != Memory
    decreases f, 0, 0
  {
    hide OnBoundary, WindowOf, ClassOfElements, Natural, Built;
    FieldAlignment(f);
    var offset := U64(base + f.offset);
    BoundarySum(base, f.offset, f.alignment);
    WrapKeepsBoundary(base + f.offset, 0, f.alignment, WrapCount(base + f.offset));
    BoundaryIsModulo(offset, f.alignment);
    if f.sub.Some? && f.size != 0 {
      var w := WindowOf(rule, q, offset, f.size, f.arrayLen);
      NaturalElements(rule, f.sub.value, q, offset, f.size, w.first, w.end);
    }
  }

  lemma {:induction false} NaturalElements(rule: WindowRule, sub: Aggr, q: nat, offset: nat, size: nat, first: int,
                                           end: int)
    requires Built(sub) && Natural(sub) && SizeFitsAlignment(sub)
            && size == sub.size && OnBoundary(offset, sub.alignment)
    ensures ClassOfElements(rule, sub, q, offset, size, first, end) != Memory
    decreases sub, 3, end - first
  {
    hide OnBoundary, ClassOf, Natural;
    if first < end {
      var at := offset + size * (end - 1);
      NaturalElements(rule, sub, q, offset, size, first, end - 1);
      MultipleOnBoundary(size, end - 1, sub.alignment);
      BoundarySum(offset, size * (end - 1), sub.alignment);
      WrapKeepsBoundary(at, 0, sub.alignment, TruncationCount(at));
      NaturalIsNeverMemory(rule, sub, q, I32(at));
      MergeIsMaximum(ClassOfElements(rule, sub, q, offset, size, first, end - 1), ClassOf(rule, sub, q, I32(at)));
    }
  }
}
