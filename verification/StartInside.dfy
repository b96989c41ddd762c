/**
  Aggregate-typed fields that start strictly inside an eightbyte, where the window as compiled
  departs from its comment: for which starts the classifier is right all the same.
 */
module StartInside {
  import opened Alignment
  import opened Aggregate
  import opened Classify
  import opened Windows
  import opened FlatAbi
  import opened FlatProof

  // --- which starts are harmless ------------------------------------------------------------

  /** An element type for an array at `offset` that is itself free of harmful starts. */
  predicate Candidate(sub: Aggr, q: nat, offset: nat, size: nat, arrayLen: nat) {
    Proper(sub) && sub.size == size && forall e :: 0 <= e < arrayLen ==> Harmless(sub, q, offset + size * e)
  }

  /** What the compiled loop makes of the field. */
  function CompiledFold(sub: Aggr, q: nat, offset: nat, size: nat, arrayLen: nat): Class
    requires size > 0
  {
    var w := WindowOf(CArithmetic, q, offset, size, arrayLen);
    ClassOfElements(CArithmetic, sub, q, offset, size, w.first, w.end)
  }

  ghost predicate AlwaysRight(q: nat, offset: nat, size: nat, arrayLen: nat)
    requires size > 0
  {
    forall sub :: Candidate(sub, q, offset, size, arrayLen) ==>
      CompiledFold(sub, q, offset, size, arrayLen) == AbiClass(NodesOfElements(sub, offset, size, arrayLen), q)
  }

  /**
    For an array of aggregates that starts strictly inside the eightbyte, the compiled loop
    gives the ABI class for every element type if and only if the elements are 1, 2, 4, 6 or 7
    bytes long and the first one ends within the eightbyte. The array length does not matter.
   */
  lemma StartInsideExactly(q: nat, offset: nat, size: nat, arrayLen: nat)
    requires q == 0 || q == 8
    requires q < offset < q + 8 && size > 0 && arrayLen > 0 && offset + size * arrayLen <= 16
    ensures AlwaysRight(q, offset, size, arrayLen) <==> HarmlessStart(offset - q, size)
  {
    hide Proper, AbiClass, NodesOfElements, CompiledFold;
    if HarmlessStart(offset - q, size) {
      forall sub | Candidate(sub, q, offset, size, arrayLen)
        ensures CompiledFold(sub, q, offset, size, arrayLen)
                == AbiClass(NodesOfElements(sub, offset, size, arrayLen), q)
      {
        HarmlessIsRight(sub, q, offset, size, arrayLen);
      }
    } else {
      ArrayLenBound(size, arrayLen);
      var sub := LoneChar(size, if LostSize(size) then 0 else size - 1);
      LoneCharIsCandidate(size, if LostSize(size) then 0 else size - 1, q, offset, arrayLen);
      if LostSize(size) {
        LostIsWrong(q, offset, size, arrayLen);
      } else {
        PhantomIsWrong(q, offset, size, arrayLen);
      }
      assert Candidate(sub, q, offset, size, arrayLen);
    }
  }

  lemma ElementsAreAbi(sub: Aggr, q: nat, offset: nat, size: nat, arrayLen: nat)
    requires Proper(sub) && sub.size == size
    ensures Join(NodesOfElements(sub, offset, size, arrayLen), q)
            == AbiClass(NodesOfElements(sub, offset, size, arrayLen), q)
  {
    ElementNodesInside(sub, offset, size, arrayLen);
    ElementsAreSolid(sub, offset, size, arrayLen);
    SolidJoinIsAbiClass(NodesOfElements(sub, offset, size, arrayLen), q);
  }

  lemma HarmlessIsRight(sub: Aggr, q: nat, offset: nat, size: nat, arrayLen: nat)
    requires q == 0 || q == 8
    requires q < offset && arrayLen > 0 && offset + size * arrayLen <= 16 && HarmlessStart(offset - q, size)
    requires Candidate(sub, q, offset, size, arrayLen)
    ensures CompiledFold(sub, q, offset, size, arrayLen) == AbiClass(NodesOfElements(sub, offset, size, arrayLen), q)
  {
    HarmlessWindowJoins(sub, q, offset, size, arrayLen);
    ElementsAreAbi(sub, q, offset, size, arrayLen);
  }

  /** struct of `size` bytes with a char at byte `o` and nothing else */
  function LoneChar(size: nat, o: nat): Aggr {
    Aggr(size, 1, [NewField('c', o, 1, None)])
  }

  lemma LoneCharIsCandidate(size: nat, o: nat, q: nat, offset: nat, arrayLen: nat)
    requires o < size
    ensures Candidate(LoneChar(size, o), q, offset, size, arrayLen)
  {
    var ag, f := LoneChar(size, o), NewField('c', o, 1, None);
    assert f in ag.fields && BuiltField(f);
    assert Built(ag) && WellNested(ag) && Described(ag) && SizeFitsAlignment(ag);
  }

  lemma LoneCharClass(size: nat, o: nat, q: nat, base: int)
    requires 0 <= base + o < 64
    ensures ClassOf(CArithmetic, LoneChar(size, o), q, base) == if q <= base + o < q + 8 then Integer else NoClass
  {
    var ag := LoneChar(size, o);
    assert ClassOfFields(CArithmetic, ag, 0, q, base) == NoClass;
    assert ClassOfFields(CArithmetic, ag, 1, q, base) == ClassOfField(CArithmetic, ag.fields[0], q, base);
  }

  lemma LoneCharNodes(size: nat, o: nat, base: nat)
    ensures NodesOf(LoneChar(size, o), base) == [Node(base + o, 1, 1, Integer)]
  {
    var ag := LoneChar(size, o);
    assert NodesOfFields(ag, 0, base) == [];
    assert NodesOfFields(ag, 1, base) == NodesOfField(ag.fields[0], base);
  }

  /** A window that is empty hides the char in the first element. */
  lemma LostIsWrong(q: nat, offset: nat, size: nat, arrayLen: nat)
    requires q < offset < q + 8 && LostSize(size) && 0 < size <= 16 && 0 < arrayLen <= 16
    ensures var sub := LoneChar(size, 0);
            CompiledFold(sub, q, offset, size, arrayLen) != AbiClass(NodesOfElements(sub, offset, size, arrayLen), q)
  {
    hide *;
    var sub := LoneChar(size, 0);
    CWindowWraps(q, offset, size, arrayLen);
    EmptyFold(sub, q, offset, size, arrayLen);
    FirstElementIn(sub, offset, size, arrayLen);
    LoneCharNodes(size, 0, offset);
    CharCounts(NodesOfElements(sub, offset, size, arrayLen), q, offset);
  }

  lemma EmptyFold(sub: Aggr, q: nat, offset: nat, size: nat, arrayLen: nat)
    requires size > 0 && var w := WindowOf(CArithmetic, q, offset, size, arrayLen); w.end <= w.first
    ensures CompiledFold(sub, q, offset, size, arrayLen) == NoClass
  {
  }

  lemma CharCounts(nodes: seq<Node>, q: nat, off: nat)
    requires q <= off < q + 8
    requires forall n :: n in [Node(off + 0, 1, 1, Integer)] ==> n in nodes
    ensures AbiClass(nodes, q) != NoClass
  {
    var n := Node(off + 0, 1, 1, Integer);
    assert n in [Node(off + 0, 1, 1, Integer)];
    assert Overlaps(n, q) && n.cls == Integer;
  }

  /** A window that starts below zero shows the last byte of an element that is not there. */
  lemma PhantomIsWrong(q: nat, offset: nat, size: nat, arrayLen: nat)
    requires q == 0 || q == 8
    requires q < offset < q + 8 && 0 < size <= 16 && !LostSize(size) && offset + size > q + 8 && 0 < arrayLen <= 16
    ensures var sub := LoneChar(size, size - 1);
            CompiledFold(sub, q, offset, size, arrayLen) != AbiClass(NodesOfElements(sub, offset, size, arrayLen), q)
  {
    hide *;
    var sub := LoneChar(size, size - 1);
    CWindowWraps(q, offset, size, arrayLen);
    PhantomSeen(q, offset, size);
    CompiledFoldCounts(sub, q, offset, size, arrayLen, -1);
    LaterNodes(size, q, offset, arrayLen);
    NothingThere(NodesOfElements(sub, offset, size, arrayLen), q);
    IntegerRank(CompiledFold(sub, q, offset, size, arrayLen));
  }

  /** The element before the first one ends where the field starts. */
  lemma PhantomSeen(q: nat, offset: nat, size: nat)
    requires q < offset < q + 8 && 0 < size <= 16 && q <= 8
    ensures ClassOf(CArithmetic, LoneChar(size, size - 1), q, I32(offset + size * -1)) == Integer
  {
    assert I32(offset + size * -1) == offset - size;
    LoneCharClass(size, size - 1, q, offset - size);
  }

  lemma CompiledFoldCounts(sub: Aggr, q: nat, offset: nat, size: nat, arrayLen: nat, e: int)
    requires size > 0 && var w := WindowOf(CArithmetic, q, offset, size, arrayLen); w.first <= e < w.end
    ensures Rank(ClassOf(CArithmetic, sub, q, I32(offset + size * e)))
            <= Rank(CompiledFold(sub, q, offset, size, arrayLen))
  {
    var w := WindowOf(CArithmetic, q, offset, size, arrayLen);
    ElementCounts(CArithmetic, sub, q, offset, size, w.first, w.end, e);
  }

  lemma NothingThere(nodes: seq<Node>, q: nat)
    requires forall n :: n in nodes ==> n.off >= q + 8
    ensures AbiClass(nodes, q) == NoClass
  {
  }

  lemma IntegerRank(c: Class)
    requires Rank(Integer) <= Rank(c)
    ensures c != NoClass
  {
  }

  lemma {:induction false} ElementCounts(rule: WindowRule, sub: Aggr, q: nat, offset: nat, size: nat,
                                         first: int, end: int, e: int)
    requires first <= e < end
    ensures Rank(ClassOf(rule, sub, q, I32(offset + size * e)))
            <= Rank(ClassOfElements(rule, sub, q, offset, size, first, end))
    decreases end - e
  {
    hide ClassOf, I32;
    if e < end - 1 {
      ElementCounts(rule, sub, q, offset, size, first, end - 1, e);
    }
  }

  lemma {:induction false} LaterNodes(size: nat, q: nat, offset: nat, count: nat)
    requires size > 0 && offset + size > q + 8
    ensures forall n :: n in NodesOfElements(LoneChar(size, size - 1), offset, size, count) ==> n.off >= q + 8
    decreases count
  {
    if count > 0 {
      LaterNodes(size, q, offset, count - 1);
      LoneCharNodes(size, size - 1, offset + size * (count - 1));
      MulMonotone(size, 0, count - 1);
    }
  }
}
