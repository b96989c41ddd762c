/**
  The flat definition of section 3.2.3 of the System V AMD64 psABI: an aggregate is the
  collection of its nodes (fields at every depth, array elements written out), and the class
  of an eightbyte is read off the nodes that overlap it. The recursive classifier is proved
  equal to it.
 */
module FlatAbi {
  import opened Alignment
  import opened Aggregate
  import opened Classify
  import opened Windows

  /** A field at its absolute offset; aggregate-typed fields carry no class of their own. */
  datatype Node = Node(off: nat, extent: nat, alignment: nat, cls: Class)

  function LeafClass(typ: char): Class {
    if IsIntegral(typ) then Integer else if IsFloating(typ) then Sse else NoClass
  }

  function NodesOf(ag: Aggr, base: nat): seq<Node>
    decreases ag, 2, 0
  {
    NodesOfFields(ag, |ag.fields|, base)
  }

  function NodesOfFields(ag: Aggr, n: nat, base: nat): seq<Node>
    requires n <= |ag.fields|
    decreases ag, 1, n
  {
    if n == 0 then [] else NodesOfFields(ag, n - 1, base) + NodesOfField(ag.fields[n - 1], base)
  }

  /** An empty aggregate has no contents. */
  function NodesOfField(f: Field, base: nat): seq<Node>
    decreases f, 0, 0
  {
    [Node(base + f.offset, f.Extent(), f.alignment, LeafClass(f.typ))] +
    (if f.sub.Some? && f.size != 0 then NodesOfElements(f.sub.value, base + f.offset, f.size, f.arrayLen) else [])
  }

  function NodesOfElements(sub: Aggr, offset: nat, size: nat, count: nat): seq<Node>
    decreases sub, 3, count
  {
    if count == 0 then []
    else NodesOfElements(sub, offset, size, count - 1) + NodesOf(sub, offset + size * (count - 1))
  }

  /** The node has a byte in the eightbyte at `q`. */
  predicate Overlaps(n: Node, q: nat) {
    n.extent > 0 && n.off < q + 8 && q < n.off + n.extent
  }

  predicate Misaligned(n: Node) {
    n.alignment != 0 && n.off % n.alignment != 0
  }

  /** The class of the eightbyte at byte `q`. */
  ghost function AbiClass(nodes: seq<Node>, q: nat): Class {
    if exists n :: n in nodes && Overlaps(n, q) && Misaligned(n) then Memory
    else if exists n :: n in nodes && Overlaps(n, q) && n.cls == Integer then Integer
    else if exists n :: n in nodes && Overlaps(n, q) && n.cls == Sse then Sse
    else NoClass
  }

  /** Every field stays inside its aggregate, at every depth. */
  predicate WellNested(ag: Aggr) {
    forall f :: f in ag.fields ==> f.offset + f.Extent() <= ag.size && WellNestedField(f)
  }

  predicate WellNestedField(f: Field) {
    && (f.typ == 'A' <==> f.sub.Some?)
    && (f.sub.Some? ==> f.size == f.sub.value.size && WellNested(f.sub.value))
  }

  /** A node without bytes strictly inside the eightbyte: the classifier's test takes it for overlapping. */
  predicate IsEmptyInside(n: Node, q: nat) {
    n.extent == 0 && q < n.off < q + 8
  }

  /** What an overlapping node asks for. */
  function Verdict(n: Node): Class {
    if Misaligned(n) then Memory else n.cls
  }

  function Rank(c: Class): nat {
    match c
    case NoClass => 0
    case Sse => 1
    case Integer => 2
    case Memory => 3
  }

  /** Nodes without bytes do not raise the class. */
  ghost predicate EmptyNodesAddNothing(nodes: seq<Node>, q: nat) {
    forall n :: n in nodes && IsEmptyInside(n, q) ==> Rank(Verdict(n)) <= Rank(AbiClass(nodes, q))
  }

  /**
    Every aggregate-typed field that overlaps the eightbyte at `q` starts at or before it, or
    so that the compiled window does no harm; and the same holds inside its elements. A
    misaligned field decides the class whatever it contains.
   */
  predicate Harmless(ag: Aggr, q: nat, base: nat)
    decreases ag, 2, 0
  {
    forall i :: 0 <= i < |ag.fields| ==> FieldHarmless(ag.fields[i], q, base)
  }

  predicate FieldHarmless(f: Field, q: nat, base: nat)
    decreases f, 0, 0
  {
    f.sub.Some? && f.size != 0 && base + f.offset < q + 8 && q < base + f.offset + f.Extent() &&
    (f.alignment == 0 || (base + f.offset) % f.alignment == 0) ==>
      && (base + f.offset <= q || (HarmlessStart(base + f.offset - q, f.size) && f.arrayLen > 0 && Proper(f.sub.value)))
      && forall e :: 0 <= e < f.arrayLen ==> Harmless(f.sub.value, q, base + f.offset + f.size * e)
  }

  /** Declared as dcAggrField does it and described as the manual asks. */
  predicate Proper(ag: Aggr) {
    Built(ag) && WellNested(ag) && Described(ag) && SizeFitsAlignment(ag)
  }
}
