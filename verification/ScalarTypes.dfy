/**
  The table of scalar types, written out: size and class of every type character, for an
  LP64 target (dyncall_aggregate.c, lines 62 to 96; dyncall_aggregate_x64.c, lines 80 to 98).
 */
module ScalarTypes {
  import opened Aggregate
  import opened Classify
  import opened FlatAbi

  predicate IsScalarType(typ: char) {
    typ in "BcCsSiIjJlLZpfd"
  }

  /** sizeof the type, which is its alignment. */
  function SizeOf(typ: char): (n: nat)
    requires IsScalarType(typ)
    ensures n in {1, 2, 4, 8}
  {
    if typ == 'c' || typ == 'C' then 1
    else if typ == 's' || typ == 'S' then 2
    else if typ == 'B' || typ == 'i' || typ == 'I' || typ == 'f' then 4
    else 8
  }

  /** float and double are SSE; bool, integers, strings and pointers are INTEGER. */
  function ClassOfType(typ: char): Class
    requires IsScalarType(typ)
  {
    match typ
    case 'f' => Sse
    case 'd' => Sse
    case _ => Integer
  }

  /** dcAggrField accepts these types and 'A', and gives a scalar field the size and alignment of its type. */
  lemma ScalarFields(typ: char, offset: nat, arrayLen: nat)
    ensures Supported(typ) <==> IsScalarType(typ) || typ == 'A'
    ensures IsScalarType(typ) ==>
              NewField(typ, offset, arrayLen, None) == Field(typ, offset, SizeOf(typ), SizeOf(typ), arrayLen, None)
  {
  }

  /** What one field of a scalar type makes of the eightbyte at `q`. */
  function ClassOfLone(typ: char, offset: nat, arrayLen: nat, q: nat): Class
    requires IsScalarType(typ)
  {
    if offset >= q + 8 || offset + SizeOf(typ) * arrayLen <= q then NoClass
    else if offset % SizeOf(typ) != 0 then Memory
    else ClassOfType(typ)
  }

  /**
    An aggregate with a single field of any scalar type: each eightbyte the field reaches has
    the class of the type, or MEMORY if the field is misaligned, and the other, if any, has none;
    for the classifier with either window and for the ABI.
   */
  lemma LoneScalar(rule: WindowRule, typ: char, offset: nat, arrayLen: nat, size: nat, q: nat)
    requires IsScalarType(typ) && arrayLen > 0
    requires offset + SizeOf(typ) * arrayLen <= size <= 16 && (q == 0 || q == 8)
    ensures var ag := Aggr(size, SizeOf(typ), [Field(typ, offset, SizeOf(typ), SizeOf(typ), arrayLen, None)]);
            && ClassOf(rule, ag, q, 0) == ClassOfLone(typ, offset, arrayLen, q)
            && AbiClass(NodesOf(ag, 0), q) == ClassOfLone(typ, offset, arrayLen, q)
  {
    hide AbiClass, ClassOfField, SizeOf;
    var n := SizeOf(typ);
    var f := Field(typ, offset, n, n, arrayLen, None);
    var ag := Aggr(size, n, [f]);
    LeafTable(typ);
    ScalarFieldClass(rule, f, q);
    OneFieldClass(rule, ag, q);
    OneFieldNodes(ag);
    assert NodesOf(ag, 0) == [Node(offset, n * arrayLen, n, ClassOfType(typ))];
    OneNodeClass(Node(offset, n * arrayLen, n, ClassOfType(typ)), q);
  }

  lemma LeafTable(typ: char)
    requires IsScalarType(typ)
    ensures LeafClass(typ) == ClassOfType(typ)
  {
  }

  lemma ScalarFieldClass(rule: WindowRule, f: Field, q: nat)
    requires IsScalarType(f.typ) && f == Field(f.typ, f.offset, SizeOf(f.typ), SizeOf(f.typ), f.arrayLen, None)
    requires f.offset + f.Extent() <= 16
    ensures ClassOfField(rule, f, q, 0) == ClassOfLone(f.typ, f.offset, f.arrayLen, q)
  {
    assert U64(0 + f.offset) == f.offset && U64(f.offset + f.Extent()) == f.offset + f.Extent();
    LeafTable(f.typ);
    hide SizeOf;
  }

  lemma OneFieldClass(rule: WindowRule, ag: Aggr, q: nat)
    requires |ag.fields| == 1
    ensures ClassOf(rule, ag, q, 0) == ClassOfField(rule, ag.fields[0], q, 0)
  {
    hide ClassOfField;
    assert ClassOfFields(rule, ag, 0, q, 0) == NoClass;
  }

  lemma OneFieldNodes(ag: Aggr)
    requires |ag.fields| == 1
    ensures NodesOf(ag, 0) == NodesOfField(ag.fields[0], 0)
  {
    hide NodesOfField;
    assert NodesOfFields(ag, 0, 0) == [];
  }

  lemma OneNodeClass(n: Node, q: nat)
    requires n.cls in {Integer, Sse} && n.alignment > 0 && n.extent > 0
    ensures AbiClass([n], q)
         == if n.off >= q + 8 || n.off + n.extent <= q then NoClass
            else if n.off % n.alignment != 0 then Memory else n.cls
  {
    assert n in [n];
    assert Overlaps(n, q) <==> n.off < q + 8 && q < n.off + n.extent;
  }
}
