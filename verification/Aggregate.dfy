/**
  Aggregate descriptions (dyncall_aggregate.c): dcNewAggr and dcAggrField, with the
  sizes of an LP64 target.
 */
module Aggregate {
  import opened Alignment

  datatype Option<+T> = None | Some(value: T)

  /** DCfield; `sub` is the description of an aggregate-typed field. */
  datatype Field = Field(
    typ: char,
    offset: nat,
    size: nat,
    alignment: nat,
    arrayLen: nat,
    sub: Option<Aggr>)
  {
    /** Number of bytes the field covers, all array elements together. */
    function Extent(): nat {
      size * arrayLen
    }
  }

  /** DCaggr without its System V classes, which Classify.dfy derives. */
  datatype Aggr = Aggr(size: nat, alignment: nat, fields: seq<Field>)

  predicate IsIntegral(typ: char) {
    typ in "BcCsSiIjJlLZp"
  }

  predicate IsFloating(typ: char) {
    typ == 'f' || typ == 'd'
  }

  /** The field types dcAggrField accepts; it asserts on any other. */
  predicate Supported(typ: char) {
    IsIntegral(typ) || IsFloating(typ) || typ == 'A'
  }

  function ScalarSize(typ: char): (r: nat)
    ensures r in {1, 2, 4, 8}
    ensures IsFloating(typ) ==> r >= 4
  {
    match typ
    case 'c' => 1
    case 'C' => 1
    case 's' => 2
    case 'S' => 2
    case 'B' => 4
    case 'i' => 4
    case 'I' => 4
    case 'f' => 4
    case _ => 8
  }

  function NewField(typ: char, offset: nat, arrayLen: nat, sub: Option<Aggr>): Field
    requires typ == 'A' <==> sub.Some?
  {
    match sub
    case None => Field(typ, offset, ScalarSize(typ), ScalarSize(typ), arrayLen, None)
    case Some(s) => Field(typ, offset, s.size, s.alignment, arrayLen, sub)
  }

  /** The aggregate after one dcAggrField. */
  function AddField(ag: Aggr, f: Field): Aggr {
    Aggr(ag.size, if ag.alignment < f.alignment then f.alignment else ag.alignment, ag.fields + [f])
  }

  /** What dcNewAggr and dcAggrField can produce, with every sub-aggregate produced the same way. */
  predicate Built(ag: Aggr) {
    && (forall f :: f in ag.fields ==> f.alignment <= ag.alignment && BuiltField(f))
    && ag.alignment in {0, 1, 2, 4, 8}
    && (ag.alignment != 0 ==> exists f :: f in ag.fields && f.alignment == ag.alignment)
  }

  predicate BuiltField(f: Field) {
    && Supported(f.typ)
    && (f.typ == 'A' <==> f.sub.Some?)
    && f == NewField(f.typ, f.offset, f.arrayLen, f.sub)
    && (f.sub.Some? ==> Built(f.sub.value))
  }

  /** The size is a multiple of the alignment, as sizeof makes it. */
  predicate SizeFitsAlignment(ag: Aggr) {
    OnBoundary(ag.size, ag.alignment)
  }

  /**
    What the manual asks of every nested level: an array has elements (a field that is no array
    has length 1), and the size of a nested aggregate is the one sizeof gives.
   */
  predicate Described(ag: Aggr) {
    forall f :: f in ag.fields ==>
      f.arrayLen > 0 && (f.sub.Some? ==> SizeFitsAlignment(f.sub.value) && Described(f.sub.value))
  }

  /** The invariant of building: alignment is the largest field alignment, whatever the order of the calls. */
  lemma AddFieldKeepsBuilt(ag: Aggr, typ: char, offset: nat, arrayLen: nat, sub: Option<Aggr>)
    requires Built(ag) && Supported(typ) && (typ == 'A' <==> sub.Some?)
    requires sub.Some? ==> Built(sub.value)
    ensures Built(AddField(ag, NewField(typ, offset, arrayLen, sub)))
  {
    var f := NewField(typ, offset, arrayLen, sub);
    var r := AddField(ag, f);
    assert f.alignment in {0, 1, 2, 4, 8};
    forall g | g in r.fields ensures g.alignment <= r.alignment && BuiltField(g) {
      assert g in ag.fields || g == f;
    }
    if r.alignment == f.alignment {
      assert r.fields[|ag.fields|] == f;
    } else {
      var g :| g in ag.fields && g.alignment == ag.alignment;
      assert g in r.fields;
    }
  }

  /** DCaggr under construction. */
  class Descriptor {
    const size: nat
    var alignment: nat
    var fields: seq<Field>

    ghost function Value(): Aggr
      reads this
    {
      Aggr(size, alignment, fields)
    }

    /** dcNewAggr */
    constructor (size: nat)
      ensures Value() == Aggr(size, 0, []) && Built(Value())
    {
      this.size := size;
      alignment := 0;
      fields := [];
    }

    /** dcAggrField */
    method DeclareField(typ: char, offset: nat, arrayLen: nat, sub: Option<Aggr>)
      requires Supported(typ) && (typ == 'A' <==> sub.Some?)
      requires Built(Value()) && (sub.Some? ==> Built(sub.value))
      modifies this
      ensures Value() == AddField(old(Value()), NewField(typ, offset, arrayLen, sub))
      ensures Built(Value())
    {
      AddFieldKeepsBuilt(Value(), typ, offset, arrayLen, sub);
      var f := NewField(typ, offset, arrayLen, sub);
      fields := fields + [f];
      if alignment < f.alignment {
        alignment := f.alignment;
      }
    }
  }
}
