/**
  Concrete aggregates with a struct at byte 4, for which the compiled classifier is wrong, or
  right by luck.
 */
module Misclassified {
  import opened Alignment
  import opened Aggregate
  import opened Classify
  import opened FlatAbi
  import opened FlatProof

  function FloatInt(): Aggr {
    Aggr(8, 4, [NewField('f', 0, 1, None), NewField('i', 4, 1, None)])
  }

  function ThreeInts(): Aggr {
    Aggr(12, 4, [NewField('i', 0, 3, None)])
  }

  function Tail(sub: Aggr): Field {
    NewField('A', 4, 1, Some(sub))
  }

  /** struct { T; struct S; } with a four-byte scalar T and S at offset 4 */
  function ScalarThen(typ: char, sub: Aggr): Aggr
    requires typ != 'A'
  {
    Aggr(4 + sub.size, 4, [NewField(typ, 0, 1, None), Tail(sub)])
  }

  /** struct { int :32; struct S; }: an unnamed bit-field is no field */
  function GapThen(sub: Aggr): Aggr {
    Aggr(4 + sub.size, 4, [Tail(sub)])
  }

  // --- the descriptions are in order --------------------------------------------------------

  predicate ProperField(f: Field) {
    && Supported(f.typ) && (f.typ == 'A' <==> f.sub.Some?) && f == NewField(f.typ, f.offset, f.arrayLen, f.sub)
    && f.arrayLen > 0 && (f.sub.Some? ==> Proper(f.sub.value))
  }

  /** A description built field by field from proper parts. */
  lemma ProperByFields(ag: Aggr)
    requires forall f :: f in ag.fields ==>
               ProperField(f) && f.alignment <= ag.alignment && f.offset + f.Extent() <= ag.size
    requires IsAlignment(ag.alignment) && SizeFitsAlignment(ag)
    requires exists f :: f in ag.fields && f.alignment == ag.alignment
    ensures Proper(ag)
  {
  }

  lemma InnerIsProper()
    ensures Proper(FloatInt()) && Proper(ThreeInts())
  {
    assert FloatInt().fields[0] in FloatInt().fields;
    ProperByFields(FloatInt());
    assert ThreeInts().fields[0] in ThreeInts().fields;
    ProperByFields(ThreeInts());
  }

  lemma OuterIsProper(typ: char, sub: Aggr)
    requires typ == 'f' || typ == 'i'
    requires sub.alignment == 4 && Proper(sub) && sub.size % 4 == 0
    ensures Proper(ScalarThen(typ, sub)) && Proper(GapThen(sub))
  {
    hide Proper;
    assert ScalarThen(typ, sub).fields[1] == Tail(sub);
    ProperByFields(ScalarThen(typ, sub));
    assert GapThen(sub).fields[0] == Tail(sub);
    ProperByFields(GapThen(sub));
  }

  // --- evaluating the classifier ------------------------------------------------------------

  lemma TwoFields(rule: WindowRule, ag: Aggr, base: int)
    requires |ag.fields| == 2
    ensures ClassOf(rule, ag, 0, base)
         == Merge(ClassOfField(rule, ag.fields[0], 0, base), ClassOfField(rule, ag.fields[1], 0, base))
  {
    hide ClassOfField;
    assert ClassOfFields(rule, ag, 0, 0, base) == NoClass;
    assert ClassOfFields(rule, ag, 1, 0, base) == ClassOfField(rule, ag.fields[0], 0, base);
  }

  lemma OneField(rule: WindowRule, ag: Aggr, q: nat, base: int)
    requires |ag.fields| == 1
    ensures ClassOf(rule, ag, q, base) == ClassOfField(rule, ag.fields[0], q, base)
  {
    hide ClassOfField;
    assert ClassOfFields(rule, ag, 0, q, base) == NoClass;
  }

  lemma ScalarClass(rule: WindowRule, typ: char, offset: nat, base: int)
    requires (typ == 'f' || typ == 'i') && base in {-4, 0, 4} && offset in {0, 4}
    ensures ClassOfField(rule, NewField(typ, offset, 1, None), 0, base)
         == if 0 <= base + offset < 8 then LeafClass(typ) else NoClass
  {
    assert U64(-4) == 0xFFFF_FFFF_FFFF_FFFC;
  }

  lemma FloatIntAt(rule: WindowRule, base: int)
    requires base == -4 || base == 4
    ensures ClassOf(rule, FloatInt(), 0, base) == if base == -4 then Integer else Sse
  {
    hide ClassOfField, ClassOf;
    TwoFields(rule, FloatInt(), base);
    ScalarClass(rule, 'f', 0, base);
    ScalarClass(rule, 'i', 4, base);
  }

  lemma ThreeIntsAt4(rule: WindowRule, q: nat)
    requires q == 0 || q == 8
    ensures ClassOf(rule, ThreeInts(), q, 4) == Integer
  {
    OneField(rule, ThreeInts(), q, 4);
  }

  /** The struct at byte 4 contributes the elements of its window. */
  lemma TailClass(rule: WindowRule, sub: Aggr, q: nat, w: Window)
    requires q == 0 || q == 8
    requires sub.alignment == 4 && q < 4 + sub.size && 0 < sub.size <= 12 && w == WindowOf(rule, q, 4, sub.size, 1)
    ensures ClassOfField(rule, Tail(sub), q, 0) == ClassOfElements(rule, sub, q, 4, sub.size, w.first, w.end)
  {
    hide ClassOfElements, WindowOf;
  }

  lemma OneElement(rule: WindowRule, sub: Aggr, q: nat, size: nat, e: int)
    ensures ClassOfElements(rule, sub, q, 4, size, e, e) == NoClass
    ensures ClassOfElements(rule, sub, q, 4, size, e, e + 1) == ClassOf(rule, sub, q, I32(4 + size * e))
  {
    hide ClassOf, I32;
  }

  lemma WindowsAtFour()
    ensures WindowOf(CArithmetic, 0, 4, 8, 1) == Window(-1, 1)
    ensures WindowOf(CArithmetic, 0, 4, 12, 1) == Window(0x5555_5555, 1)
    ensures WindowOf(CArithmetic, 8, 4, 12, 1) == Window(0, 1)
    ensures WindowOf(FromFirstElement, 0, 4, 8, 1) == WindowOf(FromFirstElement, 0, 4, 12, 1) == Window(0, 1)
    ensures WindowOf(FromFirstElement, 8, 4, 12, 1) == Window(0, 1)
  {
    Wrapped(8, 0x1FFF_FFFF_FFFF_FFFF, -1);
    Wrapped(12, 0x1555_5555_5555_5555, 0x5555_5555);
    assert U64(8 - 4) == 4 && I32(4 / 12) == 0;
    Ends();
    hide CWindow, I32, U64;
  }

  lemma Wrapped(size: nat, quotient: nat, j: int)
    requires size > 0 && 0xFFFF_FFFF_FFFF_FFFC / size == quotient && I32(quotient) == j
    ensures I32(U64(0 - 4) / size) == j
  {
  }

  lemma Ends()
    ensures CWindow(-1, 1, 1) == Window(-1, 1)
    ensures CWindow(0x5555_5555, 0, 1) == Window(0x5555_5555, 1)
    ensures CWindow(0, 0, 1) == Window(0, 1)
  {
  }

  /** The phantom is the struct at byte -4, whose int appears at byte 0. */
  lemma FloatIntTail()
    ensures ClassOfField(CArithmetic, Tail(FloatInt()), 0, 0) == Integer
    ensures ClassOfField(FromFirstElement, Tail(FloatInt()), 0, 0) == Sse
  {
    hide ClassOfField, ClassOfElements, ClassOf, WindowOf;
    var sub := FloatInt();
    WindowsAtFour();
    TailClass(CArithmetic, sub, 0, Window(-1, 1));
    TailClass(FromFirstElement, sub, 0, Window(0, 1));
    FloatIntAt(CArithmetic, -4);
    FloatIntAt(CArithmetic, 4);
    FloatIntAt(FromFirstElement, 4);
    OneElement(FromFirstElement, sub, 0, 8, 0);
    OneElement(CArithmetic, sub, 0, 8, -1);
    OneElement(CArithmetic, sub, 0, 8, 0);
    ElementsSplit(CArithmetic, sub, 0, 4, 8, -1, 0, 1);
  }

  /** The truncated index is far beyond the array: the struct is not looked at in the first eightbyte. */
  lemma ThreeIntsTail()
    ensures ClassOfField(CArithmetic, Tail(ThreeInts()), 0, 0) == NoClass
    ensures ClassOfField(FromFirstElement, Tail(ThreeInts()), 0, 0) == Integer
    ensures ClassOfField(CArithmetic, Tail(ThreeInts()), 8, 0) == Integer
    ensures ClassOfField(FromFirstElement, Tail(ThreeInts()), 8, 0) == Integer
  {
    hide ClassOfField, ClassOf, WindowOf;
    var sub := ThreeInts();
    WindowsAtFour();
    TailClass(CArithmetic, sub, 0, Window(0x5555_5555, 1));
    TailClass(FromFirstElement, sub, 0, Window(0, 1));
    TailClass(CArithmetic, sub, 8, Window(0, 1));
    TailClass(FromFirstElement, sub, 8, Window(0, 1));
    ThreeIntsAt4(FromFirstElement, 8);
    ThreeIntsAt4(FromFirstElement, 0);
    ThreeIntsAt4(CArithmetic, 8);
    OneElement(FromFirstElement, sub, 0, 12, 0);
    OneElement(CArithmetic, sub, 8, 12, 0);
    OneElement(FromFirstElement, sub, 8, 12, 0);
  }

  // --- what comes out -----------------------------------------------------------------------

  /** `{ float; struct { float; int } }`: the first eightbyte holds two floats and becomes INTEGER. */
  lemma PhantomElement()
    ensures ClassOf(CArithmetic, ScalarThen('f', FloatInt()), 0, 0) == Integer
    ensures AbiClass(NodesOf(ScalarThen('f', FloatInt()), 0), 0) == Sse
  {
    hide AbiClass, NodesOf, ClassOf, ClassOfField;
    ScalarThenClasses('f', FloatInt());
    FloatIntTail();
  }

  /** `{ int; struct { float; int } }`: the same phantom, but the class is INTEGER anyway. */
  lemma MaskedPhantom()
    ensures ClassOf(CArithmetic, ScalarThen('i', FloatInt()), 0, 0) == Integer
    ensures AbiClass(NodesOf(ScalarThen('i', FloatInt()), 0), 0) == Integer
  {
    hide AbiClass, NodesOf, ClassOf, ClassOfField;
    ScalarThenClasses('i', FloatInt());
    FloatIntTail();
  }

  /** `{ float; struct { int[3] } }`: the first eightbyte stays SSE although it holds an int. */
  lemma MissedElement()
    ensures ClassOf(CArithmetic, ScalarThen('f', ThreeInts()), 0, 0) == Sse
    ensures AbiClass(NodesOf(ScalarThen('f', ThreeInts()), 0), 0) == Integer
  {
    hide AbiClass, NodesOf, ClassOf, ClassOfField;
    ScalarThenClasses('f', ThreeInts());
    ThreeIntsTail();
  }

  lemma ScalarThenClasses(typ: char, sub: Aggr)
    requires (typ == 'f' || typ == 'i') && (sub == FloatInt() || sub == ThreeInts())
    ensures var ag := ScalarThen(typ, sub);
            && ClassOf(CArithmetic, ag, 0, 0) == Merge(LeafClass(typ), ClassOfField(CArithmetic, Tail(sub), 0, 0))
            && AbiClass(NodesOf(ag, 0), 0) == Merge(LeafClass(typ), ClassOfField(FromFirstElement, Tail(sub), 0, 0))
  {
    hide AbiClass, NodesOf, ClassOf, ClassOfField;
    var ag := ScalarThen(typ, sub);
    TwoFields(CArithmetic, ag, 0);
    TwoFields(FromFirstElement, ag, 0);
    ScalarClass(CArithmetic, typ, 0, 0);
    ScalarClass(FromFirstElement, typ, 0, 0);
    InnerIsProper();
    OuterIsProper(typ, sub);
    ClassifierIsAbi(FromFirstElement, ag, 0, 0);
  }

  /**
    `{ int :32; struct { int[3] } }`: both eightbytes hold ints, yet the first class is NONE,
    with which the list of classes ends.
   */
  lemma DroppedAggregate()
    ensures ClassOf(CArithmetic, GapThen(ThreeInts()), 0, 0) == NoClass
    ensures ClassOf(CArithmetic, GapThen(ThreeInts()), 8, 0) == Integer
    ensures AbiClass(NodesOf(GapThen(ThreeInts()), 0), 0) == Integer
    ensures AbiClass(NodesOf(GapThen(ThreeInts()), 0), 8) == Integer
  {
    hide AbiClass, NodesOf, ClassOf, ClassOfField;
    var ag := GapThen(ThreeInts());
    ThreeIntsTail();
    OneField(CArithmetic, ag, 0, 0);
    OneField(CArithmetic, ag, 8, 0);
    OneField(FromFirstElement, ag, 0, 0);
    OneField(FromFirstElement, ag, 8, 0);
    InnerIsProper();
    OuterIsProper('i', ThreeInts());
    ClassifierIsAbi(FromFirstElement, ag, 0, 0);
    ClassifierIsAbi(FromFirstElement, ag, 8, 0);
  }

  /** struct { float; int[0]; } */
  function FloatAndNothing(): Aggr {
    Aggr(4, 4, [NewField('f', 0, 1, None), NewField('i', 4, 0, None)])
  }

  /** The array has no byte, but with either reading of the window the float's eightbyte becomes INTEGER. */
  lemma EmptyArray(rule: WindowRule)
    ensures var ag := FloatAndNothing();
            && Built(ag) && WellNested(ag) && SizeFitsAlignment(ag)
            && ClassOf(rule, ag, 0, 0) == Integer && AbiClass(NodesOf(ag, 0), 0) == Sse
  {
    hide ClassOf, ClassOfField, AbiClass, NodesOf;
    var ag := FloatAndNothing();
    assert ag.fields[0] in ag.fields;
    TwoFields(rule, ag, 0);
    EmptyArrayFields(rule);
    EmptyArrayNodes();
  }

  lemma EmptyArrayFields(rule: WindowRule)
    ensures ClassOfField(rule, FloatAndNothing().fields[0], 0, 0) == Sse
    ensures ClassOfField(rule, FloatAndNothing().fields[1], 0, 0) == Integer
  {
  }

  lemma EmptyArrayNodes()
    ensures AbiClass(NodesOf(FloatAndNothing(), 0), 0) == Sse
  {
    TwoFieldNodes(FloatAndNothing());
    var n, m := Node(0, 4, 4, Sse), Node(4, 0, 4, Integer);
    var nodes := NodesOf(FloatAndNothing(), 0);
    assert nodes == [n] + [m];
    hide NodesOf, NodesOfField;
    assert n in nodes && Overlaps(n, 0) && !Overlaps(m, 0);
    assert forall x :: x in nodes ==> x == n || x == m;
  }

  lemma TwoFieldNodes(ag: Aggr)
    requires |ag.fields| == 2
    ensures NodesOf(ag, 0) == NodesOfField(ag.fields[0], 0) + NodesOfField(ag.fields[1], 0)
  {
    hide NodesOfField;
    assert NodesOfFields(ag, 0, 0) == [];
    assert NodesOfFields(ag, 1, 0) == NodesOfField(ag.fields[0], 0);
  }
}
