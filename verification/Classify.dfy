/**
  System V AMD64 classification of aggregates (dyncall_aggregate_x64.c), against the flat
  reading of section 3.2.3 of the System V AMD64 psABI.

  The C code computes which elements of an array of aggregates to visit with an unsigned
  subtraction that wraps when the field starts inside the eightbyte. `WindowRule` selects
  between that arithmetic and the window its comment describes; everything else is shared.
 */
module Classify {
  import opened Aggregate

  datatype Class = NoClass | Sse | Integer | Memory

  /** dc_merge_sysv_classes */
  function Merge(a: Class, b: Class): Class {
    if a == NoClass then b
    else if b == NoClass then a
    else if a == Memory || b == Memory then Memory
    else if a == Integer || b == Integer then Integer
    else Sse
  }

  /** DCsize and int of an LP64 target. */
  function U64(x: int): (r: nat) {
    x % 0x1_0000_0000_0000_0000
  }

  function I32(x: int): (r: int)
    ensures -0x8000_0000 <= r < 0x8000_0000
    ensures -0x8000_0000 <= x < 0x8000_0000 ==> r == x
  {
    (x + 0x8000_0000) % 0x1_0000_0000 - 0x8000_0000
  }

  datatype WindowRule =
    | CArithmetic     // as compiled: unsigned difference, int truncation
    | FromFirstElement // as commented: starts at element 0 when the field starts inside the eightbyte

  datatype Window = Window(first: int, end: int)

  function WindowOf(rule: WindowRule, q: nat, offset: nat, size: nat, arrayLen: nat): Window
    requires size > 0
  {
    match rule
    case CArithmetic => CWindow(I32(U64(q - offset) / size), 8 / size, arrayLen)
    case FromFirstElement =>
      var j := if offset <= q then (q - offset) / size else 0;
      var k := 8 / size + j + 1;
      Window(j, if k > arrayLen then arrayLen else k)
  }

  /**
    `j` is the first element, `c` the number of whole elements in an eightbyte; `k > array_len`
    compares as unsigned.
   */
  function CWindow(j: int, c: nat, arrayLen: nat): Window {
    var k := I32(c + U64(j) + 1);
    Window(j, if U64(k) > arrayLen then I32(arrayLen) else k)
  }

  /** dc_get_sysv_class_for_8byte, `q` being the byte offset of the eightbyte. */
  function ClassOf(rule: WindowRule, ag: Aggr, q: nat, base: int): Class
    decreases ag, 2, 0
  {
    ClassOfFields(rule, ag, |ag.fields|, q, base)
  }

  function ClassOfFields(rule: WindowRule, ag: Aggr, n: nat, q: nat, base: int): Class
    requires n <= |ag.fields|
    decreases ag, 1, n
  {
    if n == 0 then NoClass
    else Merge(ClassOfFields(rule, ag, n - 1, q, base), ClassOfField(rule, ag.fields[n - 1], q, base))
  }

  function ClassOfField(rule: WindowRule, f: Field, q: nat, base: int): Class
    decreases f, 0, 0
  {
    var offset := U64(base + f.offset);
    if offset >= q + 8 || U64(offset + f.Extent()) <= q then NoClass
    else if f.alignment != 0 && offset % f.alignment != 0 then Memory
    else if IsIntegral(f.typ) then Integer
    else if IsFloating(f.typ) then Sse
    else if f.sub.Some? && f.size != 0 then
      var w := WindowOf(rule, q, offset, f.size, f.arrayLen);
      ClassOfElements(rule, f.sub.value, q, offset, f.size, w.first, w.end)
    else NoClass
  }

  function ClassOfElements(rule: WindowRule, sub: Aggr, q: nat, offset: nat, size: nat, first: int, end: int): Class
    decreases sub, 3, end - first
  {
    if end <= first then NoClass
    else Merge(ClassOfElements(rule, sub, q, offset, size, first, end - 1),
               ClassOf(rule, sub, q, I32(offset + size * (end - 1))))
  }

  lemma {:induction false} MemoryAbsorbs(rule: WindowRule, ag: Aggr, i: nat, n: nat, q: nat, base: int)
    requires i < n <= |ag.fields| && ClassOfField(rule, ag.fields[i], q, base) == Memory
    ensures ClassOfFields(rule, ag, n, q, base) == Memory
  {
    if i < n - 1 {
      MemoryAbsorbs(rule, ag, i, n - 1, q, base);
    }
  }

  /** The loop nest of dc_get_sysv_class_for_8byte computes `ClassOf` under the arithmetic of C. */
  method ClassFor8byte(ag: Aggr, index: nat, base: int) returns (clz: Class)
    requires index <= 1
    ensures clz == ClassOf(CArithmetic, ag, 8 * index, base)
    decreases ag, 0
  {
    var q := index * 8;
    clz := NoClass;
    for i := 0 to |ag.fields|
      invariant clz == ClassOfFields(CArithmetic, ag, i, q, base)
    {
      var f := ag.fields[i];
      var offset := U64(base + f.offset);
      if offset >= q + 8 || U64(offset + f.size * f.arrayLen) <= q {
        continue;
      }
      if f.alignment != 0 && offset % f.alignment != 0 {
        MemoryAbsorbs(CArithmetic, ag, i, |ag.fields|, q, base);
        return Memory;
      }
      var newClass := NoClass;
      if IsIntegral(f.typ) {
        newClass := Integer;
      } else if IsFloating(f.typ) {
        newClass := Sse;
      } else if f.sub.Some? {
        if f.size != 0 {
          newClass := ClassForElements(f.sub.value, index, offset, f.size, f.arrayLen);
        }
      }
      if clz == newClass {
        continue;
      }
      clz := Merge(clz, newClass);
    }
  }

  /** Its inner loop over the array window of an aggregate-typed field. */
  method ClassForElements(sub: Aggr, index: nat, offset: nat, size: nat, arrayLen: nat) returns (clz: Class)
    requires index <= 1 && size > 0
    ensures var w := WindowOf(CArithmetic, 8 * index, offset, size, arrayLen);
            clz == ClassOfElements(CArithmetic, sub, 8 * index, offset, size, w.first, w.end)
    decreases sub, 1
  {
    var q := index * 8;
    var j := I32(U64(q - offset) / size);
    var k := I32(8 / size + U64(j) + 1);
    if U64(k) > arrayLen {
      k := I32(arrayLen);
    }
    ghost var first := j;
    clz := NoClass;
    while j < k
      invariant first <= j
      invariant first < k ==> j <= k
      invariant j == first || first < k
      invariant clz == ClassOfElements(CArithmetic, sub, q, offset, size, first, j)
    {
      var inner := ClassFor8byte(sub, index, I32(offset + size * j));
      clz := Merge(clz, inner);
      j := j + 1;
    }
  }
}
