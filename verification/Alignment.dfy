/**
  Multiples of an alignment. The alignments dcAggrField can give a field are 1, 2, 4 and 8, and
  0 for an aggregate without fields, which any offset satisfies.
 */
module Alignment {
  predicate IsAlignment(a: nat) {
    a in {0, 1, 2, 4, 8}
  }

  predicate OnBoundary(x: int, a: nat) {
    if a <= 1 then true else if a == 2 then x % 2 == 0 else if a == 4 then x % 4 == 0 else x % 8 == 0
  }

  lemma BoundaryIsModulo(x: int, a: nat)
    requires IsAlignment(a)
    ensures OnBoundary(x, a) <==> a == 0 || x % a == 0
  {
    match a
    case 0 =>
    case 1 =>
    case 2 =>
    case 4 =>
    case 8 =>
  }

  lemma BoundarySum(x: int, y: int, a: nat)
    requires IsAlignment(a) && OnBoundary(x, a) && OnBoundary(y, a)
    ensures OnBoundary(x + y, a) && OnBoundary(-x, a)
  {
    if a == 2 {
      TwosAdd(x, y);
    } else if a == 4 {
      FoursAdd(x, y);
    } else if a == 8 {
      EightsAdd(x, y);
    }
  }

  lemma TwosAdd(x: int, y: int)
    requires x % 2 == 0 && y % 2 == 0
    ensures (x + y) % 2 == 0 && -x % 2 == 0
  {
  }

  lemma FoursAdd(x: int, y: int)
    requires x % 4 == 0 && y % 4 == 0
    ensures (x + y) % 4 == 0 && -x % 4 == 0
  {
  }

  lemma EightsAdd(x: int, y: int)
    requires x % 8 == 0 && y % 8 == 0
    ensures (x + y) % 8 == 0 && -x % 8 == 0
  {
  }

  lemma {:induction false} MultipleOnBoundary(size: int, e: int, a: nat)
    requires IsAlignment(a) && OnBoundary(size, a)
    ensures OnBoundary(size * e, a)
    decreases if e < 0 then -e else e
  {
    hide OnBoundary;
    if e == 0 {
      BoundarySum(size, size, a);
      BoundarySum(size, -size, a);
    } else if e > 0 {
      MultipleOnBoundary(size, e - 1, a);
      BoundarySum(size * (e - 1), size, a);
      assert size * e == size * (e - 1) + size;
    } else {
      MultipleOnBoundary(size, e + 1, a);
      BoundarySum(size, size, a);
      BoundarySum(size * (e + 1), -size, a);
      assert size * e == size * (e + 1) - size;
    }
  }

  /** A boundary of the larger alignment is one of the smaller. */
  lemma BoundaryWeakens(x: int, a: nat, b: nat)
    requires IsAlignment(a) && IsAlignment(b) && a <= b && OnBoundary(x, b)
    ensures OnBoundary(x, a)
  {
  }

  /** Reduction modulo 2^32 or 2^64 keeps boundaries. */
  lemma WrapKeepsBoundary(x: int, y: int, a: nat, k: int)
    requires IsAlignment(a) && OnBoundary(x - y, a)
    ensures OnBoundary(x + k * 0x1_0000_0000 - y, a)
  {
    hide OnBoundary;
    var t := k * 0x2000_0000;
    EightsOnBoundary(t, a);
    BoundarySum(x - y, 8 * t, a);
    assert x - y + 8 * t == x + k * 0x1_0000_0000 - y;
  }

  lemma EightsOnBoundary(t: int, a: nat)
    requires IsAlignment(a)
    ensures OnBoundary(8 * t, a)
  {
    assert 8 * t % 8 == 0;
    assert 8 * t == 2 * (4 * t) == 4 * (2 * t);
  }
}
