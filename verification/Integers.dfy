/**
  Integers as little-endian bytes: the unsigned and the two's complement value, and that
  widening keeps the latter.
 */
module Integers {
  import opened Memory

  function Pow256(n: nat): (r: nat)
    ensures r > 0
  {
    if n == 0 then 1 else 256 * Pow256(n - 1)
  }

  function ToBytes(x: nat, n: nat): (b: seq<byte>)
    ensures |b| == n
  {
    if n == 0 then [] else [(x % 256) as byte] + ToBytes(x / 256, n - 1)
  }

  function FromBytes(b: seq<byte>): nat {
    if b == [] then 0 else b[0] as nat + 256 * FromBytes(b[1..])
  }

  lemma {:induction false} BytesRoundTrip(x: nat, n: nat)
    requires x < Pow256(n)
    ensures FromBytes(ToBytes(x, n)) == x
  {
    if n > 0 {
      BytesRoundTrip(x / 256, n - 1);
      assert ToBytes(x, n)[1..] == ToBytes(x / 256, n - 1);
    }
  }

  /** Two's complement: the last byte holds the sign. */
  function SignedValue(b: seq<byte>): int
    requires b != []
  {
    FromBytes(b) - if b[|b| - 1] >= 128 then Pow256(|b|) else 0
  }

  function Fill(x: byte, n: nat): (r: seq<byte>)
    ensures |r| == n && forall k :: 0 <= k < n ==> r[k] == x
  {
    if n == 0 then [] else [x] + Fill(x, n - 1)
  }

  lemma {:induction false} FromBytesConcat(a: seq<byte>, b: seq<byte>)
    ensures FromBytes(a + b) == FromBytes(a) + Pow256(|a|) * FromBytes(b)
  {
    if a == [] {
      assert a + b == b;
    } else {
      FromBytesConcat(a[1..], b);
      assert (a + b)[1..] == a[1..] + b;
      Factor(Pow256(|a| - 1), FromBytes(b));
    }
  }

  lemma Factor(p: nat, v: nat)
    ensures 256 * (p * v) == (256 * p) * v
  {
  }

  lemma {:induction false} FillValue(n: nat)
    ensures FromBytes(Fill(0, n)) == 0
    ensures FromBytes(Fill(255, n)) == Pow256(n) - 1
  {
    if n > 0 {
      FillValue(n - 1);
      assert Fill(0, n)[1..] == Fill(0, n - 1);
      assert Fill(255, n)[1..] == Fill(255, n - 1);
    }
  }

  lemma {:induction false} Pow256Sum(m: nat, n: nat)
    ensures Pow256(m + n) == Pow256(m) * Pow256(n)
  {
    if m > 0 {
      Pow256Sum(m - 1, n);
      Factor(Pow256(m - 1), Pow256(n));
    }
  }

  /** Widening a narrow integer to a register or slot keeps its value. */
  lemma SignExtendKeepsValue(b: seq<byte>, n: nat)
    requires 0 < |b| <= n
    ensures SignedValue(SignExtend(b, n)) == SignedValue(b)
  {
    var m, x: byte := n - |b|, if b[|b| - 1] >= 128 then 255 else 0;
    assert SignExtend(b, n) == b + Fill(x, m);
    FromBytesConcat(b, Fill(x, m));
    FillValue(m);
    Pow256Sum(|b|, m);
    var w := b + Fill(x, m);
    assert w[n - 1] >= 128 <==> b[|b| - 1] >= 128 by {
      if m > 0 {
        assert w[n - 1] == Fill(x, m)[m - 1];
      }
    }
    if x == 255 {
      ProductLessOne(Pow256(|b|), Pow256(m));
    }
  }

  lemma ProductLessOne(p: nat, q: nat)
    ensures p * (q - 1) == p * q - p
  {
  }
}
