/**
  Bytes, byte images and the argument vector (dyncall_vector.c, dyncall_vector.h).

  A `Vec` is the value of a DCVecHead with the bytes behind it: `mem` is the whole
  buffer (mTotal bytes, stale contents included) and `size` is mSize.
 */
module Memory {
  newtype byte = x: int | 0 <= x < 256

  /** A register or stack slot of eight bytes, lowest address first. */
  type Eightbyte = w: seq<byte> | |w| == 8 witness [0, 0, 0, 0, 0, 0, 0, 0]

  /** A register or stack slot of four bytes, lowest address first. */
  type Word = w: seq<byte> | |w| == 4 witness [0, 0, 0, 0]

  function Zeros(n: nat): (r: seq<byte>)
    ensures |r| == n && forall k :: 0 <= k < n ==> r[k] == 0
  {
    if n == 0 then [] else Zeros(n - 1) + [0]
  }

  /** The `n` bytes at `off`. Bytes past the image are unspecified in C and read as 0 here. */
  function Load(mem: seq<byte>, off: nat, n: nat): (r: seq<byte>)
    ensures |r| == n
  {
    if off + n <= |mem| then mem[off..off + n]
    else if off <= |mem| then mem[off..] + Zeros(off + n - |mem|)
    else Zeros(n)
  }

  lemma LoadBytes(mem: seq<byte>, off: nat, n: nat)
    ensures forall k :: 0 <= k < n && off + k < |mem| ==> Load(mem, off, n)[k] == mem[off + k]
    ensures off + n <= |mem| ==> Load(mem, off, n) == mem[off..off + n]
  {
  }

  function Store(mem: seq<byte>, off: nat, b: seq<byte>): (r: seq<byte>)
    requires off + |b| <= |mem|
    ensures |r| == |mem|
    ensures r[off..off + |b|] == b
    ensures forall k :: 0 <= k < |mem| && !(off <= k < off + |b|) ==> r[k] == mem[k]
  {
    mem[..off] + b + mem[off + |b|..]
  }

  /** Two images of one buffer hold the same bytes below `n`. */
  predicate SameBelow(a: seq<byte>, b: seq<byte>, n: nat) {
    |a| == |b| && forall k :: 0 <= k < n && k < |a| ==> a[k] == b[k]
  }

  lemma SameBelowLoads(a: seq<byte>, b: seq<byte>, n: nat, off: nat, len: nat)
    requires SameBelow(a, b, n) && off + len <= n
    ensures Load(a, off, len) == Load(b, off, len)
  {
    if off + len <= |a| {
      assert a[off..off + len] == b[off..off + len];
    } else if off <= |a| {
      assert a[off..] == b[off..];
    }
  }

  /** The alignments that occur: on these `n & -a` is the largest multiple of `a` below `n`. */
  predicate PowerOfTwo(a: nat) {
    a == 1 || a == 2 || a == 4 || a == 8 || a == 16
  }

  predicate Aligned(n: nat, a: nat)
    requires PowerOfTwo(a)
  {
    match a
    case 1 => true
    case 2 => n % 2 == 0
    case 4 => n % 4 == 0
    case 8 => n % 8 == 0
    case _ => n % 16 == 0
  }

  /** Rounding up to a multiple of a power of two: C's `(n + a-1) & -a`. */
  function RoundUp(n: nat, a: nat): (r: nat)
    requires PowerOfTwo(a)
    ensures n <= r < n + a && Aligned(r, a)
  {
    match a
    case 1 => n
    case 2 => (n + 1) / 2 * 2
    case 4 => (n + 3) / 4 * 4
    case 8 => (n + 7) / 8 * 8
    case _ => (n + 15) / 16 * 16
  }

  /** Two's complement widening of a little-endian integer to `n` bytes. */
  function SignExtend(b: seq<byte>, n: nat): (r: seq<byte>)
    requires 0 < |b| <= n
    ensures |r| == n && r[..|b|] == b
  {
    b + seq(n - |b|, _ => if b[|b| - 1] >= 128 then 255 else 0)
  }

  /** `(double) f` and `(float) d` on bit patterns; their arithmetic is not modelled. */
  datatype FloatUnit = FloatUnit(widen: Word -> Eightbyte, narrow: Eightbyte -> Word) {
    ghost predicate Lossless() {
      forall f: Word :: narrow(widen(f)) == f
    }
  }

  datatype Vec = Vec(mem: seq<byte>, size: nat) {
    /** dcVecAppend: a value that does not fit is dropped without notice. */
    function Append(b: seq<byte>): (v: Vec)
      ensures |v.mem| == |mem| && SameBelow(mem, v.mem, size)
      ensures size + |b| <= |mem| ==> v.size == size + |b| && Load(v.mem, size, |b|) == b
      ensures size + |b| > |mem| ==> v == this
    {
      if size + |b| <= |mem| then Vec(Store(mem, size, b), size + |b|) else this
    }

    /** dcVecSkip: unchecked; the skipped bytes keep whatever the buffer held. */
    function Skip(n: nat): Vec {
      this.(size := size + n)
    }

    function Align(a: nat): Vec
      requires PowerOfTwo(a)
    {
      this.(size := RoundUp(size, a))
    }

    /** A direct write through dcVecAt. */
    function Put(off: nat, b: seq<byte>): Vec
      requires off + |b| <= |mem|
    {
      this.(mem := Store(mem, off, b))
    }
  }

  /** memcpy, and the typed stores through dcVecAt */
  method CopyBytes(target: array<byte>, off: nat, b: seq<byte>)
    requires off + |b| <= target.Length
    modifies target
    ensures target[..] == Store(old(target[..]), off, b)
  {
    for k := 0 to |b|
      invariant forall m :: 0 <= m < k ==> target[off + m] == b[m]
      invariant forall m :: 0 <= m < target.Length && !(off <= m < off + k) ==> target[m] == old(target[m])
    {
      target[off + k] := b[k];
    }
  }

  /** DCVecHead followed by its data bytes. */
  class Vector {
    const data: array<byte>
    var mSize: nat

    constructor (total: nat)
      ensures fresh(this) && fresh(data)
      ensures data.Length == total && mSize == 0
    {
      data := new byte[total];
      mSize := 0;
    }

    ghost function Value(): (v: Vec)
      reads this, data
      ensures |v.mem| == data.Length
    {
      Vec(data[..], mSize)
    }

    method Append(b: seq<byte>)
      modifies this, data
      ensures Value() == old(Value()).Append(b)
    {
      var newSize := mSize + |b|;
      if newSize <= data.Length {
        CopyBytes(data, mSize, b);
        mSize := newSize;
      }
    }

    method Skip(n: nat)
      modifies this`mSize
      ensures Value() == old(Value()).Skip(n)
    {
      mSize := mSize + n;
    }

    method Resize(n: nat)
      modifies this`mSize
      ensures Value() == old(Value()).(size := n)
    {
      mSize := n;
    }

    method Align(a: nat)
      requires PowerOfTwo(a)
      modifies this`mSize
      ensures Value() == old(Value()).Align(a)
    {
      mSize := RoundUp(mSize, a);
    }
  }
}
