/**
  Where the ARM hard-float variant of the AAPCS has each argument: words in r0 to r3, 64-bit
  integers in r0/r1 or r2/r3, floating point in the lowest free registers of s0 to s15, and the
  others on the stack, 64-bit ones at multiples of eight. The first sixteen bytes of the vector
  are r0 to r3, the stack follows.
 */
module ArmhfPlacement {
  import opened Memory
  import opened Arguments
  import opened Armhf

  /** Bytes of r0 to r3 taken, the VFP registers, and the end of the stack part of the vector. */
  datatype Taken = Taken(core: nat, fp: Fp, end: nat)

  /** Before the first argument all registers are free. */
  const NOTHING := Taken(0, Fp(0, 0), 16)

  lemma AllFree()
    ensures forall k :: k in NOTHING.fp.Free() <==> 0 <= k < 16
  {
  }

  function Size(k: Kind): nat {
    match k
    case KWord => 4
    case KFloat => 4
    case KLong => 8
    case KDouble => 8
  }

  function Aligned8(n: nat): nat {
    (n + 7) / 8 * 8
  }

  /** The next multiple of the size. */
  function Start(n: nat, k: Kind): nat {
    if Size(k) == 8 then Aligned8(n) else n
  }

  /** Whether there is a VFP register, or an even pair of them. */
  predicate HasVfp(fp: Fp, k: Kind) {
    if k == KFloat then fp.Free() != {} else exists r :: 0 <= r < 16 && IsPair(fp.Free(), r)
  }

  /** What placing a core argument takes: r0 to r3 if it fits there, else the stack, and then no register is left. */
  function NextCore(t: Taken, k: Kind): Taken {
    if Start(t.core, k) + Size(k) <= 16 then t.(core := Start(t.core, k) + Size(k))
    else t.(core := 16, end := Start(t.end, k) + Size(k))
  }

  function Next(t: Taken, k: Kind): (r: Taken)
    ensures r.end >= t.end
  {
    if k == KWord || k == KLong then NextCore(t, k)
    else t.(fp := FpStep(t.fp, k), end := if HasVfp(t.fp, k) then t.end else Start(t.end, k) + Size(k))
  }

  function After(t: Taken, kinds: seq<Kind>): (r: Taken)
    ensures r.end >= t.end
    decreases |kinds|
  {
    if kinds == [] then t else After(Next(t, kinds[0]), kinds[1..])
  }

  ghost predicate IsAt(t: Taken, a: Arg, singles: seq<Word>, mem: seq<byte>)
    requires |singles| == 16
  {
    var k := a.Kind();
    if k == KWord || k == KLong then
      Load(mem, if Start(t.core, k) + Size(k) <= 16 then Start(t.core, k) else Start(t.end, k), Size(k)) == a.Bytes()
    else if !HasVfp(t.fp, k) then Load(mem, Start(t.end, k), Size(k)) == a.Bytes()
    else forall r :: 0 <= r < 16 ==>
      match a
      case FloatArg(f) => IsLowest(t.fp.Free(), r) ==> singles[r] == f
      case DoubleArg(d) => IsLowestPair(t.fp.Free(), r) ==> r < 15 && singles[r] == d[..4] && singles[r + 1] == d[4..]
      case _ => true
  }

  predicate Describes(t: Taken, s: Caller) {
    s.Valid() && s.i == t.core && s.fp == t.fp && s.vec.size == t.end
  }

  /** The free registers are what the counters say. */
  lemma VfpByCounters(fp: Fp, k: Kind)
    requires fp.Valid() && (k == KFloat || k == KDouble)
    ensures HasVfp(fp, k) <==> if k == KFloat then fp.s < 16 else fp.d < 16
    ensures k == KFloat && fp.s < 16 ==> forall r :: IsLowest(fp.Free(), r) ==> r == fp.s
    ensures k == KDouble && fp.d < 16 ==> forall r :: IsLowestPair(fp.Free(), r) ==> r == fp.d
  {
    FpStepRefines(fp, k);
    if k == KDouble && fp.d < 16 {
      assert IsPair(fp.Free(), fp.d);
    }
    if k == KFloat && fp.s < 16 {
      assert fp.s in fp.Free();
    }
  }

  lemma WordHead(s: Caller, t: Taken, b: Word, img: Image)
    requires Describes(t, s) && NextCore(t, KWord).end <= |s.vec.mem| && Holds(PushWord(s, b), img)
    ensures Describes(NextCore(t, KWord), PushWord(s, b))
    ensures Load(img.mem, if t.core + 4 <= 16 then t.core else t.end, 4) == b
  {
    hide Load;
    StackBytes(PushWord(s, b), img, if s.i < 16 then s.i else s.vec.size, b);
  }

  lemma LongHead(s: Caller, t: Taken, b: Eightbyte, img: Image)
    requires Describes(t, s) && NextCore(t, KLong).end <= |s.vec.mem| && Holds(PushLong(s, b), img)
    ensures Describes(NextCore(t, KLong), PushLong(s, b))
    ensures Load(img.mem, if Aligned8(t.core) + 8 <= 16 then Aligned8(t.core) else Aligned8(t.end), 8) == b
  {
    hide Load, PushLong, Holds;
    assert s.i in {0, 4, 8, 12, 16};
    LongKeepsVfp(s, b);
    HoldsLength(PushLong(s, b), img);
    EvenIsAligned(s.vec.size);
    if s.i <= 8 {
      LongInRegisters(s, b, img);
      JoinLoads(img.mem, Aligned8(t.core), b);
    } else {
      LongOnStack(s, b, img);
      JoinLoads(img.mem, Aligned8(t.end), b);
    }
  }

  lemma LongKeepsVfp(s: Caller, b: Eightbyte)
    requires s.Valid()
    ensures PushLong(s, b).Valid() && PushLong(s, b).fp == s.fp && |PushLong(s, b).vec.mem| == |s.vec.mem| >= 16
  {
  }

  lemma HoldsLength(s: Caller, img: Image)
    requires s.Valid() && Holds(s, img)
    ensures |img.mem| == |s.vec.mem|
  {
  }

  lemma EvenIsAligned(n: nat)
    requires n % 4 == 0
    ensures Even(n) == Aligned8(n)
  {
    var q, rest := n / 8, n % 8;
    assert n == 8 * q + rest && (rest == 0 || rest == 4);
    if rest == 0 {
      assert n + 7 == 8 * q + 7;
    } else {
      assert n + 7 == 8 * (q + 1) + 3;
    }
  }

  lemma JoinLoads(mem: seq<byte>, off: nat, b: Eightbyte)
    requires off + 8 <= |mem| && Load(mem, off, 4) + Load(mem, off + 4, 4) == b
    ensures Load(mem, off, 8) == b
  {
    assert mem[off..off + 8] == mem[off..off + 4] + mem[off + 4..off + 8];
  }

  lemma FpHead(s: Caller, t: Taken, a: Arg, img: Image)
    requires Describes(t, s) && (a.FloatArg? || a.DoubleArg?)
    requires Next(t, a.Kind()).end <= |s.vec.mem| && Holds(Push(s, a), img)
    ensures Describes(Next(t, a.Kind()), Push(s, a)) && |img.singles| == 16 && IsAt(t, a, img.singles, img.mem)
  {
    hide Load, Push8, IsLowest, IsLowestPair, HasVfp;
    VfpByCounters(t.fp, a.Kind());
    EvenIsAligned(s.vec.size);
    match a
    case FloatArg(b) =>
      if s.fp.s >= 16 {
        StackBytes(PushFloat(s, b), img, s.vec.size, b);
      }
    case DoubleArg(b) =>
      if s.fp.d >= 16 {
        DoubleOnStack(s, b, img);
        JoinLoads(img.mem, Start(t.end, KDouble), b);
      }
  }

  lemma HeadIsAt(s: Caller, t: Taken, a: Arg, img: Image)
    requires Describes(t, s) && Next(t, a.Kind()).end <= |s.vec.mem| && Holds(Push(s, a), img)
    ensures Describes(Next(t, a.Kind()), Push(s, a)) && |img.singles| == 16 && IsAt(t, a, img.singles, img.mem)
  {
    hide Load, HasVfp, NextCore, PushWord, PushLong, PushFloat, PushDouble, Holds, Describes;
    DescribesValid(t, s);
    HoldsValid(Push(s, a), img);
    match a
    case WordArg(b) => WordHead(s, t, b, img);
    case LongArg(b) => LongHead(s, t, b, img);
    case _ => FpHead(s, t, a, img);
  }

  lemma DescribesValid(t: Taken, s: Caller)
    requires Describes(t, s)
    ensures s.Valid()
  {
  }

  lemma HoldsValid(s: Caller, img: Image)
    requires s.Valid() && Holds(s, img)
    ensures |img.singles| == 16
  {
  }

  lemma {:induction false} PlacedFrom(s: Caller, t: Taken, args: seq<Arg>, k: nat, img: Image)
    requires Describes(t, s) && k < |args| && After(t, Kinds(args)).end <= |s.vec.mem|
    requires Holds(PushAll(s, args), img)
    ensures |img.singles| == 16 && IsAt(After(t, Kinds(args[..k])), args[k], img.singles, img.mem)
    decreases k
  {
    hide IsAt, Next, Push, Holds;
    var s1 := Push(s, args[0]);
    PushAllKeeps(s1, args[1..], img);
    HeadIsAt(s, t, args[0], img);
    if k > 0 {
      PlacedFrom(s1, Next(t, args[0].Kind()), args[1..], k - 1, img);
      assert args[..k][1..] == args[1..][..k - 1];
    }
  }

  /** Placement at the call, for every list that fits the vector, whether or not the callback can read it back. */
  lemma Placement(s: Caller, total: nat, args: seq<Arg>, k: nat)
    requires Fresh(s, total) && k < |args| && After(NOTHING, Kinds(args)).end <= total
    ensures var e := PushAll(s, args);
            |e.singles| == 16 && IsAt(After(NOTHING, Kinds(args[..k])), args[k], e.singles, e.vec.mem)
  {
    hide IsAt;
    var e := PushAll(s, args);
    PlacedFrom(s, NOTHING, args, k, Image(e.singles, e.vec.mem));
  }
}
