/**
  ARM hard-float argument passing: dyncall_callvm_arm32_arm_armhf.c and the hard-float build
  of dyncall_args_arm32.c, against the register allocation of section 6.1.2 of the AAPCS
  (ARM IHI 0042F).

  The first sixteen bytes of the vector are r0-r3; the stack follows.
 */
module Armhf {
  import opened Memory
  import opened Arguments

  // --- VFP registers ----------------------------------------------------------------------

  /** The two counters of the caller: next single and next double (as its first single). */
  datatype Fp = Fp(s: nat, d: nat) {
    /** An odd `s` is a gap left behind by a double; an even one equals `d`. */
    predicate Valid() {
      s <= 16 && d <= 16 && d % 2 == 0 && if s % 2 == 1 then s < d else s == d
    }

    predicate IsFree(k: nat) {
      (k == s && s % 2 == 1) || d <= k < 16
    }

    function Free(): set<nat> {
      set k: nat | k < 16 && IsFree(k)
    }
  }

  /** The counters after a_float that found a register. */
  function AfterFloat(p: Fp): Fp
    requires p.s < 16
  {
    var s := p.s + 1;
    if p.d < s then Fp(s, (s + 1) / 2 * 2) else Fp(p.d, p.d)
  }

  /** The counters after a_double. */
  function AfterDouble(p: Fp): Fp {
    if p.d < 16 then Fp(if p.s % 2 == 0 then p.d + 2 else p.s, p.d + 2) else Fp(16, p.d)
  }

  function FpStep(p: Fp, k: Kind): Fp {
    match k
    case KFloat => if p.s < 16 then AfterFloat(p) else p
    case KDouble => AfterDouble(p)
    case _ => p
  }

  function FpRun(p: Fp, kinds: seq<Kind>): Fp
    decreases |kinds|
  {
    if kinds == [] then p else FpRun(FpStep(p, kinds[0]), kinds[1..])
  }

  /** AAPCS: the lowest free register; doubles need an even pair; after a spill nothing is free. */
  ghost predicate IsLowest(free: set<nat>, k: nat) {
    k in free && forall j :: j in free ==> k <= j
  }

  predicate IsPair(free: set<nat>, k: nat) {
    k % 2 == 0 && k in free && k + 1 in free
  }

  ghost predicate IsLowestPair(free: set<nat>, k: nat) {
    IsPair(free, k) && forall j :: IsPair(free, j) ==> k <= j
  }

  /** One step of the standard's allocator. */
  ghost predicate AapcsStep(free: set<nat>, k: Kind, after: set<nat>) {
    match k
    case KFloat => if free == {} then after == {} else exists r :: IsLowest(free, r) && after == free - {r}
    case KDouble =>
      if exists r :: IsPair(free, r)
      then exists r :: IsLowestPair(free, r) && after == free - {r, r + 1}
      else after == {}
    case _ => after == free
  }

  /** The counters are the free set, and each step allocates as the standard does. */
  lemma FpStepRefines(p: Fp, k: Kind)
    requires p.Valid()
    ensures FpStep(p, k).Valid() && AapcsStep(p.Free(), k, FpStep(p, k).Free())
    ensures k == KFloat && p.s < 16 ==> IsLowest(p.Free(), p.s)
    ensures k == KFloat && p.s >= 16 ==> p.Free() == {}
    ensures k == KDouble && p.d < 16 ==> IsLowestPair(p.Free(), p.d)
    ensures k == KDouble && p.d >= 16 ==> FpStep(p, k).Free() == {} && forall r :: !IsPair(p.Free(), r)
  {
    var q := FpStep(p, k);
    if k == KFloat && p.s < 16 {
      assert IsLowest(p.Free(), p.s);
      assert q.Free() == p.Free() - {p.s};
    } else if k == KFloat {
      assert p.s == 16 && p.d == 16;
      assert p.Free() == {};
    } else if k == KDouble && p.d < 16 {
      assert p.d + 1 < 16;
      assert IsLowestPair(p.Free(), p.d);
      assert q.Free() == p.Free() - {p.d, p.d + 1};
    } else if k == KDouble {
      assert forall r :: r in p.Free() ==> r == p.s && r % 2 == 1;
    }
  }

  /** A run of the standard's allocator over the argument kinds. */
  ghost predicate AapcsRun(free: set<nat>, kinds: seq<Kind>, after: set<nat>)
    decreases |kinds|
  {
    if kinds == [] then after == free
    else exists next :: AapcsStep(free, kinds[0], next) && AapcsRun(next, kinds[1..], after)
  }

  lemma {:induction false} FpRunRefines(p: Fp, kinds: seq<Kind>)
    requires p.Valid()
    ensures FpRun(p, kinds).Valid() && AapcsRun(p.Free(), kinds, FpRun(p, kinds).Free())
    decreases |kinds|
  {
    if kinds != [] {
      FpStepRefines(p, kinds[0]);
      FpRunRefines(FpStep(p, kinds[0]), kinds[1..]);
      assert AapcsStep(p.Free(), kinds[0], FpStep(p, kinds[0]).Free());
    }
  }

  /** After a double has spilled, no single is ever back-filled again. */
  lemma {:induction false} NoBackfillAfterSpill(p: Fp, kinds: seq<Kind>)
    requires p.Valid() && p.d == 16
    ensures FpRun(FpStep(p, KDouble), kinds) == Fp(16, 16)
    decreases |kinds|
  {
    if kinds != [] {
      NoBackfillAfterSpill(Fp(16, 16), kinds[1..]);
    }
  }

  // --- the caller -------------------------------------------------------------------------

  /** `i` is the byte offset of the next core register. */
  datatype Caller = Caller(i: nat, fp: Fp, singles: seq<Word>, vec: Vec) {
    predicate Valid() {
      && i in {0, 4, 8, 12, 16} && fp.Valid()
      && |singles| == 16 && |vec.mem| >= 16 && vec.size >= 16 && vec.size % 4 == 0
    }
  }

  /** `size += size & 4` */
  function Even(size: nat): nat {
    if size % 8 >= 4 then size + 4 else size
  }

  /** `dcVecSkip(size & 4)` followed by an append of eight bytes */
  function Push8(v: Vec, b: Eightbyte): (r: Vec)
    ensures |r.mem| == |v.mem| && SameBelow(v.mem, r.mem, v.size)
    ensures r.size == if Even(v.size) + 8 <= |v.mem| then Even(v.size) + 8 else Even(v.size)
    ensures Even(v.size) + 8 <= |v.mem| ==>
              r.mem[r.size - 8..r.size - 4] == b[..4] && r.mem[r.size - 4..r.size] == b[4..]
  {
    var r := v.Skip(Even(v.size) - v.size).Append(b);
    assert Even(v.size) + 8 <= |v.mem| ==> r.mem[r.size - 8..r.size] == b;
    r
  }

  /** Two words into an even pair of core registers. */
  function PutPair(v: Vec, i: nat, b: Eightbyte): (r: Vec)
    requires i + 8 <= |v.mem|
    ensures |r.mem| == |v.mem| && r.size == v.size
    ensures r.mem[i..i + 4] == b[..4] && r.mem[i + 4..i + 8] == b[4..]
    ensures forall k :: 0 <= k < |v.mem| && !(i <= k < i + 8) ==> r.mem[k] == v.mem[k]
  {
    var r := v.Put(i, b);
    assert r.mem[i..i + 8] == b;
    r
  }

  /** a_int */
  function PushWord(s: Caller, b: Word): (r: Caller)
    requires s.Valid()
    ensures r.Valid() && |r.vec.mem| == |s.vec.mem| && r.fp == s.fp
  {
    if s.i < 16 then s.(vec := s.vec.Put(s.i, b), i := s.i + 4) else s.(vec := s.vec.Append(b))
  }

  /** a_longlong */
  function PushLong(s: Caller, b: Eightbyte): (r: Caller)
    requires s.Valid()
    ensures r.Valid() && |r.vec.mem| == |s.vec.mem| && r.fp == s.fp
  {
    var i := (s.i + 4) / 8 * 8;
    if i < 16 then s.(vec := PutPair(s.vec, i, b), i := i + 8) else s.(i := i, vec := Push8(s.vec, b))
  }

  /** a_float */
  function PushFloat(s: Caller, b: Word): (r: Caller)
    requires s.Valid()
    ensures r.Valid() && |r.vec.mem| == |s.vec.mem| && r.fp == FpStep(s.fp, KFloat)
  {
    if s.fp.s < 16 then s.(singles := s.singles[s.fp.s := b], fp := AfterFloat(s.fp)) else s.(vec := s.vec.Append(b))
  }

  /** a_double */
  function PushDouble(s: Caller, b: Eightbyte): (r: Caller)
    requires s.Valid()
    ensures r.Valid() && |r.vec.mem| == |s.vec.mem| && r.fp == FpStep(s.fp, KDouble)
  {
    if s.fp.d < 16
    then s.(singles := s.singles[s.fp.d := b[..4]][s.fp.d + 1 := b[4..]], fp := AfterDouble(s.fp))
    else s.(fp := AfterDouble(s.fp), vec := Push8(s.vec, b))
  }

  function Push(s: Caller, a: Arg): (r: Caller)
    requires s.Valid()
    ensures r.Valid() && |r.vec.mem| == |s.vec.mem| && r.fp == FpStep(s.fp, a.Kind())
  {
    match a
    case WordArg(b) => PushWord(s, b)
    case LongArg(b) => PushLong(s, b)
    case FloatArg(b) => PushFloat(s, b)
    case DoubleArg(b) => PushDouble(s, b)
  }

  function PushAll(s: Caller, args: seq<Arg>): (r: Caller)
    requires s.Valid()
    ensures r.Valid() && |r.vec.mem| == |s.vec.mem|
    decreases |args|
  {
    if args == [] then s else PushAll(Push(s, args[0]), args[1..])
  }

  // --- the callback -----------------------------------------------------------------------

  datatype Image = Image(singles: seq<Word>, mem: seq<byte>) {
    predicate Valid() {
      |singles| == 16 && |mem| >= 16
    }
  }

  /** reg_count, freg_count, dreg_count and the offset of stack_ptr in the vector */
  datatype Reader = Reader(r: nat, f: nat, d: nat, sp: nat)

  /** arm_align_64 for EABI and hard-float */
  function Align64(c: Reader): Reader {
    var r := if c.r < 4 then (c.r + 1) / 2 * 2 else c.r;
    c.(r := r, sp := if r >= 4 && c.sp % 8 >= 4 then c.sp + 4 else c.sp)
  }

  /** arm_word */
  function AfterWord(c: Reader): Reader {
    if c.r < 4 then c.(r := c.r + 1) else c.(sp := c.sp + 4)
  }

  function WordAt(c: Reader, img: Image): Word {
    Load(img.mem, if c.r < 4 then 4 * c.r else c.sp, 4)
  }

  function TwoWords(c: Reader, img: Image): Eightbyte {
    WordAt(Align64(c), img) + WordAt(AfterWord(Align64(c)), img)
  }

  /** dreg_count brought up to date, as arm_double does first */
  function SyncDouble(c: Reader): nat {
    if c.d < c.f then (c.f + 1) / 2 * 2 else c.d
  }

  function After(c: Reader, k: Kind): Reader {
    match k
    case KWord => AfterWord(c)
    case KLong => AfterWord(AfterWord(Align64(c)))
    case KFloat =>
      if c.f < 16 then
        var f := c.f + 1;
        c.(f := if f % 2 == 0 && f < c.d then c.d else f)
      else AfterWord(c)
    case KDouble =>
      var d := SyncDouble(c);
      if d < 16 then c.(d := d + 2, f := if c.f % 2 == 0 then d + 2 else c.f)
      else AfterWord(AfterWord(Align64(c.(f := 16, d := d))))
  }

  function Answer(c: Reader, k: Kind, img: Image): seq<byte>
    requires img.Valid()
  {
    match k
    case KWord => WordAt(c, img)
    case KLong => TwoWords(c, img)
    case KFloat => if c.f < 16 then img.singles[c.f] else WordAt(c, img)
    case KDouble =>
      var d := SyncDouble(c);
      if d < 16 then img.singles[d] + (if d < 15 then img.singles[d + 1] else img.singles[d])
      else TwoWords(c.(f := 16, d := d), img)
  }

  function AfterAll(c: Reader, kinds: seq<Kind>): (r: Reader)
    ensures r.sp >= c.sp
    decreases |kinds|
  {
    if kinds == [] then c else AfterAll(After(c, kinds[0]), kinds[1..])
  }

  function Answers(c: Reader, kinds: seq<Kind>, img: Image): seq<seq<byte>>
    requires img.Valid()
    decreases |kinds|
  {
    if kinds == [] then [] else [Answer(c, kinds[0], img)] + Answers(After(c, kinds[0]), kinds[1..], img)
  }

  // --- when the two agree -----------------------------------------------------------------

  /**
    What decides whether a list reads back: core registers used, the VFP counters, and
    `skewed`: a double spilled while only r3 was free, which the callback then gives up.
   */
  datatype Pos = Pos(core: nat, fp: Fp, skewed: bool)

  /**
    The callback looks for a spilled FP value in r0-r3 first. A float therefore needs them used
    up; a double may also spill while r3 is free, since it does not fit there, but the callback
    then gives r3 up, so that a word may not follow until a 64-bit integer has.
   */
  predicate Allowed(p: Pos, k: Kind) {
    match k
    case KWord => !p.skewed
    case KLong => true
    case KFloat => p.fp.s < 16 || p.core == 4 || p.skewed
    case KDouble => p.fp.d < 16 || p.core >= 3
  }

  function NextPos(p: Pos, k: Kind): Pos {
    match k
    case KWord => p.(core := if p.core < 4 then p.core + 1 else 4)
    case KLong => p.(core := if p.core <= 2 then (p.core + 1) / 2 * 2 + 2 else 4, skewed := false)
    case KFloat => p.(fp := FpStep(p.fp, k))
    case KDouble => p.(fp := FpStep(p.fp, k), skewed := p.skewed || (p.fp.d >= 16 && p.core == 3))
  }

  /** No FP value spills while the callback would find a core register for it, and no word is sought past r3. */
  predicate SpillsLate(p: Pos, kinds: seq<Kind>)
    decreases |kinds|
  {
    kinds == [] || (Allowed(p, kinds[0]) && SpillsLate(NextPos(p, kinds[0]), kinds[1..]))
  }

  const START := Pos(0, Fp(0, 0), false)

  /**
    The two machines at one point of a list: the callback's lazy counters stand for the
    caller's, its core count for the caller's unless skewed, and the stack depths are equal.
   */
  predicate InStep(s: Caller, c: Reader, p: Pos) {
    && s.Valid() && s.fp == p.fp && s.i == 4 * p.core && (p.skewed ==> p.core == 3)
    && c.f == s.fp.s && SyncDouble(c) == s.fp.d && c.d % 2 == 0
    && c.r == (if p.skewed then 4 else p.core)
    && c.sp == s.vec.size
  }

  /** The image still holds everything placed so far. */
  predicate Holds(s: Caller, img: Image)
    requires s.Valid()
  {
    && img.Valid() && |img.mem| == |s.vec.mem|
    && (forall k :: 0 <= k < 16 && !s.fp.IsFree(k) ==> img.singles[k] == s.singles[k])
    && (forall k :: 0 <= k < |img.mem| && (k < s.i || 16 <= k < s.vec.size) ==> img.mem[k] == s.vec.mem[k])
  }

  lemma WordKeeps(s: Caller, b: Word, img: Image)
    requires s.Valid() && Holds(PushWord(s, b), img)
    ensures Holds(s, img)
  {
  }

  lemma LongKeeps(s: Caller, b: Eightbyte, img: Image)
    requires s.Valid() && Holds(PushLong(s, b), img)
    ensures Holds(s, img)
  {
    hide Push8, PutPair;
    assert s.i in {0, 4, 8, 12, 16};
  }

  lemma FloatKeeps(s: Caller, b: Word, img: Image)
    requires s.Valid() && Holds(PushFloat(s, b), img)
    ensures Holds(s, img)
  {
  }

  lemma DoubleKeeps(s: Caller, b: Eightbyte, img: Image)
    requires s.Valid() && Holds(PushDouble(s, b), img)
    ensures Holds(s, img)
  {
    hide Push8;
  }

  lemma PushKeeps(s: Caller, a: Arg, img: Image)
    requires s.Valid() && Holds(Push(s, a), img)
    ensures Holds(s, img)
  {
    match a
    case WordArg(b) => WordKeeps(s, b, img);
    case LongArg(b) => LongKeeps(s, b, img);
    case FloatArg(b) => FloatKeeps(s, b, img);
    case DoubleArg(b) => DoubleKeeps(s, b, img);
  }

  lemma {:induction false} PushAllKeeps(s: Caller, args: seq<Arg>, img: Image)
    requires s.Valid() && Holds(PushAll(s, args), img)
    ensures Holds(s, img)
    decreases |args|
  {
    if args != [] {
      PushAllKeeps(Push(s, args[0]), args[1..], img);
      PushKeeps(s, args[0], img);
    }
  }

  lemma StackBytes(s: Caller, img: Image, off: nat, b: seq<byte>)
    requires s.Valid() && Holds(s, img)
    requires off + |b| <= s.i || (16 <= off && off + |b| <= s.vec.size <= |s.vec.mem|)
    requires s.vec.mem[off..off + |b|] == b
    ensures Load(img.mem, off, |b|) == b
  {
    assert img.mem[off..off + |b|] == s.vec.mem[off..off + |b|];
  }

  lemma WordStep(s: Caller, c: Reader, p: Pos, b: Word, img: Image)
    requires InStep(s, c, p) && Allowed(p, KWord) && After(c, KWord).sp <= |s.vec.mem|
    ensures InStep(PushWord(s, b), After(c, KWord), NextPos(p, KWord))
    ensures Holds(PushWord(s, b), img) ==> Answer(c, KWord, img) == b
  {
    if Holds(PushWord(s, b), img) {
      StackBytes(PushWord(s, b), img, if s.i < 16 then s.i else s.vec.size, b);
    }
  }

  /** Where the callback finds a pair of words, and what that does to its counters. */
  lemma PairPosition(c: Reader, img: Image)
    requires c.r <= 4 && c.sp % 4 == 0
    ensures TwoWords(c, img)
         == if c.r <= 2 then Load(img.mem, (c.r + 1) / 2 * 8, 4) + Load(img.mem, (c.r + 1) / 2 * 8 + 4, 4)
            else Load(img.mem, Even(c.sp), 4) + Load(img.mem, Even(c.sp) + 4, 4)
    ensures AfterWord(AfterWord(Align64(c)))
         == if c.r <= 2 then c.(r := (c.r + 1) / 2 * 2 + 2) else c.(r := 4, sp := Even(c.sp) + 8)
  {
    hide Load;
    assert c.r in {0, 1, 2, 3, 4};
  }

  lemma LongStep(s: Caller, c: Reader, p: Pos, b: Eightbyte, img: Image)
    requires InStep(s, c, p) && After(c, KLong).sp <= |s.vec.mem|
    ensures InStep(PushLong(s, b), After(c, KLong), NextPos(p, KLong))
    ensures Holds(PushLong(s, b), img) ==> Answer(c, KLong, img) == b
  {
    hide PushLong, Load, TwoWords, AfterWord, Align64, Holds;
    PairPosition(c, img);
    if p.core <= 2 {
      assert p.core in {0, 1, 2};
      LongInRegisters(s, b, img);
    } else {
      LongOnStack(s, b, img);
    }
  }

  lemma LongInRegisters(s: Caller, b: Eightbyte, img: Image)
    requires s.Valid() && s.i <= 8
    ensures var i := (s.i + 4) / 8 * 8;
            && i in {0, 8} && PushLong(s, b).vec.size == s.vec.size && PushLong(s, b).i == i + 8
            && (Holds(PushLong(s, b), img) ==> Load(img.mem, i, 4) + Load(img.mem, i + 4, 4) == b)
  {
    var s1, i := PushLong(s, b), (s.i + 4) / 8 * 8;
    assert s.i in {0, 4, 8};
    assert b[..4] + b[4..] == b;
    hide PutPair, Load;
    if Holds(s1, img) {
      StackBytes(s1, img, i, b[..4]);
      StackBytes(s1, img, i + 4, b[4..]);
    }
  }

  lemma LongOnStack(s: Caller, b: Eightbyte, img: Image)
    requires s.Valid() && s.i >= 12 && Even(s.vec.size) + 8 <= |s.vec.mem|
    ensures PushLong(s, b).vec.size == Even(s.vec.size) + 8 && PushLong(s, b).i == 16
    ensures Holds(PushLong(s, b), img) ==>
              Load(img.mem, Even(s.vec.size), 4) + Load(img.mem, Even(s.vec.size) + 4, 4) == b
  {
    var s1 := PushLong(s, b);
    assert s.i in {12, 16};
    assert b[..4] + b[4..] == b;
    hide Push8, Load;
    if Holds(s1, img) {
      StackBytes(s1, img, s1.vec.size - 8, b[..4]);
      StackBytes(s1, img, s1.vec.size - 4, b[4..]);
    }
  }

  lemma FloatStep(s: Caller, c: Reader, p: Pos, b: Word, img: Image)
    requires InStep(s, c, p) && Allowed(p, KFloat) && After(c, KFloat).sp <= |s.vec.mem|
    ensures InStep(PushFloat(s, b), After(c, KFloat), NextPos(p, KFloat))
    ensures Holds(PushFloat(s, b), img) ==> Answer(c, KFloat, img) == b
  {
    if Holds(PushFloat(s, b), img) && s.fp.s >= 16 {
      StackBytes(PushFloat(s, b), img, s.vec.size, b);
    }
  }

  lemma DoubleStep(s: Caller, c: Reader, p: Pos, b: Eightbyte, img: Image)
    requires InStep(s, c, p) && Allowed(p, KDouble) && After(c, KDouble).sp <= |s.vec.mem|
    ensures InStep(PushDouble(s, b), After(c, KDouble), NextPos(p, KDouble))
    ensures Holds(PushDouble(s, b), img) ==> Answer(c, KDouble, img) == b
  {
    hide Load, TwoWords, AfterWord, Align64, Even, Push8;
    PairPosition(c.(f := 16, d := SyncDouble(c)), img);
    if s.fp.d >= 16 {
      DoubleOnStack(s, b, img);
    } else {
      assert b[..4] + b[4..] == b;
    }
  }

  lemma DoubleOnStack(s: Caller, b: Eightbyte, img: Image)
    requires s.Valid() && s.fp.d >= 16 && Even(s.vec.size) + 8 <= |s.vec.mem|
    ensures PushDouble(s, b).vec.size == Even(s.vec.size) + 8
    ensures Holds(PushDouble(s, b), img) ==>
              Load(img.mem, Even(s.vec.size), 4) + Load(img.mem, Even(s.vec.size) + 4, 4) == b
  {
    var s1 := PushDouble(s, b);
    assert b[..4] + b[4..] == b;
    hide Push8, Load;
    if Holds(s1, img) {
      StackBytes(s1, img, s1.vec.size - 8, b[..4]);
      StackBytes(s1, img, s1.vec.size - 4, b[4..]);
    }
  }

  lemma Step(s: Caller, c: Reader, p: Pos, a: Arg, img: Image)
    requires InStep(s, c, p) && Allowed(p, a.Kind()) && After(c, a.Kind()).sp <= |s.vec.mem|
    ensures InStep(Push(s, a), After(c, a.Kind()), NextPos(p, a.Kind()))
    ensures Holds(Push(s, a), img) ==> Answer(c, a.Kind(), img) == a.Bytes()
  {
    match a
    case WordArg(b) => WordStep(s, c, p, b, img);
    case LongArg(b) => LongStep(s, c, p, b, img);
    case FloatArg(b) => FloatStep(s, c, p, b, img);
    case DoubleArg(b) => DoubleStep(s, c, p, b, img);
  }

  /** Argument lists whose FP values spill late read back unchanged, the counters in step throughout. */
  lemma {:induction false} RoundTrip(s: Caller, c: Reader, p: Pos, args: seq<Arg>, img: Image)
    requires InStep(s, c, p) && SpillsLate(p, Kinds(args))
    requires AfterAll(c, Kinds(args)).sp <= |s.vec.mem|
    requires Holds(PushAll(s, args), img)
    ensures Answers(c, Kinds(args), img) == Contents(args)
    decreases |args|
  {
    hide Answer, After, Push, NextPos, Allowed, InStep, Holds;
    if args != [] {
      var k := args[0].Kind();
      InStepValid(s, c, p);
      Step(s, c, p, args[0], img);
      PushAllKeeps(Push(s, args[0]), args[1..], img);
      RoundTrip(Push(s, args[0]), After(c, k), NextPos(p, k), args[1..], img);
    }
  }

  lemma InStepValid(s: Caller, c: Reader, p: Pos)
    requires InStep(s, c, p)
    ensures s.Valid()
  {
  }

  // --- and only then ----------------------------------------------------------------------

  function Filled(k: Kind, x: byte): (a: Arg)
    ensures a.Kind() == k
  {
    match k
    case KWord => WordArg([x, x, x, x])
    case KLong => LongArg([x, x, x, x, x, x, x, x])
    case KFloat => FloatArg([x, x, x, x])
    case KDouble => DoubleArg([x, x, x, x, x, x, x, x])
  }

  function Blanks(kinds: seq<Kind>): (args: seq<Arg>)
    ensures Kinds(args) == kinds
  {
    if kinds == [] then [] else [Filled(kinds[0], 0)] + Blanks(kinds[1..])
  }

  /** The part of the buffer that is not for this register or stack slot: bytes [lo, hi). */
  predicate ZeroBetween(mem: seq<byte>, lo: nat, hi: nat) {
    forall k :: lo <= k < hi && k < |mem| ==> mem[k] == 0
  }

  lemma StoreZero(mem: seq<byte>, off: nat, b: seq<byte>, lo: nat, hi: nat)
    requires off + |b| <= |mem| && ZeroBetween(mem, lo, hi) && forall k :: 0 <= k < |b| ==> b[k] == 0
    ensures ZeroBetween(Store(mem, off, b), lo, hi)
  {
  }

  lemma BlankKeepsZero(s: Caller, k: Kind, lo: nat, hi: nat)
    requires s.Valid() && ZeroBetween(s.vec.mem, lo, hi)
    ensures ZeroBetween(Push(s, Filled(k, 0)).vec.mem, lo, hi)
  {
    hide Store, ZeroBetween;
    var b := Filled(k, 0).Bytes();
    var i := if k == KWord then s.i else (s.i + 4) / 8 * 8;
    var end := if k == KWord || k == KFloat then s.vec.size else Even(s.vec.size);
    if i + |b| <= |s.vec.mem| {
      StoreZero(s.vec.mem, i, b, lo, hi);
    }
    if end + |b| <= |s.vec.mem| {
      StoreZero(s.vec.mem, end, b, lo, hi);
    }
  }

  lemma {:induction false} BlanksKeepZero(s: Caller, kinds: seq<Kind>, lo: nat, hi: nat)
    requires s.Valid() && ZeroBetween(s.vec.mem, lo, hi)
    ensures ZeroBetween(PushAll(s, Blanks(kinds)).vec.mem, lo, hi)
    decreases |kinds|
  {
    if kinds != [] {
      BlankKeepsZero(s, kinds[0], lo, hi);
      BlanksKeepZero(Push(s, Filled(kinds[0], 0)), kinds[1..], lo, hi);
    }
  }

  function AtCall(s: Caller): (img: Image)
    requires s.Valid()
    ensures img.Valid()
  {
    Image(s.singles, s.vec.mem)
  }

  lemma ZeroLoad(mem: seq<byte>, lo: nat, hi: nat, off: nat)
    requires ZeroBetween(mem, lo, hi) && lo <= off && off + 4 <= hi
    ensures Load(mem, off, 4) == [0, 0, 0, 0]
  {
  }

  /** A word in r3 that the callback, having given r3 up, seeks on the stack. */
  lemma MisplacedWord(s: Caller, c: Reader, p: Pos, kinds: seq<Kind>)
    requires InStep(s, c, p) && p.skewed
    requires ZeroBetween(s.vec.mem, 0, |s.vec.mem|)
    ensures Answer(c, KWord, AtCall(PushAll(Push(s, Filled(KWord, 1)), Blanks(kinds)))) == [0, 0, 0, 0]
  {
    hide Load;
    var s1 := Push(s, Filled(KWord, 1));
    var hi := |s1.vec.mem| + c.sp + 4;
    assert ZeroBetween(s1.vec.mem, 16, hi);
    BlanksKeepZero(s1, kinds, 16, hi);
    ZeroLoad(PushAll(s1, Blanks(kinds)).vec.mem, 16, hi, c.sp);
  }

  /** An FP value on the stack that the callback seeks in a core register. */
  lemma MisplacedFp(s: Caller, c: Reader, p: Pos, k: Kind, kinds: seq<Kind>)
    requires InStep(s, c, p) && (k == KFloat || k == KDouble) && !Allowed(p, k)
    requires ZeroBetween(s.vec.mem, 0, |s.vec.mem|)
    ensures Answer(c, k, AtCall(PushAll(Push(s, Filled(k, 1)), Blanks(kinds))))[0] == 0
  {
    hide Load, Push8, Align64, AfterWord;
    var s1 := Push(s, Filled(k, 1));
    SpillLeavesCore(s, k);
    BlanksKeepZero(s1, kinds, 0, 16);
    var img := AtCall(PushAll(s1, Blanks(kinds)));
    PairPosition(c.(f := 16, d := SyncDouble(c)), img);
    ZeroLoad(img.mem, 0, 16, if k == KFloat then 4 * c.r else (c.r + 1) / 2 * 8);
  }

  lemma SpillLeavesCore(s: Caller, k: Kind)
    requires s.Valid() && ZeroBetween(s.vec.mem, 0, 16)
    requires (k == KFloat && s.fp.s == 16) || (k == KDouble && s.fp.d == 16)
    ensures ZeroBetween(Push(s, Filled(k, 1)).vec.mem, 0, 16)
  {
    hide Push8;
  }

  lemma MisplacedHead(s: Caller, c: Reader, p: Pos, kinds: seq<Kind>)
    requires InStep(s, c, p) && kinds != [] && !Allowed(p, kinds[0])
    requires ZeroBetween(s.vec.mem, 0, |s.vec.mem|)
    ensures s.Valid()
    ensures Answer(c, kinds[0], AtCall(PushAll(Push(s, Filled(kinds[0], 1)), Blanks(kinds[1..]))))
            != Filled(kinds[0], 1).Bytes()
  {
    InStepValid(s, c, p);
    if kinds[0] == KWord {
      MisplacedWord(s, c, p, kinds[1..]);
    } else {
      MisplacedFp(s, c, p, kinds[0], kinds[1..]);
    }
  }

  /** A list that spills early has values that do not read back. */
  lemma {:induction false} EarlySpillBreaks(s: Caller, c: Reader, p: Pos, kinds: seq<Kind>) returns (args: seq<Arg>)
    requires InStep(s, c, p) && !SpillsLate(p, kinds)
    requires ZeroBetween(s.vec.mem, 0, |s.vec.mem|) && AfterAll(c, kinds).sp <= |s.vec.mem|
    ensures Kinds(args) == kinds
    ensures Answers(c, kinds, AtCall(PushAll(s, args))) != Contents(args)
    decreases |kinds|
  {
    hide Answer, After, Push, NextPos, Allowed, InStep, ZeroBetween, Filled;
    InStepValid(s, c, p);
    var k := kinds[0];
    if Allowed(p, k) {
      var a := Filled(k, 0);
      Step(s, c, p, a, AtCall(Push(s, a)));
      BlankKeepsZero(s, k, 0, |s.vec.mem|);
      var rest := EarlySpillBreaks(Push(s, a), After(c, k), NextPos(p, k), kinds[1..]);
      args := [a] + rest;
      assert args[1..] == rest;
      var img := AtCall(PushAll(s, args));
      assert Answers(c, kinds, img)[1..] == Answers(After(c, k), kinds[1..], img);
      assert Contents(args)[1..] == Contents(rest);
    } else {
      MisplacedHead(s, c, p, kinds);
      args := [Filled(k, 1)] + Blanks(kinds[1..]);
      assert args[1..] == Blanks(kinds[1..]);
      assert Answers(c, kinds, AtCall(PushAll(s, args)))[0] != Contents(args)[0];
    }
  }

  /** reset: registers and buffer hold stale contents. */
  predicate Fresh(s: Caller, total: nat) {
    s.Valid() && s.i == 0 && s.fp == Fp(0, 0) && s.vec.size == 16 && |s.vec.mem| == total
  }

  const READER := Reader(0, 0, 0, 16)

  ghost predicate AlwaysReadsBack(kinds: seq<Kind>, total: nat) {
    forall s: Caller, args: seq<Arg> {:trigger Fresh(s, total), Kinds(args)} ::
      Fresh(s, total) && Kinds(args) == kinds ==> Answers(READER, kinds, AtCall(PushAll(s, args))) == Contents(args)
  }

  /**
    Argument kinds that fit the vector read back whatever their values if and only if every FP
    value spills late. The callback looks for a spilled value in r0-r3, where neither the
    caller nor the AAPCS puts one.
   */
  lemma ReadsBackExactly(kinds: seq<Kind>, total: nat)
    requires AfterAll(READER, kinds).sp <= total
    ensures AlwaysReadsBack(kinds, total) <==> SpillsLate(START, kinds)
  {
    if SpillsLate(START, kinds) {
      forall s: Caller, args: seq<Arg> | Fresh(s, total) && Kinds(args) == kinds
        ensures Answers(READER, kinds, AtCall(PushAll(s, args))) == Contents(args)
      {
        RoundTrip(s, READER, START, args, AtCall(PushAll(s, args)));
      }
    } else {
      var s := Caller(0, Fp(0, 0), seq(16, _ => [0, 0, 0, 0]), Vec(Zeros(total), 16));
      var args := EarlySpillBreaks(s, READER, START, kinds);
      assert Fresh(s, total) && Kinds(args) == kinds;
    }
  }
}
