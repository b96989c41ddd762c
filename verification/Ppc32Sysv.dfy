/**
  PowerPC 32-bit, System V ABI (dyncall_callvm_ppc32.c, dyncall_args_ppc32_sysv.c): 64-bit
  integers take even register pairs, a spilled one closes the integer registers for good, and
  64-bit values are realigned on the stack.
 */
module Ppc32Sysv {
  import opened Memory
  import opened Arguments

  const INT_REGS := 8
  const FLOAT_REGS := 8

  // --- the caller -------------------------------------------------------------------------

  datatype Caller = Caller(n: nat, f: nat, gi: seq<Word>, gf: seq<Eightbyte>, vec: Vec) {
    predicate Valid() {
      n <= INT_REGS && f <= FLOAT_REGS && |gi| == INT_REGS && |gf| == FLOAT_REGS
    }
  }

  /** dc_callvm_argInt_ppc32_sysv */
  function PushInt(s: Caller, w: Word): (r: Caller)
    requires s.Valid()
    ensures r.Valid() && |r.vec.mem| == |s.vec.mem|
  {
    if s.n < INT_REGS then s.(gi := s.gi[s.n := w], n := s.n + 1) else s.(vec := s.vec.Append(w))
  }

  /** dc_callvm_argLongLong_ppc32_sysv */
  function PushLong(s: Caller, l: Eightbyte): (r: Caller)
    requires s.Valid()
    ensures r.Valid() && |r.vec.mem| == |s.vec.mem|
  {
    if s.n < 7 then
      var e := if s.n % 2 == 1 then s.n + 1 else s.n;
      s.(gi := s.gi[e := l[..4]][e + 1 := l[4..]], n := e + 2)
    else
      s.(n := 8, vec := s.vec.Align(8).Append(l))
  }

  /** dc_callvm_argDouble_ppc32_sysv */
  function PushDouble(s: Caller, d: Eightbyte): (r: Caller)
    requires s.Valid()
    ensures r.Valid() && |r.vec.mem| == |s.vec.mem|
  {
    if s.f < FLOAT_REGS then s.(gf := s.gf[s.f := d], f := s.f + 1) else s.(vec := s.vec.Align(8).Append(d))
  }

  /** dc_callvm_argFloat_ppc32_sysv */
  function PushFloat(u: FloatUnit, s: Caller, f: Word): (r: Caller)
    requires s.Valid()
    ensures r.Valid() && |r.vec.mem| == |s.vec.mem|
  {
    if s.f < FLOAT_REGS then s.(gf := s.gf[s.f := u.widen(f)], f := s.f + 1) else s.(vec := s.vec.Append(f))
  }

  function Push(u: FloatUnit, s: Caller, a: Arg): (r: Caller)
    requires s.Valid()
    ensures r.Valid() && |r.vec.mem| == |s.vec.mem|
  {
    match a
    case WordArg(w) => PushInt(s, w)
    case LongArg(l) => PushLong(s, l)
    case FloatArg(f) => PushFloat(u, s, f)
    case DoubleArg(d) => PushDouble(s, d)
  }

  function PushAll(u: FloatUnit, s: Caller, args: seq<Arg>): (r: Caller)
    requires s.Valid()
    ensures r.Valid() && |r.vec.mem| == |s.vec.mem|
    decreases |args|
  {
    if args == [] then s else PushAll(u, Push(u, s, args[0]), args[1..])
  }

  // --- the callback -----------------------------------------------------------------------

  datatype Image = Image(gi: seq<Word>, gf: seq<Eightbyte>, mem: seq<byte>) {
    predicate Valid() {
      |gi| == INT_REGS && |gf| == FLOAT_REGS
    }
  }

  /** `sp` counts from the first stack argument, which is eight-byte aligned. */
  datatype Reader = Reader(n: nat, f: nat, sp: nat)

  function After(c: Reader, k: Kind): (r: Reader)
    ensures r.sp >= c.sp
  {
    match k
    case KWord => if c.n < INT_REGS then c.(n := c.n + 1) else c.(sp := c.sp + 4)
    case KLong => if c.n < 7 then c.(n := (c.n + 1) / 2 * 2 + 2) else c.(n := 8, sp := RoundUp(c.sp, 8) + 8)
    case KFloat => if c.f < FLOAT_REGS then c.(f := c.f + 1) else c.(sp := c.sp + 4)
    case KDouble => if c.f < FLOAT_REGS then c.(f := c.f + 1) else c.(sp := RoundUp(c.sp, 8) + 8)
  }

  function Answer(u: FloatUnit, c: Reader, k: Kind, img: Image): seq<byte>
    requires img.Valid()
  {
    match k
    case KWord => if c.n < INT_REGS then img.gi[c.n] else Load(img.mem, c.sp, 4)
    case KLong =>
      if c.n < 7 then
        var e := (c.n + 1) / 2 * 2;
        var hi: seq<byte> := img.gi[e]; hi + img.gi[e + 1]
      else Load(img.mem, RoundUp(c.sp, 8), 8)
    case KFloat => if c.f < FLOAT_REGS then u.narrow(img.gf[c.f]) else Load(img.mem, c.sp, 4)
    case KDouble => if c.f < FLOAT_REGS then img.gf[c.f] else Load(img.mem, RoundUp(c.sp, 8), 8)
  }

  function AfterAll(c: Reader, kinds: seq<Kind>): (r: Reader)
    ensures r.sp >= c.sp
    decreases |kinds|
  {
    if kinds == [] then c else AfterAll(After(c, kinds[0]), kinds[1..])
  }

  function Answers(u: FloatUnit, c: Reader, kinds: seq<Kind>, img: Image): seq<seq<byte>>
    requires img.Valid()
    decreases |kinds|
  {
    if kinds == [] then [] else [Answer(u, c, kinds[0], img)] + Answers(u, After(c, kinds[0]), kinds[1..], img)
  }

  // --- round trip -------------------------------------------------------------------------

  predicate InStep(s: Caller, c: Reader) {
    s.Valid() && s.n == c.n && s.f == c.f && s.vec.size == c.sp
  }

  predicate Holds(s: Caller, img: Image)
    requires s.Valid()
  {
    && img.Valid()
    && (forall k :: 0 <= k < s.n ==> img.gi[k] == s.gi[k])
    && (forall k :: 0 <= k < s.f ==> img.gf[k] == s.gf[k])
    && SameBelow(s.vec.mem, img.mem, s.vec.size)
  }

  lemma PushKeeps(u: FloatUnit, s: Caller, a: Arg, img: Image)
    requires s.Valid() && Holds(Push(u, s, a), img)
    ensures Holds(s, img)
  {
  }

  lemma {:induction false} PushAllKeeps(u: FloatUnit, s: Caller, args: seq<Arg>, img: Image)
    requires s.Valid() && Holds(PushAll(u, s, args), img)
    ensures Holds(s, img)
    decreases |args|
  {
    if args != [] {
      PushAllKeeps(u, Push(u, s, args[0]), args[1..], img);
      PushKeeps(u, s, args[0], img);
    }
  }

  lemma LongStep(u: FloatUnit, s: Caller, c: Reader, l: Eightbyte, img: Image)
    requires InStep(s, c) && After(c, KLong).sp <= |s.vec.mem|
    ensures InStep(PushLong(s, l), After(c, KLong))
    ensures Holds(PushLong(s, l), img) ==> Answer(u, c, KLong, img) == l
  {
    hide Load, RoundUp;
    if s.n < 7 {
      var e := (c.n + 1) / 2 * 2;
      assert e == if s.n % 2 == 1 then s.n + 1 else s.n;
      assert l[..4] + l[4..] == l;
    } else if Holds(PushLong(s, l), img) {
      SameBelowLoads(PushLong(s, l).vec.mem, img.mem, RoundUp(s.vec.size, 8) + 8, RoundUp(s.vec.size, 8), 8);
    }
  }

  lemma ScalarStep(u: FloatUnit, s: Caller, c: Reader, a: Arg, img: Image)
    requires u.Lossless() && InStep(s, c) && !a.LongArg? && After(c, a.Kind()).sp <= |s.vec.mem|
    ensures InStep(Push(u, s, a), After(c, a.Kind()))
    ensures Holds(Push(u, s, a), img) ==> Answer(u, c, a.Kind(), img) == a.Bytes()
  {
    hide Load, RoundUp;
    var s1 := Push(u, s, a);
    if Holds(s1, img) && s1.vec != s.vec {
      var off := if a.DoubleArg? then RoundUp(s.vec.size, 8) else s.vec.size;
      SameBelowLoads(s1.vec.mem, img.mem, s1.vec.size, off, |a.Bytes()|);
    }
  }

  /** Pair skipping, the closing of the integer registers and stack realignment stay in lockstep. */
  lemma Step(u: FloatUnit, s: Caller, c: Reader, a: Arg, img: Image)
    requires u.Lossless() && InStep(s, c) && After(c, a.Kind()).sp <= |s.vec.mem|
    ensures InStep(Push(u, s, a), After(c, a.Kind()))
    ensures Holds(Push(u, s, a), img) ==> Answer(u, c, a.Kind(), img) == a.Bytes()
  {
    hide InStep, Holds, Answer, After;
    if a.LongArg? {
      LongStep(u, s, c, a.l, img);
    } else {
      ScalarStep(u, s, c, a, img);
    }
  }

  lemma {:induction false} RoundTrip(u: FloatUnit, s: Caller, c: Reader, args: seq<Arg>, img: Image)
    requires u.Lossless() && InStep(s, c) && AfterAll(c, Kinds(args)).sp <= |s.vec.mem|
    requires Holds(PushAll(u, s, args), img)
    ensures Answers(u, c, Kinds(args), img) == Contents(args)
    ensures InStep(PushAll(u, s, args), AfterAll(c, Kinds(args)))
    decreases |args|
  {
    if args != [] {
      Step(u, s, c, args[0], img);
      PushAllKeeps(u, Push(u, s, args[0]), args[1..], img);
      RoundTrip(u, Push(u, s, args[0]), After(c, args[0].Kind()), args[1..], img);
    }
  }

  /** dc_callvm_reset_ppc32 */
  predicate Fresh(s: Caller) {
    s.Valid() && s.n == 0 && s.f == 0 && s.vec.size == 0
  }

  /** Every argument list that fits the vector arrives unchanged. */
  lemma CallRoundTrip(u: FloatUnit, s: Caller, args: seq<Arg>)
    requires u.Lossless() && Fresh(s) && AfterAll(Reader(0, 0, 0), Kinds(args)).sp <= |s.vec.mem|
    ensures var e := PushAll(u, s, args);
            Answers(u, Reader(0, 0, 0), Kinds(args), Image(e.gi, e.gf, e.vec.mem)) == Contents(args)
  {
    var e := PushAll(u, s, args);
    RoundTrip(u, s, Reader(0, 0, 0), args, Image(e.gi, e.gf, e.vec.mem));
  }

  // --- what the ABI asks of the placement --------------------------------------------------

  /** A 64-bit integer in registers takes the lowest free even pair; the one it may skip is never used. */
  lemma PairsAreEven(u: FloatUnit, s: Caller, l: Eightbyte, args: seq<Arg>)
    requires s.Valid() && s.n < 7
    ensures var e := PushLong(s, l).n - 2;
            && e % 2 == 0 && s.n <= e <= s.n + 1
            && PushAll(u, PushLong(s, l), args).gi[..e + 2] == s.gi[..e] + [l[..4]] + [l[4..]]
  {
    RegistersStay(u, PushLong(s, l), args);
  }

  lemma {:induction false} RegistersStay(u: FloatUnit, s: Caller, args: seq<Arg>)
    requires s.Valid()
    ensures PushAll(u, s, args).gi[..s.n] == s.gi[..s.n]
    ensures s.n <= PushAll(u, s, args).n
    decreases |args|
  {
    if args != [] {
      var s1 := Push(u, s, args[0]);
      RegistersStay(u, s1, args[1..]);
      assert s1.gi[..s.n] == s.gi[..s.n] && s.n <= s1.n;
      assert PushAll(u, s1, args[1..]).gi[..s.n] == PushAll(u, s1, args[1..]).gi[..s1.n][..s.n];
    }
  }

  /** Once a 64-bit integer has spilled, no integer goes into a register again, not even the one left over. */
  lemma SpilledLongClosesRegisters(u: FloatUnit, s: Caller, l: Eightbyte, args: seq<Arg>)
    requires s.Valid() && s.n >= 7
    ensures PushAll(u, PushLong(s, l), args).gi == s.gi
  {
    var s1 := PushLong(s, l);
    RegistersStay(u, s1, args);
    assert s1.gi[..8] == s1.gi;
    assert PushAll(u, s1, args).gi[..8] == PushAll(u, s1, args).gi;
  }
}
