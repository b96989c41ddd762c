/**
  PowerPC 32-bit, Darwin ABI (dyncall_callvm_ppc32.c, dyncall_args_ppc32.c): every argument
  goes onto the stack, and registers mirror its first words.
 */
module Ppc32Darwin {
  import opened Memory
  import opened Arguments

  const INT_REGS := 8
  const FLOAT_REGS := 13

  // --- the caller -------------------------------------------------------------------------

  datatype Caller = Caller(n: nat, f: nat, gi: seq<Word>, gf: seq<Eightbyte>, vec: Vec) {
    predicate Valid() {
      n <= INT_REGS && f <= FLOAT_REGS && |gi| == INT_REGS && |gf| == FLOAT_REGS
    }
  }

  /** Fill the next integer register, if there is one. */
  function FillInt(s: Caller, w: Word): (r: Caller)
    requires s.Valid()
    ensures r.Valid() && r.vec == s.vec
  {
    if s.n < INT_REGS then s.(gi := s.gi[s.n := w], n := s.n + 1) else s
  }

  /** dc_callvm_argInt_ppc32_darwin */
  function PushInt(s: Caller, w: Word): (r: Caller)
    requires s.Valid()
    ensures r.Valid() && |r.vec.mem| == |s.vec.mem|
  {
    var s1 := FillInt(s, w);
    s1.(vec := s1.vec.Append(w))
  }

  /** dc_callvm_argDouble_ppc32_darwin */
  function PushDouble(s: Caller, d: Eightbyte): (r: Caller)
    requires s.Valid()
    ensures r.Valid() && |r.vec.mem| == |s.vec.mem|
  {
    var s1 := if s.f < FLOAT_REGS
              then FillInt(FillInt(s.(gf := s.gf[s.f := d], f := s.f + 1), d[..4]), d[4..])
              else s;
    s1.(vec := s1.vec.Append(d))
  }

  /** dc_callvm_argFloat_ppc32_darwin */
  function PushFloat(u: FloatUnit, s: Caller, f: Word): (r: Caller)
    requires s.Valid()
    ensures r.Valid() && |r.vec.mem| == |s.vec.mem|
  {
    var s1 := if s.f < FLOAT_REGS then s.(gf := s.gf[s.f := u.widen(f)], f := s.f + 1) else s;
    PushInt(s1, f)
  }

  function Push(u: FloatUnit, s: Caller, a: Arg): (r: Caller)
    requires s.Valid()
    ensures r.Valid() && |r.vec.mem| == |s.vec.mem|
  {
    match a
    case WordArg(w) => PushInt(s, w)
    case LongArg(l) => PushInt(PushInt(s, l[..4]), l[4..])
    case FloatArg(f) => PushFloat(u, s, f)
    case DoubleArg(d) => PushDouble(s, d)
  }

  function PushAll(u: FloatUnit, s: Caller, args: seq<Arg>): (r: Caller)
    requires s.Valid()
    ensures r.Valid() && |r.vec.mem| == |s.vec.mem|
    decreases |args|
  {
    if args == [] then s else PushAll(u, Push(u, s, args[0]), args[1..])
  }

  // --- the callback -----------------------------------------------------------------------

  datatype Image = Image(gi: seq<Word>, gf: seq<Eightbyte>, mem: seq<byte>) {
    predicate Valid() {
      |gi| == INT_REGS && |gf| == FLOAT_REGS
    }
  }

  datatype Reader = Reader(n: nat, f: nat, sp: nat)

  /** dcbArgInt */
  function AfterInt(c: Reader): Reader {
    c.(n := if c.n < INT_REGS then c.n + 1 else c.n, sp := c.sp + 4)
  }

  function IntAt(c: Reader, img: Image): Word
    requires img.Valid()
  {
    if c.n < INT_REGS then img.gi[c.n] else Load(img.mem, c.sp, 4)
  }

  function After(c: Reader, k: Kind): Reader {
    match k
    case KWord => AfterInt(c)
    case KLong => AfterInt(AfterInt(c))
    case KFloat =>
      c.(n := if c.n < 8 then c.n + 1 else c.n, f := if c.f < FLOAT_REGS then c.f + 1 else c.f, sp := c.sp + 4)
    case KDouble =>
      c.(n := if c.n < 7 then c.n + 2 else if c.n == 7 then 8 else c.n,
         f := if c.f < FLOAT_REGS then c.f + 1 else c.f, sp := c.sp + 8)
  }

  function Answer(u: FloatUnit, c: Reader, k: Kind, img: Image): seq<byte>
    requires img.Valid()
  {
    match k
    case KWord => IntAt(c, img)
    case KLong => var hi: seq<byte> := IntAt(c, img); hi + IntAt(AfterInt(c), img)
    case KFloat => if c.f < FLOAT_REGS then u.narrow(img.gf[c.f]) else Load(img.mem, c.sp, 4)
    case KDouble => if c.f < FLOAT_REGS then img.gf[c.f] else Load(img.mem, c.sp, 8)
  }

  function Answers(u: FloatUnit, c: Reader, kinds: seq<Kind>, img: Image): seq<seq<byte>>
    requires img.Valid()
    decreases |kinds|
  {
    if kinds == [] then [] else [Answer(u, c, kinds[0], img)] + Answers(u, After(c, kinds[0]), kinds[1..], img)
  }

  /** Bytes of stack the arguments take: every argument has its words there. */
  function StackBytes(kinds: seq<Kind>): nat {
    if kinds == [] then 0 else (if kinds[0] in {KWord, KFloat} then 4 else 8) + StackBytes(kinds[1..])
  }

  // --- the mirror -------------------------------------------------------------------------

  /**
    The registers in use are min(8, words), register k holds stack word k, and no more
    floating-point registers are used than words: so when these run out the integer
    registers have long been full.
   */
  predicate Mirror(s: Caller) {
    && s.Valid() && s.vec.size % 4 == 0 && s.vec.size <= |s.vec.mem|
    && s.n == (if s.vec.size / 4 < INT_REGS then s.vec.size / 4 else INT_REGS)
    && 4 * s.f <= s.vec.size
    && forall k :: 0 <= k < s.n ==> s.gi[k] == Load(s.vec.mem, 4 * k, 4)
  }

  predicate Fits(s: Caller, a: Arg) {
    s.vec.size + |a.Bytes()| <= |s.vec.mem|
  }

  lemma IntKeepsMirror(s: Caller, w: Word)
    requires Mirror(s) && s.vec.size + 4 <= |s.vec.mem|
    ensures Mirror(PushInt(s, w)) && PushInt(s, w).vec.size == s.vec.size + 4
  {
    var r := PushInt(s, w);
    forall k | 0 <= k < s.n ensures Load(r.vec.mem, 4 * k, 4) == Load(s.vec.mem, 4 * k, 4) {
      SameBelowLoads(s.vec.mem, r.vec.mem, s.vec.size, 4 * k, 4);
    }
  }

  /** A double is two words, of which both, one or neither may find a register. */
  lemma DoubleIsTwoWords(s: Caller, d: Eightbyte)
    requires Mirror(s) && s.vec.size + 8 <= |s.vec.mem|
    ensures var two := PushInt(PushInt(s, d[..4]), d[4..]);
            var r := PushDouble(s, d);
            r.gi == two.gi && r.n == two.n && r.vec == two.vec
  {
    hide Mirror, Load;
    MirrorCounts(s);
    TwoStores(s.vec.mem, s.vec.size, d);
  }

  lemma TwoStores(mem: seq<byte>, off: nat, d: Eightbyte)
    requires off + 8 <= |mem|
    ensures Store(Store(mem, off, d[..4]), off + 4, d[4..]) == Store(mem, off, d)
  {
  }

  /** The invariant of the whole design, kept by every argument that fits. */
  lemma PushKeepsMirror(u: FloatUnit, s: Caller, a: Arg)
    requires Mirror(s) && Fits(s, a)
    ensures Mirror(Push(u, s, a)) && Push(u, s, a).vec.size == s.vec.size + |a.Bytes()|
  {
    hide Mirror, Load, Store;
    MirrorCounts(s);
    match a
    case WordArg(w) => IntKeepsMirror(s, w);
    case LongArg(l) =>
      IntKeepsMirror(s, l[..4]);
      IntKeepsMirror(PushInt(s, l[..4]), l[4..]);
    case FloatArg(f) => FloatKeepsMirror(u, s, f);
    case DoubleArg(d) =>
      DoubleIsTwoWords(s, d);
      IntKeepsMirror(s, d[..4]);
      IntKeepsMirror(PushInt(s, d[..4]), d[4..]);
      DoubleKeepsMirror(s, d);
  }

  lemma FloatKeepsMirror(u: FloatUnit, s: Caller, f: Word)
    requires Mirror(s) && s.vec.size + 4 <= |s.vec.mem|
    ensures Mirror(PushFloat(u, s, f)) && PushFloat(u, s, f).vec.size == s.vec.size + 4
  {
    hide Load;
    IntKeepsMirror(s, f);
  }

  lemma DoubleKeepsMirror(s: Caller, d: Eightbyte)
    requires Mirror(s) && s.vec.size + 8 <= |s.vec.mem|
    requires Mirror(PushInt(PushInt(s, d[..4]), d[4..]))
            && PushInt(PushInt(s, d[..4]), d[4..]).vec.size == s.vec.size + 8
    ensures Mirror(PushDouble(s, d)) && PushDouble(s, d).vec.size == s.vec.size + 8
  {
    hide Load, Store;
    DoubleIsTwoWords(s, d);
  }

  // --- round trip -------------------------------------------------------------------------

  predicate InStep(s: Caller, c: Reader) {
    Mirror(s) && s.n == c.n && s.f == c.f && s.vec.size == c.sp
  }

  predicate Holds(s: Caller, img: Image)
    requires s.Valid()
  {
    && img.Valid()
    && (forall k :: 0 <= k < s.n ==> img.gi[k] == s.gi[k])
    && (forall k :: 0 <= k < s.f ==> img.gf[k] == s.gf[k])
    && SameBelow(s.vec.mem, img.mem, s.vec.size)
  }

  lemma IntKeeps(s: Caller, w: Word, img: Image)
    requires s.Valid() && Holds(PushInt(s, w), img)
    ensures Holds(s, img)
  {
  }

  lemma DoubleKeeps(s: Caller, d: Eightbyte, img: Image)
    requires s.Valid() && Holds(PushDouble(s, d), img)
    ensures Holds(s, img)
  {
  }

  lemma FloatKeeps(u: FloatUnit, s: Caller, f: Word, img: Image)
    requires s.Valid() && Holds(PushFloat(u, s, f), img)
    ensures Holds(s, img)
  {
  }

  lemma PushKeeps(u: FloatUnit, s: Caller, a: Arg, img: Image)
    requires s.Valid() && Holds(Push(u, s, a), img)
    ensures Holds(s, img)
  {
    hide Holds, PushInt, PushDouble, PushFloat;
    match a
    case WordArg(w) => IntKeeps(s, w, img);
    case LongArg(l) =>
      IntKeeps(PushInt(s, l[..4]), l[4..], img);
      IntKeeps(s, l[..4], img);
    case FloatArg(f) => FloatKeeps(u, s, f, img);
    case DoubleArg(d) => DoubleKeeps(s, d, img);
  }

  lemma {:induction false} PushAllKeeps(u: FloatUnit, s: Caller, args: seq<Arg>, img: Image)
    requires s.Valid() && Holds(PushAll(u, s, args), img)
    ensures Holds(s, img)
    decreases |args|
  {
    if args != [] {
      PushAllKeeps(u, Push(u, s, args[0]), args[1..], img);
      PushKeeps(u, s, args[0], img);
    }
  }

  lemma IntStep(s: Caller, c: Reader, w: Word, img: Image)
    requires InStep(s, c) && s.vec.size + 4 <= |s.vec.mem|
    ensures InStep(PushInt(s, w), AfterInt(c))
    ensures Holds(PushInt(s, w), img) ==> IntAt(c, img) == w && Load(img.mem, c.sp, 4) == w
  {
    IntKeepsMirror(s, w);
    if Holds(PushInt(s, w), img) {
      SameBelowLoads(PushInt(s, w).vec.mem, img.mem, s.vec.size + 4, s.vec.size, 4);
    }
  }

  lemma LongStep(s: Caller, c: Reader, l: Eightbyte, img: Image)
    requires InStep(s, c) && s.vec.size + 8 <= |s.vec.mem|
    ensures InStep(PushInt(PushInt(s, l[..4]), l[4..]), AfterInt(AfterInt(c)))
    ensures Holds(PushInt(PushInt(s, l[..4]), l[4..]), img) ==> IntAt(c, img) + IntAt(AfterInt(c), img) == l
  {
    hide InStep, Holds, PushInt, IntAt, AfterInt;
    InStepFacts(s, c);
    var s1 := PushInt(s, l[..4]);
    IntKeepsMirror(s, l[..4]);
    IntStep(s, c, l[..4], img);
    IntStep(s1, AfterInt(c), l[4..], img);
    if Holds(PushInt(s1, l[4..]), img) {
      IntKeeps(s1, l[4..], img);
      assert l[..4] + l[4..] == l;
    }
  }

  lemma FloatStep(u: FloatUnit, s: Caller, c: Reader, f: Word, img: Image)
    requires u.Lossless() && InStep(s, c) && s.vec.size + 4 <= |s.vec.mem|
    ensures InStep(PushFloat(u, s, f), After(c, KFloat))
    ensures Holds(PushFloat(u, s, f), img) ==> Answer(u, c, KFloat, img) == f
  {
    PushKeepsMirror(u, s, FloatArg(f));
    hide Mirror, Load;
    MirrorCounts(s);
    if Holds(PushFloat(u, s, f), img) {
      SameBelowLoads(PushFloat(u, s, f).vec.mem, img.mem, s.vec.size + 4, s.vec.size, 4);
    }
  }

  lemma DoubleStep(u: FloatUnit, s: Caller, c: Reader, d: Eightbyte, img: Image)
    requires InStep(s, c) && s.vec.size + 8 <= |s.vec.mem|
    ensures InStep(PushDouble(s, d), After(c, KDouble))
    ensures Holds(PushDouble(s, d), img) ==> Answer(u, c, KDouble, img) == d
  {
    PushKeepsMirror(u, s, DoubleArg(d));
    hide Mirror, Load;
    MirrorCounts(s);
    if Holds(PushDouble(s, d), img) {
      SameBelowLoads(PushDouble(s, d).vec.mem, img.mem, s.vec.size + 8, s.vec.size, 8);
    }
  }

  /** When the floating-point registers are used up, the integer registers are too. */
  lemma MirrorCounts(s: Caller)
    requires Mirror(s)
    ensures s.Valid() && (s.f == FLOAT_REGS ==> s.n == INT_REGS)
  {
  }

  lemma Step(u: FloatUnit, s: Caller, c: Reader, a: Arg, img: Image)
    requires u.Lossless() && InStep(s, c) && Fits(s, a)
    ensures InStep(Push(u, s, a), After(c, a.Kind()))
    ensures Holds(Push(u, s, a), img) ==> Answer(u, c, a.Kind(), img) == a.Bytes()
  {
    hide InStep, Holds, PushInt, PushDouble, PushFloat, AfterInt, IntAt;
    match a
    case WordArg(w) => IntStep(s, c, w, img);
    case LongArg(l) => LongStep(s, c, l, img);
    case FloatArg(f) => FloatStep(u, s, c, f, img);
    case DoubleArg(d) => DoubleStep(u, s, c, d, img);
  }

  /** Every argument list that fits reads back unchanged, and the mirror holds at its end. */
  lemma {:induction false} RoundTrip(u: FloatUnit, s: Caller, c: Reader, args: seq<Arg>, img: Image)
    requires u.Lossless() && InStep(s, c) && s.vec.size + StackBytes(Kinds(args)) <= |s.vec.mem|
    requires Holds(PushAll(u, s, args), img)
    ensures Answers(u, c, Kinds(args), img) == Contents(args)
    ensures Mirror(PushAll(u, s, args)) && PushAll(u, s, args).vec.size == s.vec.size + StackBytes(Kinds(args))
    decreases |args|
  {
    hide Answer, After, Push, InStep, Holds, Mirror;
    InStepFacts(s, c);
    if args != [] {
      PushKeepsMirror(u, s, args[0]);
      Step(u, s, c, args[0], img);
      PushAllKeeps(u, Push(u, s, args[0]), args[1..], img);
      RoundTrip(u, Push(u, s, args[0]), After(c, args[0].Kind()), args[1..], img);
    }
  }

  lemma InStepFacts(s: Caller, c: Reader)
    requires InStep(s, c)
    ensures s.Valid() && Mirror(s) && s.vec.size == c.sp
  {
  }

  /** dc_callvm_reset_ppc32 */
  predicate Fresh(s: Caller) {
    s.Valid() && s.n == 0 && s.f == 0 && s.vec.size == 0
  }

  lemma CallRoundTrip(u: FloatUnit, s: Caller, args: seq<Arg>)
    requires u.Lossless() && Fresh(s) && StackBytes(Kinds(args)) <= |s.vec.mem|
    ensures var e := PushAll(u, s, args);
            Mirror(e) && Answers(u, Reader(0, 0, 0), Kinds(args), Image(e.gi, e.gf, e.vec.mem)) == Contents(args)
  {
    var e := PushAll(u, s, args);
    RoundTrip(u, s, Reader(0, 0, 0), args, Image(e.gi, e.gf, e.vec.mem));
  }
}
