/**
  Apple's arm64 convention for named arguments (dyncall_callvm_arm64_apple.c,
  dyncall_args_arm64_apple.c): values that spill take their own size on the stack, at their
  natural alignment.
 */
module AppleArm64 {
  import opened Memory

  const REGS := 8

  /** A bool, char, short, int, long, long long or pointer by its bytes; a float; a double. */
  datatype Arg = IntArg(b: seq<byte>) | FloatArg(b: seq<byte>) | DoubleArg(b: seq<byte>) {
    predicate Valid() {
      match this
      case IntArg(b) => |b| in {1, 2, 4, 8}
      case FloatArg(b) => |b| == 4
      case DoubleArg(b) => |b| == 8
    }
  }

  datatype Ask = AskInt(n: nat) | AskFloat | AskDouble {
    predicate Valid() {
      AskInt? ==> n in {1, 2, 4, 8}
    }

    function Size(): (n: nat)
      requires Valid()
      ensures PowerOfTwo(n) && n <= 8
    {
      match this
      case AskInt(n) => n
      case AskFloat => 4
      case AskDouble => 8
    }
  }

  function AskFor(a: Arg): (q: Ask)
    requires a.Valid()
    ensures q.Valid() && q.Size() == |a.b|
  {
    match a
    case IntArg(b) => AskInt(|b|)
    case FloatArg(_) => AskFloat
    case DoubleArg(_) => AskDouble
  }

  predicate AllValid(args: seq<Arg>) {
    forall a :: a in args ==> a.Valid()
  }

  // --- the caller -------------------------------------------------------------------------

  datatype Caller = Caller(i: nat, f: nat, gi: seq<Eightbyte>, gf: seq<Eightbyte>, vec: Vec) {
    predicate Valid() {
      i <= REGS && f <= REGS && |gi| == REGS && |gf| == REGS
    }
  }

  /** dcVecAlign to the size of the value, then dcVecAppend */
  function Spill(v: Vec, b: seq<byte>): (r: Vec)
    requires PowerOfTwo(|b|)
    ensures |r.mem| == |v.mem| && SameBelow(v.mem, r.mem, v.size) && r.size >= v.size
    ensures RoundUp(v.size, |b|) + |b| <= |v.mem| ==>
              r.size == RoundUp(v.size, |b|) + |b| && Load(r.mem, RoundUp(v.size, |b|), |b|) == b
  {
    v.Align(|b|).Append(b)
  }

  /** a_bool, a_char, a_short, a_int, a_long, a_i64 and a_pointer */
  function PushInt(s: Caller, b: seq<byte>): (r: Caller)
    requires s.Valid() && |b| in {1, 2, 4, 8}
    ensures r.Valid() && |r.vec.mem| == |s.vec.mem|
  {
    if s.i < REGS then s.(gi := s.gi[s.i := SignExtend(b, 8)], i := s.i + 1) else s.(vec := Spill(s.vec, b))
  }

  /** a_float: the single occupies the low half of the register, the high half is left alone. */
  function PushFloat(s: Caller, b: seq<byte>): (r: Caller)
    requires s.Valid() && |b| == 4
    ensures r.Valid() && |r.vec.mem| == |s.vec.mem|
  {
    if s.f < REGS then s.(gf := s.gf[s.f := b + s.gf[s.f][4..]], f := s.f + 1) else s.(vec := Spill(s.vec, b))
  }

  /** a_double */
  function PushDouble(s: Caller, b: seq<byte>): (r: Caller)
    requires s.Valid() && |b| == 8
    ensures r.Valid() && |r.vec.mem| == |s.vec.mem|
  {
    if s.f < REGS then s.(gf := s.gf[s.f := b], f := s.f + 1) else s.(vec := Spill(s.vec, b))
  }

  function Push(s: Caller, a: Arg): (r: Caller)
    requires s.Valid() && a.Valid()
    ensures r.Valid() && |r.vec.mem| == |s.vec.mem|
  {
    match a
    case IntArg(b) => PushInt(s, b)
    case FloatArg(b) => PushFloat(s, b)
    case DoubleArg(b) => PushDouble(s, b)
  }

  function PushAll(s: Caller, args: seq<Arg>): (r: Caller)
    requires s.Valid() && AllValid(args)
    ensures r.Valid() && |r.vec.mem| == |s.vec.mem|
    decreases |args|
  {
    if args == [] then s else PushAll(Push(s, args[0]), args[1..])
  }

  // --- the callback -----------------------------------------------------------------------

  datatype Image = Image(gi: seq<Eightbyte>, gf: seq<Eightbyte>, mem: seq<byte>) {
    predicate Valid() {
      |gi| == REGS && |gf| == REGS
    }
  }

  /** `sp` counts from the first stack argument, which is eight-byte aligned. */
  datatype Reader = Reader(i: nat, f: nat, sp: nat)

  predicate InRegister(c: Reader, q: Ask) {
    if q.AskInt? then c.i < REGS else c.f < REGS
  }

  function After(c: Reader, q: Ask): (r: Reader)
    requires q.Valid()
    ensures r.sp >= c.sp
  {
    if !InRegister(c, q) then c.(sp := RoundUp(c.sp, q.Size()) + q.Size())
    else if q.AskInt? then c.(i := c.i + 1)
    else c.(f := c.f + 1)
  }

  function Answer(c: Reader, q: Ask, img: Image): seq<byte>
    requires q.Valid() && img.Valid()
  {
    if !InRegister(c, q) then Load(img.mem, RoundUp(c.sp, q.Size()), q.Size())
    else if q.AskInt? then img.gi[c.i][..q.n]
    else img.gf[c.f][..q.Size()]
  }

  function AfterAll(c: Reader, args: seq<Arg>): (r: Reader)
    requires AllValid(args)
    ensures r.sp >= c.sp
    decreases |args|
  {
    if args == [] then c else AfterAll(After(c, AskFor(args[0])), args[1..])
  }

  /** What the callback reads when it asks for the types that were passed, in order. */
  function Answers(c: Reader, args: seq<Arg>, img: Image): seq<seq<byte>>
    requires AllValid(args) && img.Valid()
    decreases |args|
  {
    if args == [] then []
    else [Answer(c, AskFor(args[0]), img)] + Answers(After(c, AskFor(args[0])), args[1..], img)
  }

  function Contents(args: seq<Arg>): seq<seq<byte>> {
    if args == [] then [] else [args[0].b] + Contents(args[1..])
  }

  // --- round trip -------------------------------------------------------------------------

  predicate InStep(s: Caller, c: Reader) {
    s.Valid() && s.i == c.i && s.f == c.f && s.vec.size == c.sp
  }

  predicate Holds(s: Caller, img: Image)
    requires s.Valid()
  {
    && img.Valid()
    && (forall k :: 0 <= k < s.i ==> img.gi[k] == s.gi[k])
    && (forall k :: 0 <= k < s.f ==> img.gf[k] == s.gf[k])
    && SameBelow(s.vec.mem, img.mem, s.vec.size)
  }

  lemma PushKeeps(s: Caller, a: Arg, img: Image)
    requires s.Valid() && a.Valid() && Holds(Push(s, a), img)
    ensures Holds(s, img)
  {
    hide Spill, SignExtend, Load, RoundUp;
  }

  lemma {:induction false} PushAllKeeps(s: Caller, args: seq<Arg>, img: Image)
    requires s.Valid() && AllValid(args) && Holds(PushAll(s, args), img)
    ensures Holds(s, img)
    decreases |args|
  {
    if args != [] {
      PushAllKeeps(Push(s, args[0]), args[1..], img);
      PushKeeps(s, args[0], img);
    }
  }

  lemma Step(s: Caller, c: Reader, a: Arg, img: Image)
    requires InStep(s, c) && a.Valid() && After(c, AskFor(a)).sp <= |s.vec.mem|
    ensures InStep(Push(s, a), After(c, AskFor(a)))
    ensures Holds(Push(s, a), img) ==> Answer(c, AskFor(a), img) == a.b
  {
    hide Spill, Load, RoundUp;
    var s1 := Push(s, a);
    if Holds(s1, img) && !InRegister(c, AskFor(a)) {
      SameBelowLoads(s1.vec.mem, img.mem, s1.vec.size, RoundUp(s.vec.size, |a.b|), |a.b|);
    }
  }

  /** Every argument list that fits reads back, and the offsets of the two sides agree throughout. */
  lemma {:induction false} RoundTrip(s: Caller, c: Reader, args: seq<Arg>, img: Image)
    requires InStep(s, c) && AllValid(args) && AfterAll(c, args).sp <= |s.vec.mem|
    requires Holds(PushAll(s, args), img)
    ensures Answers(c, args, img) == Contents(args)
    ensures InStep(PushAll(s, args), AfterAll(c, args))
    decreases |args|
  {
    if args != [] {
      Step(s, c, args[0], img);
      PushAllKeeps(Push(s, args[0]), args[1..], img);
      RoundTrip(Push(s, args[0]), After(c, AskFor(args[0])), args[1..], img);
    }
  }

  /** A value that spills lies at a multiple of its size, and no later argument disturbs it. */
  lemma SpilledValueIsNaturallyAligned(s: Caller, a: Arg, args: seq<Arg>)
    requires s.Valid() && a.Valid() && AllValid(args)
    requires if a.IntArg? then s.i == REGS else s.f == REGS
    requires RoundUp(s.vec.size, |a.b|) + |a.b| <= |s.vec.mem|
    ensures exists off :: s.vec.size <= off < s.vec.size + |a.b| && Aligned(off, |a.b|) &&
                          Load(PushAll(Push(s, a), args).vec.mem, off, |a.b|) == a.b
  {
    hide Load, RoundUp;
    var s1, off := Push(s, a), RoundUp(s.vec.size, |a.b|);
    var e := PushAll(s1, args);
    var img := Image(e.gi, e.gf, e.vec.mem);
    PushAllKeeps(s1, args, img);
    SameBelowLoads(s1.vec.mem, img.mem, s1.vec.size, off, |a.b|);
    assert Load(e.vec.mem, off, |a.b|) == a.b;
  }

  /** reset */
  predicate Fresh(s: Caller) {
    s.Valid() && s.i == 0 && s.f == 0 && s.vec.size == 0
  }

  lemma CallRoundTrip(s: Caller, args: seq<Arg>)
    requires Fresh(s) && AllValid(args) && AfterAll(Reader(0, 0, 0), args).sp <= |s.vec.mem|
    ensures var e := PushAll(s, args);
            Answers(Reader(0, 0, 0), args, Image(e.gi, e.gf, e.vec.mem)) == Contents(args)
  {
    var e := PushAll(s, args);
    RoundTrip(s, Reader(0, 0, 0), args, Image(e.gi, e.gf, e.vec.mem));
  }
}
