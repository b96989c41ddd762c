/**
  PowerPC 64-bit, ELFv2 ABI, little endian (dyncall_callvm_ppc64.c, dyncall_args_ppc64.c).
  The stack starts with a save area that is reserved lazily: by the first named argument that
  overflows (64 bytes), or by the first variadic one (as many slots as registers are used).
 */
module Ppc64 {
  import opened Memory
  import opened Arguments

  const INT_REGS := 8
  const FLOAT_REGS := 13

  /** An argument and the mode of the call VM when it is passed; `pad` is the unset half of a spilled float. */
  datatype Item = Item(a: Arg, variadic: bool, pad: Word)

  // --- the caller -------------------------------------------------------------------------

  datatype Caller = Caller(n: nat, f: nat, gi: seq<Eightbyte>, gf: seq<Eightbyte>, vec: Vec) {
    predicate Valid() {
      n <= INT_REGS && f <= FLOAT_REGS && |gi| == INT_REGS && |gf| == FLOAT_REGS
    }
  }

  /** dcVecSkip on a vector nothing has been pushed on. */
  function Reserve(v: Vec, slots: nat): (r: Vec)
    ensures r.mem == v.mem
  {
    if v.size == 0 then v.Skip(8 * slots) else v
  }

  /** dc_callvm_argLongLong_ppc64, which the narrower integers are widened for */
  function PushLong(s: Caller, l: Eightbyte): (r: Caller)
    requires s.Valid()
    ensures r.Valid() && |r.vec.mem| == |s.vec.mem|
  {
    if s.n < INT_REGS then s.(gi := s.gi[s.n := l], n := s.n + 1)
    else s.(vec := Reserve(s.vec, 8).Append(l))
  }

  /** dc_callvm_argDouble_ppc64 with d == onStack, dc_callvm_argFloat_ppc64 with its padded float */
  function PushFp(s: Caller, d: Eightbyte, onStack: Eightbyte): (r: Caller)
    requires s.Valid()
    ensures r.Valid() && |r.vec.mem| == |s.vec.mem|
  {
    if s.f < FLOAT_REGS && s.n < INT_REGS then
      s.(gf := s.gf[s.f := d], f := s.f + 1, gi := s.gi[s.n := d], n := s.n + 1)
    else
      var s1 := if s.f < FLOAT_REGS then s.(gf := s.gf[s.f := d], f := s.f + 1) else s;
      s1.(vec := Reserve(s.vec, 8).Append(onStack))
  }

  /** dc_callvm_argLongLong_ppc64_ellipsis */
  function PushLongVariadic(s: Caller, l: Eightbyte): (r: Caller)
    requires s.Valid()
    ensures r.Valid() && |r.vec.mem| == |s.vec.mem|
  {
    var v := Reserve(s.vec, s.n).Append(l);
    if s.n < INT_REGS then s.(gi := s.gi[s.n := l], n := s.n + 1, vec := v) else s.(vec := v)
  }

  /** dc_callvm_argDouble_ppc64_ellipsis */
  function PushDoubleVariadic(s: Caller, d: Eightbyte): (r: Caller)
    requires s.Valid()
    ensures r.Valid() && |r.vec.mem| == |s.vec.mem|
  {
    var v := Reserve(s.vec, s.n).Append(d);
    if s.f < FLOAT_REGS && s.n < INT_REGS then
      s.(gf := s.gf[s.f := d], f := s.f + 1, gi := s.gi[s.n := d], n := s.n + 1, vec := v)
    else if s.f < FLOAT_REGS then s.(gf := s.gf[s.f := d], f := s.f + 1, vec := v)
    else s.(vec := v)
  }

  function Push(u: FloatUnit, s: Caller, x: Item): (r: Caller)
    requires s.Valid()
    ensures r.Valid() && |r.vec.mem| == |s.vec.mem|
  {
    match x.a
    case WordArg(w) => if x.variadic then PushLongVariadic(s, SignExtend(w, 8)) else PushLong(s, SignExtend(w, 8))
    case LongArg(l) => if x.variadic then PushLongVariadic(s, l) else PushLong(s, l)
    case FloatArg(f) =>
      if x.variadic then PushDoubleVariadic(s, u.widen(f))
      else var lo: seq<byte> := f; PushFp(s, u.widen(f), lo + x.pad)
    case DoubleArg(d) => if x.variadic then PushDoubleVariadic(s, d) else PushFp(s, d, d)
  }

  function PushAll(u: FloatUnit, s: Caller, items: seq<Item>): (r: Caller)
    requires s.Valid()
    ensures r.Valid() && |r.vec.mem| == |s.vec.mem|
    decreases |items|
  {
    if items == [] then s else PushAll(u, Push(u, s, items[0]), items[1..])
  }

  // --- the callback -----------------------------------------------------------------------

  datatype Image = Image(gi: seq<Eightbyte>, gf: seq<Eightbyte>, mem: seq<byte>) {
    predicate Valid() {
      |gi| == INT_REGS && |gf| == FLOAT_REGS
    }
  }

  datatype Reader = Reader(n: nat, f: nat, sp: nat)

  /** A variadic float has become a double and is read as one. */
  function AskedAs(x: Item): Kind {
    if x.variadic && x.a.FloatArg? then KDouble else x.a.Kind()
  }

  function Expected(u: FloatUnit, x: Item): seq<byte> {
    if x.variadic && x.a.FloatArg? then u.widen(x.a.f) else x.a.Bytes()
  }

  function After(c: Reader, k: Kind): Reader {
    match k
    case KWord => c.(n := if c.n < INT_REGS then c.n + 1 else c.n, sp := c.sp + 8)
    case KLong => c.(n := if c.n < INT_REGS then c.n + 1 else c.n, sp := c.sp + 8)
    case _ =>
      if c.f < FLOAT_REGS then c.(f := c.f + 1, n := if c.n < INT_REGS then c.n + 1 else c.n, sp := c.sp + 8)
      else c.(sp := c.sp + 8)
  }

  function LongAt(c: Reader, img: Image): Eightbyte
    requires img.Valid()
  {
    if c.n < INT_REGS then img.gi[c.n] else Load(img.mem, c.sp, 8)
  }

  function Answer(u: FloatUnit, c: Reader, k: Kind, img: Image): seq<byte>
    requires img.Valid()
  {
    match k
    case KWord => LongAt(c, img)[..4]
    case KLong => LongAt(c, img)
    case KFloat => if c.f < FLOAT_REGS then u.narrow(img.gf[c.f]) else Load(img.mem, c.sp, 8)[..4]
    case KDouble => if c.f < FLOAT_REGS then img.gf[c.f] else Load(img.mem, c.sp, 8)
  }

  function Asks(items: seq<Item>): seq<Kind> {
    if items == [] then [] else [AskedAs(items[0])] + Asks(items[1..])
  }

  function ExpectedAll(u: FloatUnit, items: seq<Item>): seq<seq<byte>> {
    if items == [] then [] else [Expected(u, items[0])] + ExpectedAll(u, items[1..])
  }

  function Answers(u: FloatUnit, c: Reader, asks: seq<Kind>, img: Image): seq<seq<byte>>
    requires img.Valid()
    decreases |asks|
  {
    if asks == [] then [] else [Answer(u, c, asks[0], img)] + Answers(u, After(c, asks[0]), asks[1..], img)
  }

  // --- slots ------------------------------------------------------------------------------

  /**
    After `m` arguments: the integer registers in use are min(8, m), and the vector is empty or
    holds exactly one eight-byte slot per argument, whichever way the save area came about.
   */
  predicate Slotted(s: Caller, m: nat) {
    && s.Valid()
    && s.n == (if m < INT_REGS then m else INT_REGS) && s.f <= m
    && (s.vec.size == 8 * m || (s.vec.size == 0 && m <= INT_REGS))
  }

  /** Named arguments come first; until one overflows the vector stays empty. */
  predicate NamedPhase(s: Caller) {
    s.vec.size == 0 || s.n == INT_REGS
  }

  predicate NamedFirst(items: seq<Item>) {
    forall i, j :: 0 <= i < j < |items| && items[i].variadic ==> items[j].variadic
  }

  /** The arguments that go to memory: variadic ones, and those past the eighth. */
  predicate OnStack(s: Caller, x: Item) {
    x.variadic || s.n == INT_REGS
  }

  /** Reserving and appending puts the value in slot `m`, however the save area came about. */
  lemma SlotOf(v: Vec, m: nat, slots: nat, b: Eightbyte)
    requires 8 * m + 8 <= |v.mem| && if v.size == 0 then m == slots else v.size == 8 * m
    ensures var r := Reserve(v, slots).Append(b);
            r.size == 8 * m + 8 && Load(r.mem, 8 * m, 8) == b
  {
  }

  lemma LongKeepsSlots(s: Caller, m: nat, l: Eightbyte, variadic: bool)
    requires Slotted(s, m) && 8 * m + 8 <= |s.vec.mem| && (!variadic ==> NamedPhase(s))
    ensures var r := if variadic then PushLongVariadic(s, l) else PushLong(s, l);
            && Slotted(r, m + 1) && (!variadic ==> NamedPhase(r))
            && if variadic || s.n == INT_REGS
               then r.vec.size == 8 * m + 8 && Load(r.vec.mem, 8 * m, 8) == l
               else r.vec == s.vec
  {
    hide Load;
    if variadic || s.n == INT_REGS {
      SlotOf(s.vec, m, s.n, l);
    }
  }

  lemma FpKeepsSlots(s: Caller, m: nat, d: Eightbyte, onStack: Eightbyte)
    requires Slotted(s, m) && 8 * m + 8 <= |s.vec.mem| && NamedPhase(s)
    ensures var r := PushFp(s, d, onStack);
            && Slotted(r, m + 1) && NamedPhase(r)
            && if s.n == INT_REGS
               then r.vec.size == 8 * m + 8 && Load(r.vec.mem, 8 * m, 8) == onStack
               else r.vec == s.vec
  {
    hide Load;
    if s.n == INT_REGS {
      SlotOf(s.vec, m, 8, onStack);
    }
  }

  lemma VariadicDoubleKeepsSlots(s: Caller, m: nat, d: Eightbyte)
    requires Slotted(s, m) && 8 * m + 8 <= |s.vec.mem|
    ensures var r := PushDoubleVariadic(s, d);
            Slotted(r, m + 1) && r.vec.size == 8 * m + 8 && Load(r.vec.mem, 8 * m, 8) == d
  {
    hide Load;
    SlotOf(s.vec, m, s.n, d);
  }

  /**
    Every argument keeps the slots; the ones that go to memory lie at byte 8m, `m` being their
    position in the whole list, across the switch from named to variadic.
   */
  lemma PushKeepsSlots(u: FloatUnit, s: Caller, m: nat, x: Item)
    requires Slotted(s, m) && 8 * m + 8 <= |s.vec.mem| && (!x.variadic ==> NamedPhase(s))
    ensures var r := Push(u, s, x);
            && Slotted(r, m + 1) && (!x.variadic ==> NamedPhase(r))
            && if OnStack(s, x)
               then r.vec.size == 8 * m + 8
                  && |Expected(u, x)| <= 8 && Load(r.vec.mem, 8 * m, 8)[..|Expected(u, x)|] == Expected(u, x)
               else r.vec == s.vec
  {
    hide Slotted, Load, PushLong, PushLongVariadic, PushFp, PushDoubleVariadic, NamedPhase;
    SlottedValid(s, m);
    match x.a
    case WordArg(w) => LongKeepsSlots(s, m, SignExtend(w, 8), x.variadic);
    case LongArg(l) => LongKeepsSlots(s, m, l, x.variadic);
    case FloatArg(f) =>
      var lo: seq<byte> := f;
      if x.variadic {
        VariadicDoubleKeepsSlots(s, m, u.widen(f));
      } else {
        FpKeepsSlots(s, m, u.widen(f), lo + x.pad);
      }
    case DoubleArg(d) =>
      if x.variadic {
        VariadicDoubleKeepsSlots(s, m, d);
      } else {
        FpKeepsSlots(s, m, d, d);
      }
  }

  /**
    The order matters: a named argument that comes after a variadic one while integer registers
    are free takes no slot, and from then on positions and slots differ. It is the only way to
    lose the slots.
   */
  lemma SlotsKeptExactly(u: FloatUnit, s: Caller, m: nat, x: Item)
    requires Slotted(s, m) && 8 * m + 8 <= |s.vec.mem|
    ensures Slotted(Push(u, s, x), m + 1) <==> x.variadic || NamedPhase(s)
  {
    if x.variadic || NamedPhase(s) {
      PushKeepsSlots(u, s, m, x);
    } else {
      hide SignExtend;
      assert s.n < INT_REGS && s.f < FLOAT_REGS && s.vec.size > 0;
    }
  }

  lemma SlottedValid(s: Caller, m: nat)
    requires Slotted(s, m)
    ensures s.Valid() && s.f <= m && (s.f == FLOAT_REGS ==> s.n == INT_REGS) && (s.vec.size > 0 ==> s.vec.size == 8 * m)
  {
  }

  // --- round trip -------------------------------------------------------------------------

  predicate InStep(s: Caller, c: Reader, m: nat) {
    Slotted(s, m) && s.n == c.n && s.f == c.f && c.sp == 8 * m
  }

  predicate Holds(s: Caller, img: Image)
    requires s.Valid()
  {
    && img.Valid()
    && (forall k :: 0 <= k < s.n ==> img.gi[k] == s.gi[k])
    && (forall k :: 0 <= k < s.f ==> img.gf[k] == s.gf[k])
    && SameBelow(s.vec.mem, img.mem, s.vec.size)
  }

  lemma LongKeeps(s: Caller, l: Eightbyte, variadic: bool, img: Image)
    requires s.Valid() && Holds(if variadic then PushLongVariadic(s, l) else PushLong(s, l), img)
    ensures Holds(s, img)
  {
  }

  lemma FpKeeps(s: Caller, d: Eightbyte, onStack: Eightbyte, img: Image)
    requires s.Valid() && Holds(PushFp(s, d, onStack), img)
    ensures Holds(s, img)
  {
  }

  lemma VariadicDoubleKeeps(s: Caller, d: Eightbyte, img: Image)
    requires s.Valid() && Holds(PushDoubleVariadic(s, d), img)
    ensures Holds(s, img)
  {
  }

  lemma PushKeeps(u: FloatUnit, s: Caller, x: Item, img: Image)
    requires s.Valid() && Holds(Push(u, s, x), img)
    ensures Holds(s, img)
  {
    hide Holds, PushLong, PushLongVariadic, PushFp, PushDoubleVariadic;
    match x.a
    case WordArg(w) => LongKeeps(s, SignExtend(w, 8), x.variadic, img);
    case LongArg(l) => LongKeeps(s, l, x.variadic, img);
    case FloatArg(f) =>
      if x.variadic {
        VariadicDoubleKeeps(s, u.widen(f), img);
      } else {
        var lo: seq<byte> := f;
        FpKeeps(s, u.widen(f), lo + x.pad, img);
      }
    case DoubleArg(d) =>
      if x.variadic {
        VariadicDoubleKeeps(s, d, img);
      } else {
        FpKeeps(s, d, d, img);
      }
  }

  lemma {:induction false} PushAllKeeps(u: FloatUnit, s: Caller, items: seq<Item>, img: Image)
    requires s.Valid() && Holds(PushAll(u, s, items), img)
    ensures Holds(s, img)
    decreases |items|
  {
    if items != [] {
      PushAllKeeps(u, Push(u, s, items[0]), items[1..], img);
      PushKeeps(u, s, items[0], img);
    }
  }

  lemma CountersStep(u: FloatUnit, s: Caller, c: Reader, m: nat, x: Item)
    requires InStep(s, c, m) && 8 * m + 8 <= |s.vec.mem| && (!x.variadic ==> NamedPhase(s))
    ensures InStep(Push(u, s, x), After(c, AskedAs(x)), m + 1)
  {
    PushKeepsSlots(u, s, m, x);
    hide Load, SignExtend;
    SlottedValid(s, m);
  }

  lemma RegistersRead(u: FloatUnit, s: Caller, c: Reader, m: nat, x: Item, img: Image)
    requires u.Lossless() && InStep(s, c, m) && Holds(Push(u, s, x), img)
    requires if x.a.FloatArg? || x.a.DoubleArg? then s.f < FLOAT_REGS else s.n < INT_REGS
    ensures Answer(u, c, AskedAs(x), img) == Expected(u, x)
  {
    hide Load, Reserve;
  }

  lemma MemoryRead(u: FloatUnit, s: Caller, c: Reader, m: nat, x: Item, img: Image)
    requires InStep(s, c, m) && 8 * m + 8 <= |s.vec.mem| && (!x.variadic ==> NamedPhase(s))
    requires Holds(Push(u, s, x), img)
    requires if x.a.FloatArg? || x.a.DoubleArg? then s.f == FLOAT_REGS else s.n == INT_REGS
    ensures Answer(u, c, AskedAs(x), img) == Expected(u, x)
  {
    hide Load, Push, Slotted;
    PushKeepsSlots(u, s, m, x);
    SlottedValid(s, m);
    var r := Push(u, s, x);
    SameBelowLoads(r.vec.mem, img.mem, r.vec.size, 8 * m, 8);
    assert Load(img.mem, 8 * m, 8)[..|Expected(u, x)|] == Expected(u, x);
  }

  lemma Step(u: FloatUnit, s: Caller, c: Reader, m: nat, x: Item, img: Image)
    requires u.Lossless() && InStep(s, c, m) && 8 * m + 8 <= |s.vec.mem| && (!x.variadic ==> NamedPhase(s))
    ensures InStep(Push(u, s, x), After(c, AskedAs(x)), m + 1)
    ensures !x.variadic ==> NamedPhase(Push(u, s, x))
    ensures Holds(Push(u, s, x), img) ==> Answer(u, c, AskedAs(x), img) == Expected(u, x)
  {
    hide Slotted, Holds, Push, After, AskedAs, Expected, NamedPhase, Answer;
    SlottedValid(s, m);
    CountersStep(u, s, c, m, x);
    PushKeepsSlots(u, s, m, x);
    if Holds(Push(u, s, x), img) {
      if (if x.a.FloatArg? || x.a.DoubleArg? then s.f < FLOAT_REGS else s.n < INT_REGS) {
        RegistersRead(u, s, c, m, x, img);
      } else {
        MemoryRead(u, s, c, m, x, img);
      }
    }
  }

  /** Named arguments followed by variadic ones read back; variadic floats as the doubles they became. */
  lemma {:induction false} RoundTrip(u: FloatUnit, s: Caller, c: Reader, m: nat, items: seq<Item>, img: Image)
    requires u.Lossless() && InStep(s, c, m) && 8 * (m + |items|) <= |s.vec.mem|
    requires NamedFirst(items) && (items != [] && !items[0].variadic ==> NamedPhase(s))
    requires Holds(PushAll(u, s, items), img)
    ensures Answers(u, c, Asks(items), img) == ExpectedAll(u, items)
    ensures Slotted(PushAll(u, s, items), m + |items|)
    decreases |items|
  {
    hide Slotted, Holds, Push, After, AskedAs, Expected, NamedPhase, Answer;
    SlottedValid(s, m);
    if items != [] {
      var x := items[0];
      Step(u, s, c, m, x, img);
      var s1 := Push(u, s, x);
      PushAllKeeps(u, s1, items[1..], img);
      assert items[1..] != [] && !items[1..][0].variadic ==> !x.variadic;
      RoundTrip(u, s1, After(c, AskedAs(x)), m + 1, items[1..], img);
    }
  }

  /**
    At the call, every variadic argument and every argument past the eighth lies at byte 8n of the
    stack, n being its position.
   */
  lemma {:induction false} ArgumentLivesInItsSlot(u: FloatUnit, s: Caller, m: nat, items: seq<Item>, j: nat)
    requires Slotted(s, m) && 8 * (m + |items|) <= |s.vec.mem| && j < |items|
    requires NamedFirst(items) && (!items[0].variadic ==> NamedPhase(s))
    requires items[j].variadic || m + j >= INT_REGS
    ensures var x := Expected(u, items[j]);
            |x| <= 8 && Load(PushAll(u, s, items).vec.mem, 8 * (m + j), 8)[..|x|] == x
    decreases |items|
  {
    hide Push, Expected, Load, Holds, NamedPhase;
    var s1 := Push(u, s, items[0]);
    PushKeepsSlots(u, s, m, items[0]);
    if j == 0 {
      var e := PushAll(u, s1, items[1..]);
      var img := Image(e.gi, e.gf, e.vec.mem);
      HoldsAtEnd(e);
      PushAllKeeps(u, s1, items[1..], img);
      StackLoads(s1, img, 8 * m);
    } else {
      assert items[1..][j - 1] == items[j];
      assert !items[1..][0].variadic ==> !items[0].variadic;
      ArgumentLivesInItsSlot(u, s1, m + 1, items[1..], j - 1);
    }
  }

  lemma HoldsAtEnd(e: Caller)
    requires e.Valid()
    ensures Holds(e, Image(e.gi, e.gf, e.vec.mem))
  {
  }

  lemma StackLoads(s: Caller, img: Image, off: nat)
    requires s.Valid() && Holds(s, img) && off + 8 <= s.vec.size
    ensures Load(s.vec.mem, off, 8) == Load(img.mem, off, 8)
  {
    SameBelowLoads(s.vec.mem, img.mem, s.vec.size, off, 8);
  }

  /** dc_callvm_reset_ppc64 */
  predicate Fresh(s: Caller) {
    s.Valid() && s.n == 0 && s.f == 0 && s.vec.size == 0
  }

  lemma CallRoundTrip(u: FloatUnit, s: Caller, items: seq<Item>)
    requires u.Lossless() && Fresh(s) && NamedFirst(items) && 8 * |items| <= |s.vec.mem|
    ensures var e := PushAll(u, s, items);
            && Slotted(e, |items|)
            && Answers(u, Reader(0, 0, 0), Asks(items), Image(e.gi, e.gf, e.vec.mem)) == ExpectedAll(u, items)
  {
    var e := PushAll(u, s, items);
    RoundTrip(u, s, Reader(0, 0, 0), 0, items, Image(e.gi, e.gf, e.vec.mem));
  }
}
