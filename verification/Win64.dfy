/**
  Win64 argument passing (the DC_WINDOWS branches of dyncall_callvm_x64.c and
  dyncall_args_x64.c). Integer and floating-point arguments share one counter and one register
  array, and aggregates that are not 1, 2, 4 or 8 bytes long are copied to the far end of the
  argument vector and passed by pointer: arguments grow up, copies grow down.
 */
module Win64 {
  import opened Memory
  import opened Integers
  import opened Aggregate
  import opened Callback

  const REGS := 4

  // --- addresses as register contents -------------------------------------------------------

  /** A pointer as it sits in a register or stack slot. */
  function Address(p: int): Eightbyte {
    ToBytes(p % 0x1_0000_0000_0000_0000, 8)
  }

  lemma PowerOfEight()
    ensures Pow256(8) == 0x1_0000_0000_0000_0000
  {
    assert Pow256(4) == 0x1_0000_0000;
    assert Pow256(8) == 256 * (256 * (256 * (256 * Pow256(4))));
  }

  lemma PointerRoundTrip(p: nat)
    requires p < 0x1_0000_0000_0000_0000
    ensures FromBytes(Address(p)) == p
  {
    hide ToBytes, FromBytes;
    PowerOfEight();
    BytesRoundTrip(p, 8);
  }

  // --- the caller -------------------------------------------------------------------------

  datatype Arg =
    | IntArg(b: seq<byte>)
    | BoolArg(b: seq<byte>)
    | FloatArg(b: seq<byte>, pad: seq<byte>)
    | WideArg(b: seq<byte>)             // double, pointer, non-trivial aggregate
    | AggrArg(b: seq<byte>)

  predicate ValidArg(a: Arg) {
    match a
    case IntArg(b) => |b| in {1, 2, 4, 8}
    case BoolArg(b) => |b| == 4
    case FloatArg(b, pad) => |b| == 4 && |pad| == 4
    case WideArg(b) => |b| == 8
    case AggrArg(b) => true
  }

  /** `copies` is mpAggrVecCopies and `base` the address of the vector's data. */
  datatype Caller = Caller(n: nat, regs: seq<Eightbyte>, ret: int, vec: Vec, base: nat, copies: int) {
    predicate Valid() {
      |regs| == REGS && base + |vec.mem| < 0x1_0000_0000_0000_0000 && copies <= base + |vec.mem|
    }

    /** Offset of the lowest copy. */
    function Bottom(): int {
      copies - base
    }
  }

  /** dc_callvm_argLongLong_x64, argPointer and argDouble: one counter, one register array. */
  function Push64(s: Caller, w: Eightbyte): (r: Caller)
    requires s.Valid()
    ensures r.Valid() && |r.vec.mem| == |s.vec.mem| && r.copies == s.copies && r.base == s.base && r.ret == s.ret
  {
    var n := s.n + if s.n == s.ret then 1 else 0;
    if n < REGS then s.(regs := s.regs[n := w], n := n + 1) else s.(n := n, vec := s.vec.Append(w))
  }

  predicate ByValue(size: nat) {
    size == 1 || size == 2 || size == 4 || size == 8
  }

  /** `(copies - size) & -16` */
  function NextCopy(copies: int, size: nat): (r: int)
    ensures r % 16 == 0 && r + size <= copies < r + size + 16
  {
    (copies - size) - (copies - size) % 16
  }

  /** The memcpy into the arena; outside the buffer it is undefined in C and left out here. */
  function CopyIn(s: Caller, b: seq<byte>): (r: Caller)
    requires s.Valid()
    ensures r.Valid() && |r.vec.mem| == |s.vec.mem|
            && r.copies == NextCopy(s.copies, |b|) && r.base == s.base && r.ret == s.ret
  {
    var c := NextCopy(s.copies, |b|);
    var off := c - s.base;
    s.(copies := c, vec := if off >= 0 then s.vec.(mem := Store(s.vec.mem, off, b)) else s.vec)
  }

  function Push(s: Caller, a: Arg): (r: Caller)
    requires s.Valid() && ValidArg(a)
    ensures r.Valid() && |r.vec.mem| == |s.vec.mem| && r.base == s.base && r.ret == s.ret
  {
    match a
    case IntArg(b) => Push64(s, SignExtend(b, 8))
    case BoolArg(b) => Push64(s, SignExtend(b, 8))
    case FloatArg(b, pad) => Push64(s, b + pad)
    case WideArg(b) => Push64(s, b)
    case AggrArg(b) =>
      if ByValue(|b|) then Push64(s, SignExtend(b, 8)) else
      var s1 := CopyIn(s, b);
      Push64(s1, Address(s1.copies))
  }

  function PushAll(s: Caller, args: seq<Arg>): (r: Caller)
    requires s.Valid() && forall a :: a in args ==> ValidArg(a)
    ensures r.Valid() && |r.vec.mem| == |s.vec.mem| && r.base == s.base && r.ret == s.ret
    decreases |args|
  {
    if args == [] then s else PushAll(Push(s, args[0]), args[1..])
  }

  // --- the callback -----------------------------------------------------------------------

  datatype Ask = AskInt(n: nat) | AskBool | AskFloat | AskWide | AskAggr(size: nat, target: seq<byte>)

  datatype Value = Bytes(b: seq<byte>) | Truth(t: bool)

  predicate Matches(a: Arg, q: Ask) {
    match a
    case IntArg(b) => q == AskInt(|b|)
    case BoolArg(_) => q == AskBool
    case FloatArg(_, _) => q == AskFloat
    case WideArg(_) => q == AskWide
    case AggrArg(b) => q.AskAggr? && q.size == |b| <= |q.target|
  }

  function Expected(a: Arg, q: Ask): Value
    requires ValidArg(a) && Matches(a, q)
  {
    match a
    case BoolArg(b) => Truth(b != [0, 0, 0, 0])
    case AggrArg(b) => Bytes(b + q.target[|b|..])
    case _ => Bytes(a.b)
  }

  predicate AllMatch(args: seq<Arg>, asks: seq<Ask>) {
    |args| == |asks| && forall k :: 0 <= k < |args| ==> ValidArg(args[k]) && Matches(args[k], asks[k])
  }

  /** Registers (the same bits in both files), and the caller's buffer, still live at `base`. */
  datatype Image = Image(regs: seq<Eightbyte>, mem: seq<byte>, base: nat) {
    predicate Valid() {
      |regs| == REGS
    }
  }

  datatype Reader = Reader(n: nat, sp: nat, ret: int)

  function Index(r: Reader): nat {
    r.n + if r.n == r.ret then 1 else 0
  }

  /** arg_i64 and arg_f64 */
  function After(r: Reader): Reader {
    if Index(r) < REGS then r.(n := Index(r) + 1) else r.(n := Index(r), sp := r.sp + 8)
  }

  function Slot(r: Reader, img: Image): Eightbyte
    requires img.Valid()
  {
    if Index(r) < REGS then img.regs[Index(r)] else Load(img.mem, r.sp, 8)
  }

  function Fetch(img: Image, p: nat, size: nat): seq<byte> {
    if p >= img.base then Load(img.mem, p - img.base, size) else Zeros(size)
  }

  function Answer(r: Reader, q: Ask, img: Image): Value
    requires img.Valid()
    requires q.AskAggr? ==> q.size <= |q.target|
  {
    var w := Slot(r, img);
    match q
    case AskInt(n) => Bytes(w[..if n <= 8 then n else 8])
    case AskBool => Truth(w[..4] != [0, 0, 0, 0])
    case AskFloat => Bytes(w[..4])
    case AskWide => Bytes(w)
    case AskAggr(size, target) =>
      Bytes((if ByValue(size) then w[..size] else Fetch(img, FromBytes(w), size)) + target[size..])
  }

  function AfterAll(r: Reader, asks: seq<Ask>): (r1: Reader)
    ensures r1.sp >= r.sp
    decreases |asks|
  {
    if asks == [] then r else AfterAll(After(r), asks[1..])
  }

  function Answers(r: Reader, asks: seq<Ask>, img: Image): seq<Value>
    requires img.Valid() && forall q :: q in asks ==> q.AskAggr? ==> q.size <= |q.target|
    decreases |asks|
  {
    if asks == [] then [] else [Answer(r, asks[0], img)] + Answers(After(r), asks[1..], img)
  }

  function ExpectedAll(args: seq<Arg>, asks: seq<Ask>): seq<Value>
    requires AllMatch(args, asks)
  {
    if args == [] then [] else [Expected(args[0], asks[0])] + ExpectedAll(args[1..], asks[1..])
  }

  /** Where the arena ends after all arguments, computed from their sizes alone. */
  function ArenaAfter(copies: int, asks: seq<Ask>): (r: int)
    ensures r <= copies
    decreases |asks|
  {
    if asks == [] then copies
    else if asks[0].AskAggr? && !ByValue(asks[0].size) then ArenaAfter(NextCopy(copies, asks[0].size), asks[1..])
    else ArenaAfter(copies, asks[1..])
  }

  // --- simulation -------------------------------------------------------------------------

  predicate InStep(s: Caller, r: Reader) {
    && s.Valid() && s.n == r.n && s.vec.size == r.sp
    && (s.ret == r.ret || (s.ret < 0 && r.ret < 0))
  }

  /** The image still holds every argument pushed and every copy made. */
  predicate Holds(s: Caller, img: Image)
    requires s.Valid()
  {
    && img.Valid() && img.base == s.base
    && (forall k :: 0 <= k < s.n && k < REGS && k != s.ret ==> img.regs[k] == s.regs[k])
    && SameBelow(s.vec.mem, img.mem, s.vec.size)
    && forall k :: 0 <= k < |img.mem| && s.Bottom() <= k ==> img.mem[k] == s.vec.mem[k]
  }

  /** Pushed arguments and copies do not meet. */
  predicate Apart(s: Caller) {
    s.vec.size <= s.Bottom()
  }

  lemma Push64Keeps(s: Caller, w: Eightbyte, img: Image)
    requires s.Valid() && Holds(Push64(s, w), img) && Apart(Push64(s, w))
    ensures Holds(s, img) && Apart(s)
  {
  }

  lemma CopyKeeps(s: Caller, b: seq<byte>, img: Image)
    requires s.Valid() && Holds(CopyIn(s, b), img) && Apart(CopyIn(s, b))
    ensures Holds(s, img) && Apart(s)
  {
  }

  /** No later argument or copy reaches an earlier one, as long as the two ends have not met. */
  lemma PushKeeps(s: Caller, a: Arg, img: Image)
    requires s.Valid() && ValidArg(a) && Holds(Push(s, a), img) && Apart(Push(s, a))
    ensures Holds(s, img) && Apart(s)
  {
    hide Holds, Apart, Push64, CopyIn, SignExtend;
    match a
    case IntArg(b) => Push64Keeps(s, SignExtend(b, 8), img);
    case BoolArg(b) => Push64Keeps(s, SignExtend(b, 8), img);
    case FloatArg(b, pad) => Push64Keeps(s, b + pad, img);
    case WideArg(b) => Push64Keeps(s, b, img);
    case AggrArg(b) =>
      if ByValue(|b|) {
        Push64Keeps(s, SignExtend(b, 8), img);
      } else {
        var s1 := CopyIn(s, b);
        Push64Keeps(s1, Address(s1.copies), img);
        CopyKeeps(s, b, img);
      }
  }

  lemma {:induction false} PushAllKeeps(s: Caller, args: seq<Arg>, img: Image)
    requires s.Valid() && (forall a :: a in args ==> ValidArg(a))
    requires Holds(PushAll(s, args), img) && Apart(PushAll(s, args))
    ensures Holds(s, img) && Apart(s)
    decreases |args|
  {
    hide Holds, Apart, Push;
    if args != [] {
      PushAllKeeps(Push(s, args[0]), args[1..], img);
      PushKeeps(s, args[0], img);
    }
  }

  /**
    When the ends do meet something is lost: a slot that reaches the lowest copy replaces its
    first byte by one of the argument,
   */
  lemma SlotHitsCopy(s: Caller, w: Eightbyte)
    requires s.Valid() && Apart(s) && !Apart(Push64(s, w))
    ensures 0 <= s.Bottom() - s.vec.size < 8 && s.Bottom() < |s.vec.mem|
    ensures Push64(s, w).vec.mem[s.Bottom()] == w[s.Bottom() - s.vec.size]
  {
    var v := s.vec.Append(w);
    assert v.mem[s.vec.size..s.vec.size + 8] == w;
  }

  /** and a copy that reaches the arguments replaces a byte of a slot by its own first one. */
  lemma CopyHitsSlot(s: Caller, b: seq<byte>)
    requires s.Valid() && Apart(s) && !Apart(CopyIn(s, b)) && |b| > 0 && CopyIn(s, b).Bottom() >= 0
    ensures CopyIn(s, b).Bottom() < s.vec.size && CopyIn(s, b).vec.mem[CopyIn(s, b).Bottom()] == b[0]
  {
    var off := CopyIn(s, b).Bottom();
    var m := CopyIn(s, b).vec.mem;
    assert m[off..off + |b|] == b;
    assert m[off] == m[off..off + |b|][0];
  }

  lemma SlotStep(s: Caller, r: Reader, w: Eightbyte, img: Image)
    requires InStep(s, r) && After(r).sp <= |s.vec.mem|
    ensures InStep(Push64(s, w), After(r))
    ensures Holds(Push64(s, w), img) ==> Slot(r, img) == w
  {
    var s1 := Push64(s, w);
    if Holds(s1, img) && s1.vec != s.vec {
      SameBelowLoads(s1.vec.mem, img.mem, s1.vec.size, s.vec.size, 8);
    }
  }

  lemma CopyStep(s: Caller, r: Reader, b: seq<byte>, img: Image)
    requires s.Valid() && InStep(s, r) && After(r).sp <= |s.vec.mem|
    ensures var s1 := CopyIn(s, b);
            var w := Address(s1.copies);
            && InStep(Push64(s1, w), After(r))
            && (Holds(Push64(s1, w), img) && Apart(Push64(s1, w)) ==> Fetch(img, FromBytes(Slot(r, img)), |b|) == b)
  {
    var s1 := CopyIn(s, b);
    var w := Address(s1.copies);
    assert InStep(s1, r);
    hide *;
    SlotStep(s1, r, w, img);
    if Holds(Push64(s1, w), img) && Apart(Push64(s1, w)) {
      Push64Keeps(s1, w, img);
      CopyIsThere(s, b, img);
      CopyAddress(s, b);
    }
  }

  lemma CopyAddress(s: Caller, b: seq<byte>)
    requires s.Valid() && CopyIn(s, b).copies >= s.base
    ensures FromBytes(Address(CopyIn(s, b).copies)) == CopyIn(s, b).copies
  {
    PointerRoundTrip(CopyIn(s, b).copies);
  }

  lemma CopyIsThere(s: Caller, b: seq<byte>, img: Image)
    requires s.Valid() && Holds(CopyIn(s, b), img) && Apart(CopyIn(s, b))
    ensures CopyIn(s, b).copies >= s.base && Fetch(img, CopyIn(s, b).copies, |b|) == b
  {
    var s1 := CopyIn(s, b);
    var lo := s1.Bottom();
    assert img.mem[lo..lo + |b|] == s1.vec.mem[lo..lo + |b|] == b;
  }

  lemma Step(s: Caller, r: Reader, a: Arg, q: Ask, img: Image)
    requires InStep(s, r) && ValidArg(a) && Matches(a, q)
    requires After(r).sp <= |s.vec.mem|
    ensures InStep(Push(s, a), After(r))
    ensures Holds(Push(s, a), img) && Apart(Push(s, a)) ==> Answer(r, q, img) == Expected(a, q)
    ensures ArenaAfter(s.copies, [q]) == Push(s, a).copies
  {
    hide Holds, Apart, CopyIn, Push64, Slot, Fetch, InStep;
    assert s.Valid() by { StepValid(s, r); }
    match a
    case IntArg(b) => SlotStep(s, r, SignExtend(b, 8), img);
    case BoolArg(b) => SlotStep(s, r, SignExtend(b, 8), img);
    case FloatArg(b, pad) => SlotStep(s, r, b + pad, img);
    case WideArg(b) => SlotStep(s, r, b, img);
    case AggrArg(b) =>
      if ByValue(|b|) {
        SlotStep(s, r, SignExtend(b, 8), img);
      } else {
        CopyStep(s, r, b, img);
      }
  }

  lemma ArenaStep(copies: int, asks: seq<Ask>)
    requires asks != []
    ensures ArenaAfter(copies, asks) == ArenaAfter(ArenaAfter(copies, [asks[0]]), asks[1..])
  {
  }

  lemma StepValid(s: Caller, r: Reader)
    requires InStep(s, r)
    ensures s.Valid() && s.vec.size == r.sp
  {
  }

  /**
    Round trip: if the stack part ends below the last copy, every argument and every aggregate
    of any size reads back unchanged. The condition is computed from the sizes alone.
   */
  lemma {:induction false} RoundTrip(s: Caller, r: Reader, args: seq<Arg>, asks: seq<Ask>, img: Image)
    requires InStep(s, r) && AllMatch(args, asks)
    requires AfterAll(r, asks).sp <= ArenaAfter(s.copies, asks) - s.base
    requires Holds(PushAll(s, args), img)
    ensures InStep(PushAll(s, args), AfterAll(r, asks)) && Apart(PushAll(s, args))
    ensures PushAll(s, args).copies == ArenaAfter(s.copies, asks)
    ensures Answers(r, asks, img) == ExpectedAll(args, asks)
    decreases |args|
  {
    if args != [] {
      StepValid(s, r);
      hide Push, Answer, Expected, Holds, Apart, InStep, After;
      var s1, r1 := Push(s, args[0]), After(r);
      Step(s, r, args[0], asks[0], img);
      ArenaStep(s.copies, asks);
      RoundTrip(s1, r1, args[1..], asks[1..], img);
      PushAllKeeps(s1, args[1..], img);
    }
  }

  /** Neither the first register nor, for member functions, the second is given to an argument. */
  lemma {:induction false} HiddenSlotUntouched(s: Caller, args: seq<Arg>)
    requires s.Valid() && (forall a :: a in args ==> ValidArg(a)) && 0 <= s.ret < REGS
    ensures PushAll(s, args).regs[s.ret] == s.regs[s.ret]
    decreases |args|
  {
    if args != [] {
      HiddenSlotUntouched(Push(s, args[0]), args[1..]);
    }
  }

  /** dc_callvm_reset_x64 and dc_callvm_begin_aggr_x64 (index 0) or its thiscall form (index 1) */
  predicate Fresh(s: Caller) {
    s.Valid() && s.n == 0 && s.vec.size == 0 && s.copies == s.base + |s.vec.mem| && s.ret in {-1, 0, 1}
  }

  // --- which way an aggregate is returned ---------------------------------------------------

  /** Results that need a hidden pointer: those of more than eight bytes, or of 3, 5, 6 or 7. */
  predicate TooBig(size: nat) {
    size > 8 || size in {3, 5, 6, 7}
  }

  /** The register of the hidden pointer, -1 without one; member functions always have one, behind `this`. */
  function CallerMode(thiscall: bool, result: Option<nat>): int {
    if thiscall then 1 else if result.None? || TooBig(result.value) then 0 else -1
  }

  /** What dcbInitCallback2 stores in aggr_return_register, given the sizes of the described aggregates. */
  function CallbackMode(sig: string, aggrs: seq<Option<nat>>): int
    requires WellPrefixed(sig) && |aggrs| >= CountAggrs(AfterPrefix(sig))
  {
    if !ReturnsAggr(sig) then -2
    else if IsThiscall(sig) then 1
    else match aggrs[CountAggrs(AfterPrefix(sig)) - 1]
      case None => 0
      case Some(size) => if size > 8 || !(size == 0 || ByValue(size)) then 0 else -1
  }

  /** Caller and callback, given the same convention and description, use the same register. */
  lemma SameMode(prefix: string, sig: string, args: string, aggrs: seq<Option<nat>>)
    requires IsAggrCall(sig, prefix, args) && |aggrs| == CountAggrs(args) + 1
    ensures WellPrefixed(sig) && CountAggrs(AfterPrefix(sig)) == |aggrs|
    ensures CallbackMode(sig, aggrs) == CallerMode(prefix == "_*", aggrs[CountAggrs(args)])
    ensures var result := aggrs[CountAggrs(args)];
            CallbackMode(sig, aggrs)
            == if prefix == "_*" then 1 else if result.Some? && result.value in {0, 1, 2, 4, 8} then -1 else 0
  {
    ResultIsLast(sig, prefix, args);
  }

  // --- whole calls --------------------------------------------------------------------------

  function AtCall(s: Caller, hidden: Eightbyte): (img: Image)
    requires s.Valid() && s.ret in {-1, 0, 1}
    ensures img.Valid()
  {
    Image(if s.ret >= 0 then s.regs[s.ret := hidden] else s.regs, s.vec.mem, s.base)
  }

  /** A whole call: the arguments, the copies and the hidden return pointer all arrive. */
  lemma CallRoundTrip(s: Caller, args: seq<Arg>, asks: seq<Ask>, ret: int, hidden: Eightbyte)
    requires Fresh(s) && AllMatch(args, asks) && (ret == s.ret || (s.ret == -1 && ret == -2))
    requires AfterAll(Reader(0, 0, ret), asks).sp <= ArenaAfter(s.base + |s.vec.mem|, asks) - s.base
    ensures var img := AtCall(PushAll(s, args), hidden);
            && Answers(Reader(0, 0, ret), asks, img) == ExpectedAll(args, asks)
            && (ret >= 0 ==> img.regs[ret] == hidden)
  {
    hide Push, Answers, ExpectedAll, ArenaAfter, AfterAll, InStep, Holds;
    var e, r := PushAll(s, args), Reader(0, 0, ret);
    FreshInStep(s, r);
    HoldsAtCall(e, hidden);
    RoundTrip(s, r, args, asks, AtCall(e, hidden));
  }

  lemma FreshInStep(s: Caller, r: Reader)
    requires Fresh(s) && r.n == 0 && r.sp == 0 && (r.ret == s.ret || (s.ret == -1 && r.ret == -2))
    ensures InStep(s, r)
  {
  }

  lemma HoldsAtCall(e: Caller, hidden: Eightbyte)
    requires e.Valid() && e.ret in {-1, 0, 1}
    ensures Holds(e, AtCall(e, hidden))
  {
  }
}
