/**
  Where the Win64 calling convention has each argument: the first four slots, whatever their
  type, in registers, the others eight bytes each on the stack; aggregates of 1, 2, 4 or 8
  bytes by value, all others as the address of a copy aligned to 16 bytes.
 */
module Win64Placement {
  import opened Memory
  import opened Integers
  import opened Win64

  /** Slot of argument `k`, the hidden pointer having slot `ret`. */
  function SlotOf(k: nat, ret: int): nat {
    if 0 <= ret <= k then k + 1 else k
  }

  /** The contents of a slot: four registers, then the stack. */
  function SlotContents(img: Image, slot: nat): Eightbyte
    requires |img.regs| == 4
  {
    if slot < 4 then img.regs[slot] else Load(img.mem, 8 * (slot - 4), 8)
  }

  /** The eightbyte with which the callee gets the argument. */
  predicate Carries(a: Arg, w: Eightbyte, img: Image)
    requires ValidArg(a)
  {
    match a
    case IntArg(b) => SignedValue(w) == SignedValue(b)
    case BoolArg(b) => SignedValue(w) == SignedValue(b)
    case FloatArg(b, _) => w[..4] == b
    case WideArg(b) => w == b
    case AggrArg(b) =>
      if |b| in {1, 2, 4, 8} then w[..|b|] == b
      else
        var at := FromBytes(w) - img.base;
        FromBytes(w) % 16 == 0 && 0 <= at && at + |b| <= |img.mem| && img.mem[at..at + |b|] == b
  }

  lemma HeadCarries(s: Caller, r: Reader, a: Arg, q: Ask, img: Image)
    requires InStep(s, r) && ValidArg(a) && Matches(a, q) && After(r).sp <= |s.vec.mem|
    requires s.Valid() && Holds(Push(s, a), img) && Apart(Push(s, a))
    ensures img.Valid() && Carries(a, Slot(r, img), img)
  {
    hide InStep, SignExtend, SignedValue, Push64, CopyIn, Apart, Slot;
    assert img.Valid() by { HoldsValid(Push(s, a), img); }
    hide Holds;
    match a
    case IntArg(b) =>
      SlotStep(s, r, SignExtend(b, 8), img);
      SignExtendKeepsValue(b, 8);
    case BoolArg(b) =>
      SlotStep(s, r, SignExtend(b, 8), img);
      SignExtendKeepsValue(b, 8);
    case FloatArg(b, pad) => SlotStep(s, r, b + pad, img);
    case WideArg(b) => SlotStep(s, r, b, img);
    case AggrArg(b) =>
      if ByValue(|b|) {
        SlotStep(s, r, SignExtend(b, 8), img);
      } else {
        CopyCarries(s, r, b, img);
      }
  }

  lemma HoldsValid(s: Caller, img: Image)
    requires s.Valid() && Holds(s, img)
    ensures img.Valid() && img.base == s.base
  {
  }

  lemma CopyCarries(s: Caller, r: Reader, b: seq<byte>, img: Image)
    requires InStep(s, r) && s.Valid() && After(r).sp <= |s.vec.mem| && img.Valid()
    requires var s1 := CopyIn(s, b);
             Holds(Push64(s1, Address(s1.copies)), img) && Apart(Push64(s1, Address(s1.copies)))
    ensures var at := FromBytes(Slot(r, img)) - img.base;
            && FromBytes(Slot(r, img)) % 16 == 0 && 0 <= at && at + |b| <= |img.mem| && img.mem[at..at + |b|] == b
  {
    var s1 := CopyIn(s, b);
    var w := Address(s1.copies);
    assert InStep(s1, r);
    hide Slot, Address, Push64, InStep;
    SlotStep(s1, r, w, img);
    Push64Keeps(s1, w, img);
    CopyIsThere(s, b, img);
    CopyAddress(s, b);
    var at := s1.Bottom();
    assert img.mem[at..at + |b|] == s1.vec.mem[at..at + |b|] == b;
  }

  /** The reader after `k` arguments stands at their slots. */
  lemma {:induction false} ReaderAt(r: Reader, asks: seq<Ask>, k: nat, j: nat)
    requires k <= |asks| && (r.ret < 0 || r.ret <= 1) && IsAt(r, j)
    ensures IsAt(AfterAll(r, asks[..k]), j + k) && AfterAll(r, asks[..k]).ret == r.ret
    decreases k
  {
    if k > 0 {
      ReaderAt(After(r), asks[1..], k - 1, j + 1);
      assert asks[..k][1..] == asks[1..][..k - 1];
    }
  }

  /** Its counters after `j` arguments, the hidden register still to be skipped. */
  predicate IsAt(r: Reader, j: nat) {
    var slot := SlotOf(j, r.ret);
    if slot < 4 then Index(r) == slot && r.sp == 0 else Index(r) >= 4 && r.sp == 8 * (slot - 4)
  }

  /** The arguments end below the last copy. */
  predicate Room(s: Caller, r: Reader, asks: seq<Ask>) {
    AfterAll(r, asks).sp <= ArenaAfter(s.copies, asks) - s.base
  }

  lemma RoomForHead(s: Caller, r: Reader, a: Arg, asks: seq<Ask>)
    requires s.Valid() && asks != [] && ValidArg(a) && Matches(a, asks[0]) && Room(s, r, asks)
    requires ArenaAfter(s.copies, [asks[0]]) == Push(s, a).copies
    ensures After(r).sp <= |s.vec.mem| && Room(Push(s, a), After(r), asks[1..])
  {
    hide Push, After;
    ArenaStep(s.copies, asks);
    assert AfterAll(r, asks) == AfterAll(After(r), asks[1..]);
  }

  lemma ArenaOfOne(s: Caller, a: Arg, q: Ask)
    requires s.Valid() && ValidArg(a) && Matches(a, q)
    ensures ArenaAfter(s.copies, [q]) == Push(s, a).copies
  {
  }

  /** The state behind the first argument meets the same conditions for the others. */
  lemma OneFurther(s: Caller, r: Reader, args: seq<Arg>, asks: seq<Ask>, img: Image)
    requires InStep(s, r) && AllMatch(args, asks) && args != [] && Room(s, r, asks)
    requires Holds(PushAll(s, args), img)
    ensures s.Valid() && After(r).sp <= |s.vec.mem|
    ensures var s1 := Push(s, args[0]);
            && InStep(s1, After(r)) && Holds(s1, img) && Apart(s1) && Room(s1, After(r), asks[1..])
            && Holds(PushAll(s1, args[1..]), img)
  {
    hide Push, PushAll, Answer, Answers, Expected, ExpectedAll, Holds, Apart, InStep, After, Matches, ValidArg;
    StepValid(s, r);
    ArenaOfOne(s, args[0], asks[0]);
    RoomForHead(s, r, args[0], asks);
    var s1, r1 := Push(s, args[0]), After(r);
    Step(s, r, args[0], asks[0], img);
    Unfold(s, args);
    RoundTrip(s1, r1, args[1..], asks[1..], img);
    PushAllKeeps(s1, args[1..], img);
  }

  lemma Unfold(s: Caller, args: seq<Arg>)
    requires s.Valid() && args != [] && forall a :: a in args ==> ValidArg(a)
    ensures PushAll(s, args) == PushAll(Push(s, args[0]), args[1..])
  {
  }

  lemma {:induction false} Placed(s: Caller, r: Reader, args: seq<Arg>, asks: seq<Ask>, k: nat, img: Image)
    requires InStep(s, r) && AllMatch(args, asks) && k < |args| && Room(s, r, asks)
    requires Holds(PushAll(s, args), img)
    ensures img.Valid() && Carries(args[k], Slot(AfterAll(r, asks[..k]), img), img)
    decreases k
  {
    hide Push, PushAll, Holds, Apart, InStep, After, Room, Carries, Slot, Matches, ValidArg;
    OneFurther(s, r, args, asks, img);
    if k == 0 {
      HeadCarries(s, r, args[0], asks[0], img);
    } else {
      Placed(Push(s, args[0]), After(r), args[1..], asks[1..], k - 1, img);
      assert asks[..k][1..] == asks[1..][..k - 1];
    }
  }

  /** Placement at the call, for every list whose arguments end below the last copy. */
  lemma Placement(s: Caller, args: seq<Arg>, asks: seq<Ask>, k: nat, hidden: Eightbyte)
    requires Fresh(s) && AllMatch(args, asks) && k < |args|
    requires AfterAll(Reader(0, 0, s.ret), asks).sp <= ArenaAfter(s.base + |s.vec.mem|, asks) - s.base
    ensures var img := AtCall(PushAll(s, args), hidden);
            && |img.regs| == 4 && Carries(args[k], SlotContents(img, SlotOf(k, s.ret)), img)
            && (s.ret >= 0 ==> img.regs[s.ret] == hidden)
  {
    hide Push, Answers, ArenaAfter, Holds, InStep, Carries, Load;
    var e, r := PushAll(s, args), Reader(0, 0, s.ret);
    FreshInStep(s, r);
    HoldsAtCall(e, hidden);
    Placed(s, r, args, asks, k, AtCall(e, hidden));
    ReaderAt(r, asks, k, 0);
  }
}
