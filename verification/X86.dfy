/**
  x86 stdcall and the two fastcall conventions: the argument functions of dyncall_callvm_x86.c,
  the readers of dyncall_args_x86.c and the callee cleanup sizes of dyncall_callback_x86.c.

  In fastcall modes the first eight bytes of the vector are ecx and edx.
 */
module X86 {
  import opened Memory
  import opened Arguments

  datatype Mode = StdCall | FastMs | FastGnu

  /** Bytes the reset of a mode reserves in front of the stack arguments. */
  function Reserved(mode: Mode): nat {
    if mode == StdCall then 0 else 8
  }

  // --- the caller -------------------------------------------------------------------------

  datatype Caller = Caller(n: nat, vec: Vec) {
    predicate Valid(mode: Mode) {
      n <= 2 && vec.size >= Reserved(mode) && |vec.mem| >= Reserved(mode)
    }
  }

  /** dc_callvm_argInt_x86 and its fastcall forms */
  function PushWord(mode: Mode, s: Caller, w: Word): (r: Caller)
    requires s.Valid(mode)
    ensures r.Valid(mode) && |r.vec.mem| == |s.vec.mem|
  {
    if mode != StdCall && s.n < 2 then s.(vec := s.vec.Put(4 * s.n, w), n := s.n + 1) else s.(vec := s.vec.Append(w))
  }

  /** dc_callvm_argLongLong_x86; GNU fastcall gives up the registers first. */
  function PushLong(mode: Mode, s: Caller, l: Eightbyte): (r: Caller)
    requires s.Valid(mode)
    ensures r.Valid(mode) && |r.vec.mem| == |s.vec.mem|
  {
    s.(n := if mode == FastGnu then 2 else s.n, vec := s.vec.Append(l))
  }

  function Push(mode: Mode, s: Caller, a: Arg): (r: Caller)
    requires s.Valid(mode)
    ensures r.Valid(mode) && |r.vec.mem| == |s.vec.mem|
  {
    match a
    case WordArg(w) => PushWord(mode, s, w)
    case LongArg(l) => PushLong(mode, s, l)
    case FloatArg(f) => s.(vec := s.vec.Append(f))
    case DoubleArg(d) => s.(vec := s.vec.Append(d))
  }

  function PushAll(mode: Mode, s: Caller, args: seq<Arg>): (r: Caller)
    requires s.Valid(mode)
    ensures r.Valid(mode) && |r.vec.mem| == |s.vec.mem|
    decreases |args|
  {
    if args == [] then s else PushAll(mode, Push(mode, s, args[0]), args[1..])
  }

  // --- the callback -----------------------------------------------------------------------

  /** fast_count, which GNU fastcall lets run past two, and stack_ptr as an offset in the vector. */
  datatype Reader = Reader(n: nat, sp: nat)

  function After(mode: Mode, c: Reader, k: Kind): (r: Reader)
    ensures r.sp >= c.sp
  {
    match k
    case KWord => if mode != StdCall && c.n < 2 then c.(n := c.n + 1) else c.(sp := c.sp + 4)
    case KLong => c.(n := if mode == FastGnu then c.n + 2 else c.n, sp := c.sp + 8)
    case KFloat => c.(sp := c.sp + 4)
    case KDouble => c.(sp := c.sp + 8)
  }

  function Answer(mode: Mode, c: Reader, k: Kind, mem: seq<byte>): seq<byte> {
    match k
    case KWord => if mode != StdCall && c.n < 2 then Load(mem, 4 * c.n, 4) else Load(mem, c.sp, 4)
    case KFloat => Load(mem, c.sp, 4)
    case _ => Load(mem, c.sp, 8)
  }

  function AfterAll(mode: Mode, c: Reader, kinds: seq<Kind>): (r: Reader)
    ensures r.sp >= c.sp
    decreases |kinds|
  {
    if kinds == [] then c else AfterAll(mode, After(mode, c, kinds[0]), kinds[1..])
  }

  function Answers(mode: Mode, c: Reader, kinds: seq<Kind>, mem: seq<byte>): seq<seq<byte>>
    decreases |kinds|
  {
    if kinds == [] then []
    else [Answer(mode, c, kinds[0], mem)] + Answers(mode, After(mode, c, kinds[0]), kinds[1..], mem)
  }

  // --- static cleanup sizes ---------------------------------------------------------------

  predicate IsWordChar(ch: char) {
    ch in "BcsijpCSIJZ"
  }

  predicate IsLongChar(ch: char) {
    ch == 'l' || ch == 'L'
  }

  /** The argument type characters the x86 port supports. */
  predicate SupportedChar(ch: char) {
    IsWordChar(ch) || IsLongChar(ch) || ch == 'f' || ch == 'd'
  }

  predicate Supported(args: string) {
    forall ch :: ch in args ==> SupportedChar(ch)
  }

  function KindOf(ch: char): Kind {
    if IsLongChar(ch) then KLong else if ch == 'f' then KFloat else if ch == 'd' then KDouble else KWord
  }

  function KindsOf(args: string): (k: seq<Kind>)
    ensures |k| == |args|
  {
    if args == "" then [] else [KindOf(args[0])] + KindsOf(args[1..])
  }

  /** The sum each of the three functions accumulates from `regs` registers on. */
  function Cleanup(mode: Mode, args: string, regs: nat): nat
    decreases |args|
  {
    if args == "" then 0 else
    var ch := args[0];
    match mode
    case StdCall =>
      (if IsWordChar(ch) || ch == 'f' then 4 else if ch == 'd' || IsLongChar(ch) then 8 else 0)
      + Cleanup(mode, args[1..], regs)
    case FastMs =>
      if IsWordChar(ch) then
        if regs < 2 then Cleanup(mode, args[1..], regs + 1) else 4 + Cleanup(mode, args[1..], regs)
      else (if ch == 'f' then 4 else if ch == 'd' || IsLongChar(ch) then 8 else 0) + Cleanup(mode, args[1..], regs)
    case FastGnu =>
      if ch == 'f' then 4 + Cleanup(mode, args[1..], regs)
      else if ch == 'd' then 8 + Cleanup(mode, args[1..], regs)
      else if IsLongChar(ch) then 8 + Cleanup(mode, args[1..], 2)
      else if regs < 2 then Cleanup(mode, args[1..], regs + 1)
      else 4 + Cleanup(mode, args[1..], regs)
  }

  /** The characters in front of the first ')'. */
  function ArgumentPart(sig: string): (args: string)
    requires ')' in sig
    ensures ')' !in args && args + ")" <= sig
  {
    if sig[0] == ')' then "" else [sig[0]] + ArgumentPart(sig[1..])
  }

  lemma NextChar(sig: string, ptr: nat)
    requires ptr < |sig| && ')' in sig[ptr..] && sig[ptr] != ')'
    ensures ptr + 1 < |sig| && ')' in sig[ptr + 1..]
    ensures ArgumentPart(sig[ptr..]) == [sig[ptr]] + ArgumentPart(sig[ptr + 1..])
    ensures ArgumentPart(sig[ptr..])[0] == sig[ptr] && ArgumentPart(sig[ptr..])[1..] == ArgumentPart(sig[ptr + 1..])
  {
    assert sig[ptr..] == [sig[ptr]] + sig[ptr + 1..];
  }

  lemma LastChar(mode: Mode, sig: string, ptr: nat, regs: nat)
    requires ptr < |sig| && sig[ptr] == ')'
    ensures ')' in sig[ptr..] && Cleanup(mode, ArgumentPart(sig[ptr..]), regs) == 0
  {
    assert sig[ptr..][0] == ')';
  }

  /** dcbCleanupSize_x86_std */
  method CleanupSizeStd(sig: string) returns (size: nat)
    requires ')' in sig
    ensures size == Cleanup(StdCall, ArgumentPart(sig), 0)
  {
    hide ArgumentPart;
    size := 0;
    var ptr := 0;
    while sig[ptr] != ')'
      invariant ptr < |sig| && ')' in sig[ptr..]
      invariant size + Cleanup(StdCall, ArgumentPart(sig[ptr..]), 0) == Cleanup(StdCall, ArgumentPart(sig), 0)
      decreases |sig| - ptr
    {
      var ch := sig[ptr];
      NextChar(sig, ptr);
      if IsWordChar(ch) || ch == 'f' {
        size := size + 4;
      } else if ch == 'd' || IsLongChar(ch) {
        size := size + 8;
      }
      ptr := ptr + 1;
    }
    LastChar(StdCall, sig, ptr, 0);
  }

  /** dcbCleanupSize_x86_fast_ms */
  method CleanupSizeFastMs(sig: string) returns (size: nat)
    requires ')' in sig
    ensures size == Cleanup(FastMs, ArgumentPart(sig), 0)
  {
    hide ArgumentPart;
    size := 0;
    var regs := 0;
    var ptr := 0;
    while sig[ptr] != ')'
      invariant ptr < |sig| && ')' in sig[ptr..]
      invariant size + Cleanup(FastMs, ArgumentPart(sig[ptr..]), regs) == Cleanup(FastMs, ArgumentPart(sig), 0)
      decreases |sig| - ptr
    {
      var ch := sig[ptr];
      NextChar(sig, ptr);
      if IsWordChar(ch) {
        if regs < 2 {
          regs := regs + 1;
        } else {
          size := size + 4;
        }
      } else if ch == 'f' {
        size := size + 4;
      } else if ch == 'd' || IsLongChar(ch) {
        size := size + 8;
      }
      ptr := ptr + 1;
    }
    LastChar(FastMs, sig, ptr, regs);
  }

  /** dcbCleanupSize_x86_fast_gnu */
  method CleanupSizeFastGnu(sig: string) returns (size: nat)
    requires ')' in sig
    ensures size == Cleanup(FastGnu, ArgumentPart(sig), 0)
  {
    hide ArgumentPart;
    size := 0;
    var regs := 0;
    var ptr := 0;
    while sig[ptr] != ')'
      invariant ptr < |sig| && ')' in sig[ptr..]
      invariant size + Cleanup(FastGnu, ArgumentPart(sig[ptr..]), regs) == Cleanup(FastGnu, ArgumentPart(sig), 0)
      decreases |sig| - ptr
    {
      var ch := sig[ptr];
      NextChar(sig, ptr);
      if ch == 'f' {
        size := size + 4;
      } else if ch == 'd' {
        size := size + 8;
      } else if IsLongChar(ch) {
        regs := 2;
        size := size + 8;
      } else if regs < 2 {
        regs := regs + 1;
      } else {
        size := size + 4;
      }
      ptr := ptr + 1;
    }
    LastChar(FastGnu, sig, ptr, regs);
  }

  /** What the reader advances over is what the static scan counted. */
  lemma {:induction false} ReaderAdvancesByCleanup(mode: Mode, args: string, regs: nat, c: Reader)
    requires Supported(args) && regs == (if c.n < 2 then c.n else 2)
    ensures AfterAll(mode, c, KindsOf(args)).sp == c.sp + Cleanup(mode, args, regs)
    decreases |args|
  {
    hide Supported;
    if args != "" {
      SupportedHead(args);
      var c1 := After(mode, c, KindOf(args[0]));
      var regs1 := if c1.n < 2 then c1.n else 2;
      ReaderAdvancesByCleanup(mode, args[1..], regs1, c1);
      if mode == StdCall {
        StdIgnoresRegs(args[1..], regs, regs1);
      }
    }
  }

  lemma SupportedHead(args: string)
    requires Supported(args) && args != ""
    ensures SupportedChar(args[0]) && Supported(args[1..])
  {
    assert args[0] in args;
  }

  lemma {:induction false} StdIgnoresRegs(args: string, regs: nat, regs1: nat)
    ensures Cleanup(StdCall, args, regs) == Cleanup(StdCall, args, regs1)
    decreases |args|
  {
    if args != "" {
      StdIgnoresRegs(args[1..], regs, regs1);
    }
  }

  // --- round trip -------------------------------------------------------------------------

  predicate InStep(mode: Mode, s: Caller, c: Reader) {
    s.Valid(mode) && s.n == (if c.n < 2 then c.n else 2) && s.vec.size == c.sp
  }

  /** The registers in use, and the stack part. */
  predicate Holds(mode: Mode, s: Caller, mem: seq<byte>) {
    && |mem| == |s.vec.mem|
    && forall k :: 0 <= k < |mem| && ((mode != StdCall && k < 4 * s.n) || Reserved(mode) <= k < s.vec.size) ==>
       mem[k] == s.vec.mem[k]
  }

  lemma PushKeeps(mode: Mode, s: Caller, a: Arg, mem: seq<byte>)
    requires s.Valid(mode) && Holds(mode, Push(mode, s, a), mem)
    ensures Holds(mode, s, mem)
  {
    hide Load;
  }

  lemma {:induction false} PushAllKeeps(mode: Mode, s: Caller, args: seq<Arg>, mem: seq<byte>)
    requires s.Valid(mode) && Holds(mode, PushAll(mode, s, args), mem)
    ensures Holds(mode, s, mem)
    decreases |args|
  {
    if args != [] {
      PushAllKeeps(mode, Push(mode, s, args[0]), args[1..], mem);
      PushKeeps(mode, s, args[0], mem);
    }
  }

  lemma HeldBytes(mode: Mode, s: Caller, mem: seq<byte>, off: nat, b: seq<byte>)
    requires Holds(mode, s, mem) && off + |b| <= |s.vec.mem| && s.vec.mem[off..off + |b|] == b
    requires (mode != StdCall && off + |b| <= 4 * s.n) || (Reserved(mode) <= off && off + |b| <= s.vec.size)
    ensures Load(mem, off, |b|) == b
  {
    assert mem[off..off + |b|] == s.vec.mem[off..off + |b|];
  }

  lemma Step(mode: Mode, s: Caller, c: Reader, a: Arg, mem: seq<byte>)
    requires InStep(mode, s, c) && After(mode, c, a.Kind()).sp <= |s.vec.mem|
    ensures InStep(mode, Push(mode, s, a), After(mode, c, a.Kind()))
    ensures Holds(mode, Push(mode, s, a), mem) ==> Answer(mode, c, a.Kind(), mem) == a.Bytes()
  {
    hide Load;
    var s1 := Push(mode, s, a);
    var inRegister := a.WordArg? && mode != StdCall && s.n < 2;
    if Holds(mode, s1, mem) {
      HeldBytes(mode, s1, mem, if inRegister then 4 * s.n else s.vec.size, a.Bytes());
    }
  }

  lemma {:induction false} RoundTrip(mode: Mode, s: Caller, c: Reader, args: seq<Arg>, mem: seq<byte>)
    requires InStep(mode, s, c) && AfterAll(mode, c, Kinds(args)).sp <= |s.vec.mem|
    requires Holds(mode, PushAll(mode, s, args), mem)
    ensures Answers(mode, c, Kinds(args), mem) == Contents(args)
    ensures InStep(mode, PushAll(mode, s, args), AfterAll(mode, c, Kinds(args)))
    decreases |args|
  {
    hide Answer, After, Push, InStep, Holds;
    InStepValid(mode, s, c);
    if args != [] {
      Step(mode, s, c, args[0], mem);
      PushAllKeeps(mode, Push(mode, s, args[0]), args[1..], mem);
      RoundTrip(mode, Push(mode, s, args[0]), After(mode, c, args[0].Kind()), args[1..], mem);
    }
  }

  lemma InStepValid(mode: Mode, s: Caller, c: Reader)
    requires InStep(mode, s, c)
    ensures s.Valid(mode)
  {
  }

  /** The reset of the mode, made after the mode was set. */
  predicate Fresh(mode: Mode, s: Caller) {
    s.Valid(mode) && s.n == 0 && s.vec.size == Reserved(mode)
  }

  /**
    Three-way agreement: for every signature of supported types, the cleanup size computed from
    its characters, the bytes the callback's reader advances over and the bytes the caller
    pushed are one number, and the values read back.
   */
  lemma ThreeWayAgreement(mode: Mode, s: Caller, sig: string, args: seq<Arg>)
    requires Fresh(mode, s) && ')' in sig && Supported(ArgumentPart(sig)) && Kinds(args) == KindsOf(ArgumentPart(sig))
    requires Reserved(mode) + Cleanup(mode, ArgumentPart(sig), 0) <= |s.vec.mem|
    ensures var start := Reader(0, Reserved(mode));
            var e := PushAll(mode, s, args);
            && AfterAll(mode, start, Kinds(args)).sp - start.sp == Cleanup(mode, ArgumentPart(sig), 0)
            && e.vec.size - Reserved(mode) == Cleanup(mode, ArgumentPart(sig), 0)
            && Answers(mode, start, Kinds(args), e.vec.mem) == Contents(args)
  {
    ReaderAdvancesByCleanup(mode, ArgumentPart(sig), 0, Reader(0, Reserved(mode)));
    RoundTrip(mode, s, Reader(0, Reserved(mode)), args, PushAll(mode, s, args).vec.mem);
  }

  // --- capacity ---------------------------------------------------------------------------

  /** The depths agree exactly while everything has fitted. */
  predicate Tracks(mode: Mode, s: Caller, c: Reader) {
    && s.Valid(mode) && s.n == (if c.n < 2 then c.n else 2)
    && if c.sp <= |s.vec.mem| then s.vec.size == c.sp else s.vec.size < c.sp
  }

  lemma StepTracks(mode: Mode, s: Caller, c: Reader, a: Arg)
    requires Tracks(mode, s, c)
    ensures Tracks(mode, Push(mode, s, a), After(mode, c, a.Kind()))
  {
    hide Load, Store;
  }

  /**
    The capacity condition is exact: the caller pushes the number of bytes the callback cleans
    up if and only if they fit the vector. A dropped append is never made up for.
   */
  lemma {:induction false} CapacityIsExact(mode: Mode, s: Caller, c: Reader, args: seq<Arg>)
    requires Tracks(mode, s, c)
    ensures Tracks(mode, PushAll(mode, s, args), AfterAll(mode, c, Kinds(args)))
    ensures PushAll(mode, s, args).vec.size == AfterAll(mode, c, Kinds(args)).sp
            <==> AfterAll(mode, c, Kinds(args)).sp <= |s.vec.mem|
    decreases |args|
  {
    if args != [] {
      StepTracks(mode, s, c, args[0]);
      CapacityIsExact(mode, Push(mode, s, args[0]), After(mode, c, args[0].Kind()), args[1..]);
    }
  }
}
