/**
  Where the x86 conventions have each argument: stdcall on the stack in order; fastcall the
  first two words in ecx and edx (the first eight bytes of the vector), the others on the stack
  behind them, GNU fastcall no more words in registers once it has met a 64-bit integer.
 */
module X86Placement {
  import opened Memory
  import opened Arguments
  import opened X86

  /** Registers and stack bytes taken by earlier arguments. */
  datatype Taken = Taken(regs: nat, bytes: nat)

  predicate InRegister(mode: Mode, t: Taken, k: Kind) {
    (mode == FastMs || mode == FastGnu) && k == KWord && t.regs < 2
  }

  /** Where the stack part of the vector begins. */
  function StackStart(mode: Mode): nat {
    match mode
    case StdCall => 0
    case FastMs => 8
    case FastGnu => 8
  }

  /** The reset leaves room for ecx and edx, and for nothing in stdcall mode. */
  lemma ReservedForRegisters(mode: Mode)
    ensures Reserved(mode) == StackStart(mode)
  {
  }

  function Next(mode: Mode, t: Taken, k: Kind): (r: Taken)
    ensures r.bytes >= t.bytes
  {
    match k
    case KWord => if InRegister(mode, t, k) then t.(regs := t.regs + 1) else t.(bytes := t.bytes + 4)
    case KLong => Taken(if mode == FastGnu then 2 else t.regs, t.bytes + 8)
    case KFloat => t.(bytes := t.bytes + 4)
    case KDouble => t.(bytes := t.bytes + 8)
  }

  function After(mode: Mode, t: Taken, kinds: seq<Kind>): (r: Taken)
    ensures r.bytes >= t.bytes
    decreases |kinds|
  {
    if kinds == [] then t else After(mode, Next(mode, t, kinds[0]), kinds[1..])
  }

  predicate IsAt(mode: Mode, t: Taken, a: Arg, mem: seq<byte>) {
    if InRegister(mode, t, a.Kind()) then Load(mem, 4 * t.regs, 4) == a.Bytes()
    else Load(mem, StackStart(mode) + t.bytes, |a.Bytes()|) == a.Bytes()
  }

  predicate Describes(mode: Mode, t: Taken, s: Caller) {
    s.Valid(mode) && s.n == t.regs && s.vec.size == StackStart(mode) + t.bytes
  }

  lemma HeadIsAt(mode: Mode, s: Caller, t: Taken, a: Arg, mem: seq<byte>)
    requires Describes(mode, t, s) && Holds(mode, Push(mode, s, a), mem)
    requires StackStart(mode) + Next(mode, t, a.Kind()).bytes <= |s.vec.mem|
    ensures Describes(mode, Next(mode, t, a.Kind()), Push(mode, s, a))
    ensures IsAt(mode, t, a, mem)
  {
    var s1 := Push(mode, s, a);
    var off := if InRegister(mode, t, a.Kind()) then 4 * t.regs else StackStart(mode) + t.bytes;
    assert s1.vec.mem[off..off + |a.Bytes()|] == a.Bytes();
    HeldBytes(mode, s1, mem, off, a.Bytes());
  }

  lemma {:induction false} PlacedFrom(mode: Mode, s: Caller, t: Taken, args: seq<Arg>, k: nat, mem: seq<byte>)
    requires Describes(mode, t, s) && k < |args|
    requires StackStart(mode) + After(mode, t, Kinds(args)).bytes <= |s.vec.mem|
    requires Holds(mode, PushAll(mode, s, args), mem)
    ensures IsAt(mode, After(mode, t, Kinds(args[..k])), args[k], mem)
    ensures Describes(mode, After(mode, t, Kinds(args)), PushAll(mode, s, args))
    decreases |args|
  {
    hide IsAt, Next, Push, Holds, StackStart;
    var s1, t1 := Push(mode, s, args[0]), Next(mode, t, args[0].Kind());
    PushAllKeeps(mode, s1, args[1..], mem);
    HeadIsAt(mode, s, t, args[0], mem);
    if |args| > 1 {
      PlacedFrom(mode, s1, t1, args[1..], if k > 0 then k - 1 else 0, mem);
      if k > 0 {
        assert args[..k][1..] == args[1..][..k - 1];
      }
    }
  }

  /** Placement at the call, for every list that fits; the stack part is as long as the arguments on it. */
  lemma Placement(mode: Mode, s: Caller, args: seq<Arg>, k: nat)
    requires Fresh(mode, s) && k < |args|
    requires StackStart(mode) + After(mode, Taken(0, 0), Kinds(args)).bytes <= |s.vec.mem|
    ensures var e := PushAll(mode, s, args);
            && IsAt(mode, After(mode, Taken(0, 0), Kinds(args[..k])), args[k], e.vec.mem)
            && e.vec.size == StackStart(mode) + After(mode, Taken(0, 0), Kinds(args)).bytes
  {
    hide IsAt;
    PlacedFrom(mode, s, Taken(0, 0), args, k, PushAll(mode, s, args).vec.mem);
  }

  /** The type characters, and the kind each stands for. */
  lemma TypeCharacters(ch: char)
    ensures SupportedChar(ch) <==> ch in "BcCsSiIjJpZlLfd"
    ensures SupportedChar(ch) ==>
              KindOf(ch) == if ch == 'l' || ch == 'L' then KLong else if ch == 'f' then KFloat
                            else if ch == 'd' then KDouble else KWord
  {
  }

  /** The cleanup size of a supported signature is the stack part of its arguments. */
  lemma CleanupIsStackPart(mode: Mode, args: string)
    requires Supported(args)
    ensures Cleanup(mode, args, 0) == After(mode, Taken(0, 0), KindsOf(args)).bytes
  {
    CleanupFrom(mode, args, Taken(0, 0), 0);
  }

  lemma {:induction false} CleanupFrom(mode: Mode, args: string, t: Taken, regs: nat)
    requires Supported(args) && t.regs <= 2 && (mode != StdCall ==> regs == t.regs)
    ensures t.bytes + Cleanup(mode, args, regs) == After(mode, t, KindsOf(args)).bytes
    decreases |args|
  {
    if args != "" {
      SupportedHead(args);
      var t1 := Next(mode, t, KindOf(args[0]));
      CleanupFrom(mode, args[1..], t1, if mode == StdCall then regs else t1.regs);
    }
  }
}
