/**
  Where the two 32-bit PowerPC conventions have each argument. System V: integers in r3 to r10,
  64-bit ones in pairs that start at r3, r5, r7 or r9, floating point in f1 to f8, the rest on
  the stack aligned to its size. Darwin: every argument has its place in the stack image, whose
  first eight words are also in r3 to r10, and floating point is also in f1 to f13.
 */
module Ppc32SysvPlacement {
  import opened Memory
  import opened Arguments
  import opened Ppc32Sysv

  /** Integer registers (from r3), floating-point registers (from f1) and stack bytes taken. */
  datatype Taken = Taken(ints: nat, fps: nat, bytes: nat)

  /** The first register of the pair a 64-bit integer needs. */
  function Pair(t: Taken): nat {
    (t.ints + 1) / 2 * 2
  }

  predicate InRegister(t: Taken, a: Arg) {
    match a
    case WordArg(_) => t.ints < 8
    case LongArg(_) => Pair(t) + 1 < 8
    case FloatArg(_) => t.fps < 8
    case DoubleArg(_) => t.fps < 8
  }

  /** Where an argument goes that finds no register. */
  function StackOffset(t: Taken, a: Arg): nat {
    if a.LongArg? || a.DoubleArg? then RoundUp(t.bytes, 8) else t.bytes
  }

  /** A 64-bit integer that goes to the stack leaves no integer register for later arguments. */
  function Next(t: Taken, a: Arg): (r: Taken)
    ensures r.bytes >= t.bytes
  {
    var onStack := StackOffset(t, a) + |a.Bytes()|;
    match a
    case WordArg(_) => if InRegister(t, a) then t.(ints := t.ints + 1) else t.(bytes := onStack)
    case LongArg(_) => if InRegister(t, a) then t.(ints := Pair(t) + 2) else t.(ints := 8, bytes := onStack)
    case _ => if InRegister(t, a) then t.(fps := t.fps + 1) else t.(bytes := onStack)
  }

  function After(t: Taken, args: seq<Arg>): (r: Taken)
    ensures r.bytes >= t.bytes
    decreases |args|
  {
    if args == [] then t else After(Next(t, args[0]), args[1..])
  }

  predicate IsAt(u: FloatUnit, t: Taken, a: Arg, gi: seq<Word>, gf: seq<Eightbyte>, stack: seq<byte>)
    requires |gi| == 8 && |gf| == 8
  {
    if !InRegister(t, a) then Load(stack, StackOffset(t, a), |a.Bytes()|) == a.Bytes()
    else
      match a
      case WordArg(w) => gi[t.ints] == w
      case LongArg(l) => gi[Pair(t)] == l[..4] && gi[Pair(t) + 1] == l[4..]
      case FloatArg(f) => gf[t.fps] == u.widen(f)
      case DoubleArg(d) => gf[t.fps] == d
  }

  predicate Describes(t: Taken, s: Caller) {
    s.Valid() && s.n == t.ints && s.f == t.fps && s.vec.size == t.bytes
  }

  lemma HeadIsAt(u: FloatUnit, s: Caller, t: Taken, a: Arg, img: Image)
    requires Describes(t, s) && Next(t, a).bytes <= |s.vec.mem| && Holds(Push(u, s, a), img)
    ensures Describes(Next(t, a), Push(u, s, a))
    ensures |img.gi| == 8 && |img.gf| == 8 && IsAt(u, t, a, img.gi, img.gf, img.mem)
  {
    hide Load;
    var s1 := Push(u, s, a);
    if !InRegister(t, a) {
      SameBelowLoads(s1.vec.mem, img.mem, s1.vec.size, StackOffset(t, a), |a.Bytes()|);
    }
  }

  lemma {:induction false} PlacedFrom(u: FloatUnit, s: Caller, t: Taken, args: seq<Arg>, k: nat, img: Image)
    requires Describes(t, s) && k < |args| && After(t, args).bytes <= |s.vec.mem|
    requires Holds(PushAll(u, s, args), img)
    ensures |img.gi| == 8 && |img.gf| == 8 && IsAt(u, After(t, args[..k]), args[k], img.gi, img.gf, img.mem)
    decreases k
  {
    hide IsAt, Next, Push, Holds;
    var s1 := Push(u, s, args[0]);
    PushAllKeeps(u, s1, args[1..], img);
    HeadIsAt(u, s, t, args[0], img);
    if k > 0 {
      PlacedFrom(u, s1, Next(t, args[0]), args[1..], k - 1, img);
      assert args[..k][1..] == args[1..][..k - 1];
    }
  }

  /** Placement at the call, for every list that fits the vector. */
  lemma Placement(u: FloatUnit, s: Caller, args: seq<Arg>, k: nat)
    requires Fresh(s) && k < |args| && After(Taken(0, 0, 0), args).bytes <= |s.vec.mem|
    ensures var e := PushAll(u, s, args);
            && |e.gi| == 8 && |e.gf| == 8
            && IsAt(u, After(Taken(0, 0, 0), args[..k]), args[k], e.gi, e.gf, e.vec.mem)
  {
    hide IsAt;
    var e := PushAll(u, s, args);
    PlacedFrom(u, s, Taken(0, 0, 0), args, k, Image(e.gi, e.gf, e.vec.mem));
  }
}

module Ppc32DarwinPlacement {
  import opened Memory
  import opened Arguments
  import opened Ppc32Darwin

  /** Bytes of the first `k` arguments: the offset of argument `k`. */
  function OffsetOf(args: seq<Arg>, k: nat): nat
    requires k <= |args|
  {
    if k == 0 then 0 else OffsetOf(args, k - 1) + |args[k - 1].Bytes()|
  }

  function FpsBefore(args: seq<Arg>, k: nat): nat
    requires k <= |args|
  {
    if k == 0 then 0 else FpsBefore(args, k - 1) + if args[k - 1].FloatArg? || args[k - 1].DoubleArg? then 1 else 0
  }

  /** Argument `a` at `off`, with `fps` floating-point arguments before it, as the callee finds it. */
  predicate IsAt(u: FloatUnit, off: nat, fps: nat, a: Arg, gi: seq<Word>, gf: seq<Eightbyte>, stack: seq<byte>)
    requires |gi| == 8 && |gf| == 13
  {
    && Load(stack, off, |a.Bytes()|) == a.Bytes()
    && (forall k :: 0 <= k < 8 && off <= 4 * k < off + |a.Bytes()| ==> gi[k] == Load(stack, 4 * k, 4))
    && (fps < 13 ==> match a case FloatArg(f) => gf[fps] == u.widen(f) case DoubleArg(d) => gf[fps] == d case _ => true)
  }

  predicate Describes(off: nat, fps: nat, s: Caller) {
    Mirror(s) && s.vec.size == off && s.f == if fps < 13 then fps else 13
  }

  lemma HeadIsAt(u: FloatUnit, s: Caller, off: nat, fps: nat, a: Arg, img: Image)
    requires Describes(off, fps, s) && off + |a.Bytes()| <= |s.vec.mem|
    requires Mirror(Push(u, s, a)) && Push(u, s, a).vec.size == off + |a.Bytes()| && Holds(Push(u, s, a), img)
    ensures Describes(off + |a.Bytes()|, fps + if a.FloatArg? || a.DoubleArg? then 1 else 0, Push(u, s, a))
    ensures |img.gi| == 8 && |img.gf| == 13 && IsAt(u, off, fps, a, img.gi, img.gf, img.mem)
  {
    hide Load;
    var s1 := Push(u, s, a);
    SameBelowLoads(s1.vec.mem, img.mem, s1.vec.size, off, |a.Bytes()|);
    BytesThere(u, s, a);
    forall k | 0 <= k < 8 && off <= 4 * k < off + |a.Bytes()| ensures img.gi[k] == Load(img.mem, 4 * k, 4) {
      SameBelowLoads(s1.vec.mem, img.mem, s1.vec.size, 4 * k, 4);
    }
  }

  lemma BytesThere(u: FloatUnit, s: Caller, a: Arg)
    requires Mirror(s) && s.vec.size + |a.Bytes()| <= |s.vec.mem|
    ensures Load(Push(u, s, a).vec.mem, s.vec.size, |a.Bytes()|) == a.Bytes()
  {
    if a.LongArg? {
      TwoStores(s.vec.mem, s.vec.size, a.l);
    }
  }

  lemma {:induction false} PlacedFrom(u: FloatUnit, s: Caller, off: nat, fps: nat, args: seq<Arg>, k: nat, img: Image)
    requires Describes(off, fps, s) && k < |args| && off + StackBytes(Kinds(args)) <= |s.vec.mem|
    requires Holds(PushAll(u, s, args), img)
    ensures |img.gi| == 8 && |img.gf| == 13
    ensures IsAt(u, off + OffsetOf(args, k), fps + FpsBefore(args, k), args[k], img.gi, img.gf, img.mem)
    decreases k
  {
    hide IsAt, Push, Holds, Mirror;
    MirrorCounts(s);
    var s1 := Push(u, s, args[0]);
    PushKeepsMirror(u, s, args[0]);
    PushAllKeeps(u, s1, args[1..], img);
    HeadIsAt(u, s, off, fps, args[0], img);
    if k > 0 {
      TailCounts(args, k);
      PlacedFrom(u, s1, off + OffsetOf(args, 1), fps + FpsBefore(args, 1), args[1..], k - 1, img);
    }
  }

  lemma {:induction false} TailCounts(args: seq<Arg>, k: nat)
    requires 0 < k <= |args|
    ensures OffsetOf(args, k) == OffsetOf(args, 1) + OffsetOf(args[1..], k - 1)
    ensures FpsBefore(args, k) == FpsBefore(args, 1) + FpsBefore(args[1..], k - 1)
  {
    if k > 1 {
      TailCounts(args, k - 1);
    }
  }

  /** Placement at the call, for every list that fits the vector. */
  lemma Placement(u: FloatUnit, s: Caller, args: seq<Arg>, k: nat)
    requires Fresh(s) && k < |args| && StackBytes(Kinds(args)) <= |s.vec.mem|
    ensures var e := PushAll(u, s, args);
            && |e.gi| == 8 && |e.gf| == 13
            && IsAt(u, OffsetOf(args, k), FpsBefore(args, k), args[k], e.gi, e.gf, e.vec.mem)
  {
    hide IsAt;
    var e := PushAll(u, s, args);
    PlacedFrom(u, s, 0, 0, args, k, Image(e.gi, e.gf, e.vec.mem));
  }
}
