/**
  Where Apple's arm64 convention has each argument: the first eight integers and the first
  eight floating-point values in registers, widened to 64 bits where they are integers, the
  others on the stack at the next multiple of their own size.
 */
module AppleArm64Placement {
  import opened Memory
  import opened Integers
  import opened AppleArm64

  /** What is taken before an argument: integer registers, floating-point registers, stack bytes. */
  datatype Taken = Taken(ints: nat, fps: nat, bytes: nat)

  predicate InRegister(t: Taken, a: Arg) {
    if a.IntArg? then t.ints < 8 else t.fps < 8
  }

  function Next(t: Taken, a: Arg): (r: Taken)
    requires a.Valid()
    ensures r.bytes >= t.bytes
  {
    if InRegister(t, a) then
      if a.IntArg? then t.(ints := t.ints + 1) else t.(fps := t.fps + 1)
    else t.(bytes := RoundUp(t.bytes, |a.b|) + |a.b|)
  }

  function After(t: Taken, args: seq<Arg>): (r: Taken)
    requires AllValid(args)
    ensures r.bytes >= t.bytes
    decreases |args|
  {
    if args == [] then t else After(Next(t, args[0]), args[1..])
  }

  /** Argument `a`, before which `t` was taken, as the callee finds it. */
  predicate IsAt(t: Taken, a: Arg, gi: seq<Eightbyte>, gf: seq<Eightbyte>, stack: seq<byte>)
    requires a.Valid() && |gi| == 8 && |gf| == 8
  {
    if !InRegister(t, a) then Load(stack, RoundUp(t.bytes, |a.b|), |a.b|) == a.b
    else if a.IntArg? then SignedValue(gi[t.ints]) == SignedValue(a.b)
    else gf[t.fps][..|a.b|] == a.b
  }

  predicate Describes(t: Taken, s: Caller) {
    s.Valid() && s.i == t.ints && s.f == t.fps && s.vec.size == t.bytes
  }

  lemma HeadIsAt(s: Caller, t: Taken, a: Arg, img: Image)
    requires Describes(t, s) && a.Valid() && Next(t, a).bytes <= |s.vec.mem| && Holds(Push(s, a), img)
    ensures Describes(Next(t, a), Push(s, a))
    ensures |img.gi| == 8 && |img.gf| == 8 && IsAt(t, a, img.gi, img.gf, img.mem)
  {
    hide SignedValue, SignExtend, Load, RoundUp;
    var s1 := Push(s, a);
    if a.IntArg? {
      SignExtendKeepsValue(a.b, 8);
    }
    if !InRegister(t, a) {
      SameBelowLoads(s1.vec.mem, img.mem, s1.vec.size, RoundUp(t.bytes, |a.b|), |a.b|);
    }
  }

  lemma {:induction false} PlacedFrom(s: Caller, t: Taken, args: seq<Arg>, k: nat, img: Image)
    requires Describes(t, s) && AllValid(args) && k < |args| && After(t, args).bytes <= |s.vec.mem|
    requires Holds(PushAll(s, args), img)
    ensures |img.gi| == 8 && |img.gf| == 8 && IsAt(After(t, args[..k]), args[k], img.gi, img.gf, img.mem)
    decreases k
  {
    hide IsAt, Next, Push, Holds;
    assert args[0] in args;
    var s1 := Push(s, args[0]);
    PushAllKeeps(s1, args[1..], img);
    HeadIsAt(s, t, args[0], img);
    if k > 0 {
      PlacedFrom(s1, Next(t, args[0]), args[1..], k - 1, img);
      assert args[..k][1..] == args[1..][..k - 1];
    }
  }

  /** Placement at the call, for every list that fits the vector. */
  lemma Placement(s: Caller, args: seq<Arg>, k: nat)
    requires Fresh(s) && AllValid(args) && k < |args| && After(Taken(0, 0, 0), args).bytes <= |s.vec.mem|
    ensures var e := PushAll(s, args);
            |e.gi| == 8 && |e.gf| == 8 && IsAt(After(Taken(0, 0, 0), args[..k]), args[k], e.gi, e.gf, e.vec.mem)
  {
    hide IsAt;
    var e := PushAll(s, args);
    PlacedFrom(s, Taken(0, 0, 0), args, k, Image(e.gi, e.gf, e.vec.mem));
  }
}
