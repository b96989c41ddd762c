/**
  Where the 64-bit PowerPC ELFv2 ABI has each argument: argument n is in slot n of the parameter
  save area; the first eight slots are in r3 to r10, the first thirteen floating-point arguments
  in f1 to f13 as well, and memory holds the slots from the ninth on and all variadic ones.
 */
module Ppc64Placement {
  import opened Memory
  import opened Integers
  import opened Arguments
  import opened Ppc64

  predicate IsFp(x: Item) {
    x.a.FloatArg? || x.a.DoubleArg?
  }

  /** A register or slot with the argument in it: integers widened, floats as doubles. */
  predicate Carries(u: FloatUnit, x: Item, w: Eightbyte) {
    match x.a
    case WordArg(b) => SignedValue(w) == SignedValue(b)
    case LongArg(l) => w == l
    case FloatArg(f) => w == u.widen(f)
    case DoubleArg(d) => w == d
  }

  /** A named float in memory stays single. */
  predicate CarriesInMemory(u: FloatUnit, x: Item, w: Eightbyte) {
    if x.a.FloatArg? && !x.variadic then w[..4] == x.a.f else Carries(u, x, w)
  }

  /** Argument `x` in slot `m`, after `fps` floating-point arguments, as the callee finds it. */
  predicate IsAt(u: FloatUnit, m: nat, fps: nat, x: Item, gi: seq<Eightbyte>, gf: seq<Eightbyte>, mem: seq<byte>)
    requires |gi| == 8 && |gf| == 13
  {
    && (m < 8 ==> Carries(u, x, gi[m]))
    && (IsFp(x) && fps < 13 ==> Carries(u, x, gf[fps]))
    && (x.variadic || m >= 8 ==> CarriesInMemory(u, x, Load(mem, 8 * m, 8)))
  }

  function FpsBefore(items: seq<Item>, k: nat): nat
    requires k <= |items|
  {
    if k == 0 then 0 else FpsBefore(items, k - 1) + if IsFp(items[k - 1]) then 1 else 0
  }

  predicate Describes(m: nat, fps: nat, s: Caller) {
    Slotted(s, m) && fps <= m && s.f == if fps < 13 then fps else 13
  }

  /** In registers directly after being placed. */
  lemma HeadInRegisters(u: FloatUnit, s: Caller, m: nat, fps: nat, x: Item)
    requires Describes(m, fps, s) && (!x.variadic ==> NamedPhase(s))
    ensures var s1 := Push(u, s, x);
            && s1.f == (if fps + (if IsFp(x) then 1 else 0) < 13 then fps + (if IsFp(x) then 1 else 0) else 13)
            && (m < 8 ==> s1.n == m + 1 && Carries(u, x, s1.gi[m]))
            && (IsFp(x) && fps < 13 ==> Carries(u, x, s1.gf[fps]))
  {
    hide SignExtend, SignedValue, Load;
    if x.a.WordArg? {
      SignExtendKeepsValue(x.a.w, 8);
    }
  }

  lemma HeadInMemory(u: FloatUnit, s: Caller, m: nat, x: Item)
    requires Slotted(s, m) && 8 * m + 8 <= |s.vec.mem| && (!x.variadic ==> NamedPhase(s)) && (x.variadic || m >= 8)
    ensures var s1 := Push(u, s, x);
            s1.vec.size == 8 * m + 8 && CarriesInMemory(u, x, Load(s1.vec.mem, 8 * m, 8))
  {
    hide SignExtend, SignedValue, Load, NamedPhase, PushLong, PushLongVariadic, PushFp, PushDoubleVariadic;
    match x.a
    case WordArg(w) =>
      LongKeepsSlots(s, m, SignExtend(w, 8), x.variadic);
      SignExtendKeepsValue(w, 8);
    case LongArg(l) => LongKeepsSlots(s, m, l, x.variadic);
    case FloatArg(f) =>
      var lo: seq<byte> := f;
      if x.variadic {
        VariadicDoubleKeepsSlots(s, m, u.widen(f));
      } else {
        FpKeepsSlots(s, m, u.widen(f), lo + x.pad);
      }
    case DoubleArg(d) =>
      if x.variadic {
        VariadicDoubleKeepsSlots(s, m, d);
      } else {
        FpKeepsSlots(s, m, d, d);
      }
  }

  /** In registers and memory at the call, since nothing later touches them. */
  lemma HeadIsAt(u: FloatUnit, s: Caller, m: nat, fps: nat, x: Item, img: Image)
    requires Describes(m, fps, s) && 8 * m + 8 <= |s.vec.mem| && (!x.variadic ==> NamedPhase(s))
    requires Holds(Push(u, s, x), img)
    ensures Describes(m + 1, fps + if IsFp(x) then 1 else 0, Push(u, s, x))
    ensures |img.gi| == 8 && |img.gf| == 13 && IsAt(u, m, fps, x, img.gi, img.gf, img.mem)
  {
    hide Push, Carries, CarriesInMemory, Load, NamedPhase, Expected;
    var s1 := Push(u, s, x);
    PushKeepsSlots(u, s, m, x);
    HeadInRegisters(u, s, m, fps, x);
    if x.variadic || m >= 8 {
      HeadInMemory(u, s, m, x);
      SameBelowLoads(s1.vec.mem, img.mem, s1.vec.size, 8 * m, 8);
    }
  }

  lemma {:induction false} TailFps(items: seq<Item>, k: nat)
    requires 0 < k <= |items|
    ensures FpsBefore(items, k) == (if IsFp(items[0]) then 1 else 0) + FpsBefore(items[1..], k - 1)
  {
    if k > 1 {
      TailFps(items, k - 1);
    }
  }

  lemma {:induction false} PlacedFrom(u: FloatUnit, s: Caller, m: nat, fps: nat, items: seq<Item>, k: nat, img: Image)
    requires Describes(m, fps, s) && 8 * (m + |items|) <= |s.vec.mem| && k < |items|
    requires NamedFirst(items) && (!items[0].variadic ==> NamedPhase(s))
    requires Holds(PushAll(u, s, items), img)
    ensures |img.gi| == 8 && |img.gf| == 13
    ensures IsAt(u, m + k, fps + FpsBefore(items, k), items[k], img.gi, img.gf, img.mem)
    decreases k
  {
    hide IsAt, Push, Holds, NamedPhase, Slotted, IsFp;
    SlottedValid(s, m);
    var x := items[0];
    var s1 := Push(u, s, x);
    PushAllKeeps(u, s1, items[1..], img);
    PushKeepsSlots(u, s, m, x);
    HeadIsAt(u, s, m, fps, x, img);
    if k > 0 {
      TailFps(items, k);
      assert !items[1..][0].variadic ==> !x.variadic;
      PlacedFrom(u, s1, m + 1, fps + (if IsFp(x) then 1 else 0), items[1..], k - 1, img);
    }
  }

  /** Placement at the call, for every list with its named arguments first that fits the vector. */
  lemma Placement(u: FloatUnit, s: Caller, items: seq<Item>, k: nat)
    requires Fresh(s) && NamedFirst(items) && 8 * |items| <= |s.vec.mem| && k < |items|
    ensures var e := PushAll(u, s, items);
            |e.gi| == 8 && |e.gf| == 13 && IsAt(u, k, FpsBefore(items, k), items[k], e.gi, e.gf, e.vec.mem)
  {
    hide IsAt, Holds;
    var e := PushAll(u, s, items);
    HoldsAtEnd(e);
    PlacedFrom(u, s, 0, 0, items, k, Image(e.gi, e.gf, e.vec.mem));
  }
}
