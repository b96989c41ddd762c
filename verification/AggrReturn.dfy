/**
  Returning an aggregate on System V AMD64: dcbReturnAggr spreads it over rax, rdx, xmm0 and
  xmm1, call_x64_aggr puts it together again, and both sides choose between registers and a
  hidden pointer (dyncall_callvm_x64.c, dyncall_args_x64.c, dyncall_callback_x64.c).
 */
module AggrReturn {
  import opened Aggregate
  import opened Memory
  import opened Classify
  import opened SysvClasses
  import opened Sysv64
  import opened Callback

  /** rax, rdx, xmm0 and xmm1 in this order, eight bytes each. */
  type Registers = b: seq<byte> | |b| == 32 witness seq(32, _ => 0)

  predicate InRegisters(ag: SysvAggr) {
    WellFormed(ag) && ag.classes[0] != Class.Memory
  }

  /** What `WellFormed` says of eightbyte `k`. */
  lemma SlotFacts(ag: SysvAggr, k: nat)
    requires InRegisters(ag) && k <= Eightbytes(ag.size)
    ensures Eightbytes(ag.size) <= 2 && |ag.classes| == 8
    ensures k < Eightbytes(ag.size) <==> 8 * k < ag.size
    ensures k + 1 < Eightbytes(ag.size) ==> LiveBytes(ag.size, k) == 8
    ensures if k < Eightbytes(ag.size) then ag.classes[k] in {Integer, Sse} else ag.classes[k] == NoClass
    ensures Eightbytes(ag.size) <= 8 && ag.classes[Eightbytes(ag.size)] == NoClass
  {
  }

  function IsInt(ag: SysvAggr, k: nat): (r: nat)
    requires k < |ag.classes|
    ensures r <= 1
  {
    if ag.classes[k] == Integer then 1 else 0
  }

  /** Where eightbyte `k` goes when `ni` and `nx` registers are taken. */
  function Slot(ag: SysvAggr, k: nat, ni: nat, nx: nat): nat
    requires k < |ag.classes|
  {
    if ag.classes[k] == Integer then 8 * ni else 16 + 8 * nx
  }

  /** The loop of dcbReturnAggr from eightbyte `k` on, `ni` and `nx` registers being taken. */
  function Distribute(ag: SysvAggr, mem: seq<byte>, regs: Registers, k: nat, ni: nat, nx: nat): (r: Registers)
    requires InRegisters(ag) && ni + nx == k <= Eightbytes(ag.size)
    ensures forall m :: 0 <= m < 8 * ni || 16 <= m < 16 + 8 * nx ==> r[m] == regs[m]
    decreases Eightbytes(ag.size) - k
  {
    if ag.classes[k] == NoClass then regs else
    var regs1 := Store(regs, Slot(ag, k, ni, nx), Load(mem, 8 * k, 8));
    Distribute(ag, mem, regs1, k + 1, ni + IsInt(ag, k), nx + 1 - IsInt(ag, k))
  }

  /** The reassembly from eightbyte `k` on, `ni` and `nx` registers having been emptied. */
  function Reassemble(ag: SysvAggr, regs: Registers, t: seq<byte>, k: nat, ni: nat, nx: nat): (r: seq<byte>)
    requires InRegisters(ag) && ag.size <= |t| && ni + nx == k <= Eightbytes(ag.size)
    ensures |r| == |t|
    decreases Eightbytes(ag.size) - k
  {
    if ag.classes[k] == NoClass then t else
    var w := regs[Slot(ag, k, ni, nx)..][..LiveBytes(ag.size, k)];
    Reassemble(ag, regs, Store(t, 8 * k, w), k + 1, ni + IsInt(ag, k), nx + 1 - IsInt(ag, k))
  }

  lemma DistributeOne(ag: SysvAggr, mem: seq<byte>, regs: Registers, k: nat, ni: nat, nx: nat)
    requires InRegisters(ag) && ni + nx == k < Eightbytes(ag.size)
    ensures Distribute(ag, mem, regs, k, ni, nx)
         == Distribute(ag, mem, Store(regs, Slot(ag, k, ni, nx), Load(mem, 8 * k, 8)), k + 1,
                       ni + IsInt(ag, k), nx + 1 - IsInt(ag, k))
  {
    hide Store, Load;
  }

  lemma DistributeDone(ag: SysvAggr, mem: seq<byte>, regs: Registers, ni: nat, nx: nat)
    requires InRegisters(ag) && ni + nx == Eightbytes(ag.size)
    ensures Distribute(ag, mem, regs, ni + nx, ni, nx) == regs
  {
  }

  lemma ReassembleOne(ag: SysvAggr, regs: Registers, t: seq<byte>, k: nat, ni: nat, nx: nat)
    requires InRegisters(ag) && ni + nx == k < Eightbytes(ag.size) && ag.size <= |t|
    ensures var w := regs[Slot(ag, k, ni, nx)..][..LiveBytes(ag.size, k)];
            Reassemble(ag, regs, t, k, ni, nx)
               == Reassemble(ag, regs, Store(t, 8 * k, w), k + 1, ni + IsInt(ag, k), nx + 1 - IsInt(ag, k))
  {
    hide Store;
  }

  lemma ReassembleDone(ag: SysvAggr, regs: Registers, t: seq<byte>, ni: nat, nx: nat)
    requires InRegisters(ag) && ni + nx == Eightbytes(ag.size) && ag.size <= |t|
    ensures Reassemble(ag, regs, t, ni + nx, ni, nx) == t
  {
  }

  lemma SlotArrives(ag: SysvAggr, mem: seq<byte>, regs: Registers, k: nat, ni: nat, nx: nat)
    requires InRegisters(ag) && ni + nx == k < Eightbytes(ag.size)
    ensures var at := Slot(ag, k, ni, nx);
            at + 8 <= 32 && Distribute(ag, mem, regs, k, ni, nx)[at..at + 8] == Load(mem, 8 * k, 8)
  {
    SlotFacts(ag, k);
    var at, w := Slot(ag, k, ni, nx), Load(mem, 8 * k, 8);
    var regs1 := Store(regs, at, w);
    DistributeOne(ag, mem, regs, k, ni, nx);
    var out := Distribute(ag, mem, regs1, k + 1, ni + IsInt(ag, k), nx + 1 - IsInt(ag, k));
    assert regs1[at..at + 8] == w;
    hide Distribute, Store, Load, WellFormed;
    assert out[at..at + 8] == regs1[at..at + 8];
  }

  /**
    Where a result is returned: the INTEGER eightbytes in rax and rdx, the SSE eightbytes in xmm0
    and xmm1, each file filled in order.
   */
  lemma ReturnPlacement(ag: SysvAggr, mem: seq<byte>, regs: Registers, j: nat)
    requires InRegisters(ag) && 8 * j < ag.size
    ensures j < 2 && |ag.classes| == 8
    ensures var out := Distribute(ag, mem, regs, 0, 0, 0);
            if ag.classes[j] == Integer
            then 0 <= 8 * Among(ag.classes, Integer, j) <= 8
                 && out[8 * Among(ag.classes, Integer, j)..8 * Among(ag.classes, Integer, j) + 8] == Load(mem, 8 * j, 8)
            else 0 <= 8 * Among(ag.classes, Sse, j) <= 8
                 && out[16 + 8 * Among(ag.classes, Sse, j)..24 + 8 * Among(ag.classes, Sse, j)] == Load(mem, 8 * j, 8)
  {
    SlotFacts(ag, j);
    EarlierEightbytes(ag, j);
    PlacedFrom(ag, mem, regs, 0, 0, 0, j);
  }

  lemma EarlierEightbytes(ag: SysvAggr, j: nat)
    requires InRegisters(ag) && j <= Eightbytes(ag.size) && Eightbytes(ag.size) <= 8
    ensures Among(ag.classes, Integer, j) + Among(ag.classes, Sse, j) == j
  {
    if j > 0 {
      EarlierEightbytes(ag, j - 1);
    }
  }

  lemma {:induction false} PlacedFrom(ag: SysvAggr, mem: seq<byte>, regs: Registers, k: nat, ni: nat, nx: nat, j: nat)
    requires InRegisters(ag) && k <= j < Eightbytes(ag.size) <= 2 && k == ni + nx
    requires ni == Among(ag.classes, Integer, k) && nx == Among(ag.classes, Sse, k)
    ensures var at := if ag.classes[j] == Integer then 8 * Among(ag.classes, Integer, j)
                      else 16 + 8 * Among(ag.classes, Sse, j);
            at + 8 <= 32 && Distribute(ag, mem, regs, k, ni, nx)[at..at + 8] == Load(mem, 8 * j, 8)
    decreases j - k
  {
    hide Distribute, Load, Store, WellFormed;
    SlotFacts(ag, k);
    if k == j {
      SlotArrives(ag, mem, regs, k, ni, nx);
    } else {
      DistributeOne(ag, mem, regs, k, ni, nx);
      PlacedFrom(ag, mem, Store(regs, Slot(ag, k, ni, nx), Load(mem, 8 * k, 8)), k + 1,
                 ni + IsInt(ag, k), nx + 1 - IsInt(ag, k), j);
    }
  }

  lemma {:induction false} DistributeThenReassemble(ag: SysvAggr, mem: seq<byte>, regs: Registers, t: seq<byte>,
                                                    k: nat, ni: nat, nx: nat)
    requires InRegisters(ag) && ni + nx == k <= Eightbytes(ag.size)
    requires ag.size <= |mem| && ag.size <= |t|
    ensures Reassemble(ag, Distribute(ag, mem, regs, k, ni, nx), t, k, ni, nx)
         == Overlay(t, mem, 8 * k, ag.size)
    decreases Eightbytes(ag.size) - k
  {
    if ag.classes[k] == NoClass {
      OverlayDone(t, mem, 8 * k, ag.size);
    } else {
      NextSlot(ag, mem, regs, t, k, ni, nx);
    }
  }

  lemma {:induction false} NextSlot(ag: SysvAggr, mem: seq<byte>, regs: Registers, t: seq<byte>, k: nat, ni: nat,
                                    nx: nat)
    requires InRegisters(ag) && ni + nx == k < Eightbytes(ag.size)
    requires ag.size <= |mem| && ag.size <= |t|
    ensures Reassemble(ag, Distribute(ag, mem, regs, k, ni, nx), t, k, ni, nx)
         == Overlay(t, mem, 8 * k, ag.size)
    decreases Eightbytes(ag.size) - k, 0
  {
    hide Overlay, Load, Store, WellFormed, Distribute, Reassemble;
    SlotFacts(ag, k);
    var at, live := Slot(ag, k, ni, nx), LiveBytes(ag.size, k);
    var w, out := Load(mem, 8 * k, 8), Distribute(ag, mem, regs, k, ni, nx);
    SlotArrives(ag, mem, regs, k, ni, nx);
    assert out[at..at + 8] == out[at..][..8];
    assert out[at..][..live] == out[at..][..8][..live];
    DistributeOne(ag, mem, regs, k, ni, nx);
    ReassembleOne(ag, out, t, k, ni, nx);
    OverlayStep(t, mem, k, ag.size);
    DistributeThenReassemble(ag, mem, Store(regs, at, w), Store(t, 8 * k, w[..live]), k + 1,
                             ni + IsInt(ag, k), nx + 1 - IsInt(ag, k));
  }

  /**
    Return round trip: exactly the bytes of the aggregate come back and nothing beyond them is
    written, whatever the registers and the bytes after the aggregate held.
   */
  lemma ReturnRoundTrip(ag: SysvAggr, mem: seq<byte>, stale: Registers, dest: seq<byte>)
    requires InRegisters(ag) && ag.size <= |mem| && ag.size <= |dest|
    ensures Reassemble(ag, Distribute(ag, mem, stale, 0, 0, 0), dest, 0, 0, 0) == mem[..ag.size] + dest[ag.size..]
  {
    hide Overlay, Distribute, Reassemble, WellFormed;
    DistributeThenReassemble(ag, mem, stale, dest, 0, 0, 0);
    OverlayAll(dest, mem, ag.size);
  }

  /** The register branch of dcbReturnAggr */
  method ReturnAggr(ag: SysvAggr, ret: seq<byte>, result: array<byte>)
    requires InRegisters(ag) && ag.size <= |ret| && result.Length == 32
    modifies result
    ensures result[..] == Distribute(ag, ret, old(result[..]), 0, 0, 0)
  {
    var ni, nx, k := 0, 0, 0;
    hide Distribute, Store, WellFormed;
    SlotFacts(ag, 0);
    while k < 2 && ag.classes[k] != NoClass
      invariant ni + nx == k <= Eightbytes(ag.size)
      invariant Distribute(ag, ret, result[..], k, ni, nx) == Distribute(ag, ret, old(result[..]), 0, 0, 0)
      decreases 2 - k
    {
      SlotFacts(ag, k);
      DistributeOne(ag, ret, result[..], k, ni, nx);
      var w := Load(ret, 8 * k, 8);
      if ag.classes[k] == Integer {
        CopyBytes(result, 8 * ni, w);
        ni := ni + 1;
      } else {
        CopyBytes(result, 16 + 8 * nx, w);
        nx := nx + 1;
      }
      k := k + 1;
    }
    SlotFacts(ag, k);
    DistributeDone(ag, ret, result[..], ni, nx);
  }

  /**
    The reassembly in dc_callvm_call_x64_aggr. On a short last eightbyte the unsigned st_size
    steps below zero; the copy that would allow never happens.
   */
  method CallAggr(ag: SysvAggr, regs: Registers, ret: array<byte>)
    requires InRegisters(ag) && ag.size <= ret.Length
    modifies ret
    ensures ret[..] == Reassemble(ag, regs, old(ret[..]), 0, 0, 0)
  {
    hide *;
    var stSize, dst, si, sf, k := ag.size, 0, 0, 16, 0;
    ghost var ni: nat, nx: nat := 0, 0;
    SlotFacts(ag, 0);
    FirstPointers(ag);
    while k < 8 && ag.classes[k] != NoClass
      invariant ni + nx == k <= Eightbytes(ag.size)
      invariant k < Eightbytes(ag.size) ==> Pointers(ag, k, ni, nx, stSize, dst, si, sf)
      invariant Reassemble(ag, regs, ret[..], k, ni, nx) == Reassemble(ag, regs, old(ret[..]), 0, 0, 0)
      decreases 8 - k
    {
      SlotFacts(ag, k);
      ReassembleOne(ag, regs, ret[..], k, ni, nx);
      stSize, dst, si, sf := CopyEightbyte(ag, regs, ret, k, stSize, dst, si, sf, ni, nx);
      ni, nx := ni + IsInt(ag, k), nx + 1 - IsInt(ag, k);
      k := k + 1;
    }
    SlotFacts(ag, k);
    ReassembleDone(ag, regs, ret[..], ni, nx);
  }

  /** The local variables of the reassembly before eightbyte `k`. */
  predicate Pointers(ag: SysvAggr, k: nat, ni: nat, nx: nat, stSize: nat, dst: nat, si: nat, sf: nat) {
    8 * k < ag.size && stSize == ag.size - 8 * k && dst == 8 * k && si == 8 * ni && sf == 16 + 8 * nx
  }

  lemma FirstPointers(ag: SysvAggr)
    ensures ag.size > 0 ==> Pointers(ag, 0, 0, 0, ag.size, 0, 0, 16)
  {
  }

  /** One turn of its loop. */
  method CopyEightbyte(ag: SysvAggr, regs: Registers, ret: array<byte>, k: nat, stSize: nat, dst: nat, si: nat, sf: nat,
                       ghost ni: nat, ghost nx: nat) returns (stSize1: nat, dst1: nat, si1: nat, sf1: nat)
    requires InRegisters(ag) && ag.size <= ret.Length && ni + nx == k < Eightbytes(ag.size)
    requires Pointers(ag, k, ni, nx, stSize, dst, si, sf)
    modifies ret
    ensures ret[..] == Store(old(ret[..]), 8 * k, regs[Slot(ag, k, ni, nx)..][..LiveBytes(ag.size, k)])
    ensures k + 1 < Eightbytes(ag.size) ==>
              Pointers(ag, k + 1, ni + IsInt(ag, k), nx + 1 - IsInt(ag, k), stSize1, dst1, si1, sf1)
  {
    SlotFacts(ag, k);
    hide WellFormed, Store;
    var copied;
    dst1, si1, sf1 := dst, si, sf;
    if ag.classes[k] == Integer {
      stSize1, copied := CopySlot(stSize, regs, si, ret, dst);
      si1 := si + copied;
    } else {
      stSize1, copied := CopySlot(stSize, regs, sf, ret, dst);
      sf1 := sf + copied;
    }
    dst1 := dst + copied;
  }

  /**
    Copying one register: at most eight bytes, and no more than are left. The test of st_size counts
    it down even when it fails.
   */
  method CopySlot(size: nat, regs: Registers, src: nat, ret: array<byte>, dst: nat) returns (stSize: nat, copied: nat)
    requires 0 < size < 0x1_0000_0000_0000_0000
    requires src + 8 <= 32 && dst + (if size < 8 then size else 8) <= ret.Length
    modifies ret
    ensures copied == if size < 8 then size else 8
    ensures stSize == if size < 8 then 0xFFFF_FFFF_FFFF_FFFF else size - 8
    ensures ret[..] == Store(old(ret[..]), dst, regs[src..][..copied])
  {
    ghost var b := regs[src..src + 8];
    var ll := 8;
    stSize, copied := size, 0;
    while ll > 0
      invariant copied == 8 - ll && stSize == size - copied && copied <= size
      invariant forall m :: 0 <= m < copied ==> ret[dst + m] == b[m]
      invariant forall m :: 0 <= m < ret.Length && !(dst <= m < dst + copied) ==> ret[m] == old(ret[m])
    {
      ll := ll - 1;
      var more := stSize != 0;
      stSize := U64(stSize - 1);
      if !more {
        break;
      }
      ret[dst + copied] := regs[src + copied];
      copied := copied + 1;
    }
    assert regs[src..][..copied] == b[..copied];
  }

  /** The aggregate a handler returns in registers is, byte for byte, what the caller finds in its buffer. */
  method ReturnThroughRegisters(ag: SysvAggr, ret: seq<byte>, dest: array<byte>)
    requires InRegisters(ag) && ag.size <= |ret| && ag.size <= dest.Length
    modifies dest
    ensures dest[..] == ret[..ag.size] + old(dest[ag.size..])
  {
    hide *;
    var result := new byte[32];
    ghost var stale, was := result[..], dest[..];
    assert was[ag.size..] == dest[ag.size..];
    ReturnAggr(ag, ret, result);
    ReturnRoundTrip(ag, ret, stale, was);
    CallAggr(ag, result[..], dest);
  }

  // --- which way an aggregate is returned --------------------------------------------------

  /** What dcbInitCallback2 stores in aggr_return_register for an aggregate result. */
  function CallbackMode(sig: string, aggrs: seq<Option<SysvAggr>>): int
    requires WellPrefixed(sig) && |aggrs| >= CountAggrs(AfterPrefix(sig))
    requires forall a :: a in aggrs ==> a.Some? ==> |a.value.classes| == 8
  {
    if !ReturnsAggr(sig) then -2 else
    match aggrs[CountAggrs(AfterPrefix(sig)) - 1]
    case None => 0
    case Some(ag) => if ag.classes[0] == Class.Memory then 0 else -1
  }

  /** dcbInitCallback2: -2 no aggregate returned, -1 in registers, 0 through a hidden pointer. */
  method InitCallback(sig: string, aggrs: seq<Option<SysvAggr>>) returns (reg: int)
    requires WellPrefixed(sig) && |aggrs| >= CountAggrs(AfterPrefix(sig))
    requires forall a :: a in aggrs ==> a.Some? ==> |a.value.classes| == 8
    ensures reg == CallbackMode(sig, aggrs)
  {
    reg := -2;
    var numAggrs, aggrResult := ScanSignature(sig);
    if aggrResult {
      var ag := aggrs[numAggrs - 1];
      if ag.None? || ag.value.classes[0] == Class.Memory {
        reg := 0;
      } else {
        reg := -1;
      }
    }
  }

  /** `asks` is the way a handler reads the arguments written `args`. */
  predicate ReadsAs(args: string, asks: seq<Ask>) {
    |args| == |asks| && forall k :: 0 <= k < |args| ==> (args[k] == 'A' <==> asks[k].AskAggr? || asks[k].AskNonTrivial?)
  }

  /** How far dcbArgAggr moves `aggrs` while the arguments are read. */
  function AggrsRead(asks: seq<Ask>): nat {
    if asks == [] then 0
    else AggrsRead(asks[..|asks| - 1]) + if asks[|asks| - 1].AskAggr? || asks[|asks| - 1].AskNonTrivial? then 1 else 0
  }

  lemma {:induction false} AggrsReadIsCount(args: string, asks: seq<Ask>)
    requires ReadsAs(args, asks)
    ensures AggrsRead(asks) == CountAggrs(args)
  {
    if args != "" {
      AggrsReadIsCount(args[..|args| - 1], asks[..|asks| - 1]);
    }
  }

  /**
    A handler that has read all its arguments returns through the very descriptor
    dcbInitCallback2 looked at, and a caller given that descriptor chose the same way of
    returning it.
   */
  lemma SameDescriptorSameMode(prefix: string, sig: string, args: string, asks: seq<Ask>, aggrs: seq<Option<SysvAggr>>)
    requires IsAggrCall(sig, prefix, args)
    requires ReadsAs(args, asks) && |aggrs| == CountAggrs(args) + 1
    requires forall a :: a in aggrs ==> a.Some? ==> |a.value.classes| == 8
    ensures WellPrefixed(sig) && CountAggrs(AfterPrefix(sig)) == |aggrs| && AggrsRead(asks) == |aggrs| - 1
    ensures CallbackMode(sig, aggrs) == CallerMode(aggrs[AggrsRead(asks)])
    ensures var result := aggrs[|aggrs| - 1];
            CallbackMode(sig, aggrs) == if result.Some? && result.value.classes[0] != Class.Memory then -1 else 0
  {
    AggrsReadIsCount(args, asks);
    ResultIsLast(sig, prefix, args);
  }
}
