/**
  The signature scan of dcbInitCallback2 (dyncall_callback_x64.c): how many aggregates the
  signature names and whether the result is one, which both AMD64 conventions share.
 */
module Callback {
  function CountAggrs(s: string): nat {
    if s == "" then 0 else CountAggrs(s[..|s| - 1]) + if s[|s| - 1] == 'A' then 1 else 0
  }

  /** A '_' is followed by the character of the calling convention. */
  predicate WellPrefixed(sig: string) {
    sig != "" && sig[0] == '_' ==> |sig| >= 2
  }

  /** The signature behind an optional calling convention prefix. */
  function AfterPrefix(sig: string): string
    requires WellPrefixed(sig)
  {
    if sig != "" && sig[0] == '_' then sig[2..] else sig
  }

  predicate ReturnsAggr(sig: string)
    requires WellPrefixed(sig)
  {
    var rest := AfterPrefix(sig);
    rest != "" && rest[|rest| - 1] == 'A'
  }

  /** The platform's own calling convention for C++ member functions. */
  predicate IsThiscall(sig: string) {
    |sig| >= 2 && sig[0] == '_' && sig[1] == '*'
  }

  /** The scan and the test of the last character. */
  method ScanSignature(sig: string) returns (numAggrs: nat, aggrResult: bool)
    requires WellPrefixed(sig)
    ensures numAggrs == CountAggrs(AfterPrefix(sig))
    ensures aggrResult == ReturnsAggr(sig)
  {
    var ch := 0;
    if sig != "" && sig[0] == '_' {
      ch := 2;
    }
    ghost var start := ch;
    numAggrs := 0;
    while ch < |sig|
      invariant start <= ch <= |sig|
      invariant numAggrs == CountAggrs(sig[start..ch])
    {
      assert sig[start..ch + 1][..ch - start] == sig[start..ch];
      if sig[ch] == 'A' {
        numAggrs := numAggrs + 1;
      }
      ch := ch + 1;
    }
    assert sig[start..] == AfterPrefix(sig) == sig[start..ch];
    aggrResult := numAggrs > 0 && ch != 0 && sig[ch - 1] == 'A';
  }

  /** `sig` is an optional prefix, the arguments and an aggregate result. */
  predicate IsAggrCall(sig: string, prefix: string, args: string) {
    && sig == prefix + args + ")A"
    && if prefix == "" then args != "" ==> args[0] != '_' else |prefix| == 2 && prefix[0] == '_'
  }

  /** The description of the result is the one behind those of the arguments. */
  lemma ResultIsLast(sig: string, prefix: string, args: string)
    requires IsAggrCall(sig, prefix, args)
    ensures WellPrefixed(sig) && AfterPrefix(sig) == args + ")A" && ReturnsAggr(sig)
    ensures CountAggrs(AfterPrefix(sig)) == CountAggrs(args) + 1
    ensures IsThiscall(sig) <==> prefix == "_*"
  {
    hide CountAggrs;
    if prefix == "" {
      assert args + ")A" == sig;
      assert sig[0] != '_';
    } else {
      assert sig[2..] == args + ")A";
    }
    CountOfCall(args);
  }

  lemma CountOfCall(args: string)
    ensures CountAggrs(args + ")A") == CountAggrs(args) + 1
  {
    assert (args + ")A")[..|args| + 1] == args + ")";
    assert (args + ")")[..|args|] == args;
  }
}
