/**
 The R-of-(2R-1) multi-signature output of bitcoin/java/src/BitcoinUtilsHandler.java, for R >= 2: the
 R shared keys followed by R-1 copies of one buyer key.  CHECKMULTISIG is the in-order check of
 BIP 11; `valid` says which signature verifies under which key.
 */
module Multisig {
  import opened Sorting

  // ---------------------------------------------------------------- the check

  /** The signatures and keys are scanned from the front; a key is used at most once. */
  predicate CheckMultisig<S, K>(valid: (S, K) -> bool, sigs: seq<S>, keys: seq<K>)
    decreases |keys|
  {
    if |sigs| > |keys| then false
    else if sigs == [] then true
    else if valid(sigs[0], keys[0]) then CheckMultisig(valid, sigs[1..], keys[1..])
    else CheckMultisig(valid, sigs, keys[1..])
  }

  /** f assigns to each signature a later key than to the one before, and the signature verifies under it. */
  predicate Matches<S, K>(valid: (S, K) -> bool, sigs: seq<S>, keys: seq<K>, f: seq<int>) {
    && |f| == |sigs| && StrictlyAscending(f)
    && forall k :: 0 <= k < |f| ==> 0 <= f[k] < |keys| && valid(sigs[k], keys[f[k]])
  }

  function Shift(f: seq<int>, d: int): (g: seq<int>)
    ensures |g| == |f| && forall k :: 0 <= k < |f| ==> g[k] == f[k] + d
  {
    seq(|f|, k requires 0 <= k < |f| => f[k] + d)
  }

  lemma {:induction false} CheckFindsMatch<S, K>(valid: (S, K) -> bool, sigs: seq<S>, keys: seq<K>) returns (f: seq<int>)
    requires CheckMultisig(valid, sigs, keys)
    ensures Matches(valid, sigs, keys, f)
    decreases |keys|
  {
    if sigs == [] {
      f := [];
    } else if valid(sigs[0], keys[0]) {
      var g := CheckFindsMatch(valid, sigs[1..], keys[1..]);
      f := [0] + Shift(g, 1);
    } else {
      var g := CheckFindsMatch(valid, sigs, keys[1..]);
      f := Shift(g, 1);
    }
  }

  lemma {:induction false} AscendingIsLong(f: seq<int>, low: int, high: int)
    requires StrictlyAscending(f) && forall k :: 0 <= k < |f| ==> low <= f[k] < high
    ensures f != [] ==> |f| <= high - low
  {
    if f != [] {
      var first, rest := f[0], f[1..];
      assert low <= first < high;
      forall k | 0 <= k < |rest| ensures low + 1 <= rest[k] < high {
        assert f[0] < f[k + 1];
      }
      AscendingIsLong(rest, low + 1, high);
    }
  }

  // The greedy scan accepts whenever some in-order assignment exists.
  lemma {:induction false} MatchIsFound<S, K>(valid: (S, K) -> bool, sigs: seq<S>, keys: seq<K>, f: seq<int>)
    requires Matches(valid, sigs, keys, f)
    ensures CheckMultisig(valid, sigs, keys)
    decreases |keys|
  {
    AscendingIsLong(f, 0, |keys|);
    if sigs != [] {
      if valid(sigs[0], keys[0]) {
        MatchIsFound(valid, sigs[1..], keys[1..], Shift(f[1..], -1));
      } else {
        assert f[0] != 0;
        MatchIsFound(valid, sigs, keys[1..], Shift(f, -1));
      }
    }
  }

  /** CHECKMULTISIG is exactly the existence of an in-order assignment. */
  lemma CheckIsInOrderMatch<S, K>(valid: (S, K) -> bool, sigs: seq<S>, keys: seq<K>)
    ensures CheckMultisig(valid, sigs, keys) <==> exists f :: Matches(valid, sigs, keys, f)
  {
    if CheckMultisig(valid, sigs, keys) {
      var f := CheckFindsMatch(valid, sigs, keys);
    }
    if f :| Matches(valid, sigs, keys, f) {
      MatchIsFound(valid, sigs, keys, f);
    }
  }

  // ---------------------------------------------------------------- the redeem script

  datatype Chunk<K> = Number(n: nat) | PubKey(key: K) | OpCheckMultisig

  function RedeemKeys<K>(shared: seq<K>, buyerKey: K): (keys: seq<K>)
    requires |shared| >= 1
    ensures |keys| == 2 * |shared| - 1
  {
    shared + seq(|shared| - 1, _ => buyerKey)
  }

  /** The loop of createSend. */
  method CreateKeys<K>(shared: seq<K>, buyerKey: K) returns (keys: seq<K>)
    requires |shared| >= 2
    ensures keys == RedeemKeys(shared, buyerKey)
  {
    var R := |shared|;
    keys := [];
    var i := 0;
    while i < 2 * R - 1
      invariant 0 <= i <= 2 * R - 1 && keys == RedeemKeys(shared, buyerKey)[..i]
    {
      if i < R {
        keys := keys + [shared[i]];
      } else {
        keys := keys + [buyerKey];
      }
      i := i + 1;
    }
  }

  function RedeemScript<K>(shared: seq<K>, buyerKey: K): seq<Chunk<K>>
    requires |shared| >= 1
  {
    var keys := RedeemKeys(shared, buyerKey);
    [Number(|shared|)] + seq(|keys|, i requires 0 <= i < |keys| => PubKey(keys[i])) + [Number(|keys|), OpCheckMultisig]
  }

  /** All chunks: the threshold R, the R shared keys, R-1 times the buyer's key, their number, the opcode. */
  lemma ScriptChunks<K>(shared: seq<K>, buyerKey: K)
    requires |shared| >= 1
    ensures var script, R := RedeemScript(shared, buyerKey), |shared|;
      && |script| == 2 * R + 2 && script[0] == Number(R)
      && (forall i :: 1 <= i <= R ==> script[i] == PubKey(shared[i - 1]))
      && (forall i :: R < i < 2 * R ==> script[i] == PubKey(buyerKey))
      && script[2 * R] == Number(2 * R - 1) && script[2 * R + 1] == OpCheckMultisig
  {
  }

  /** redeemTransaction finds the buyer's key in chunk 2R-1. */
  lemma BuyerKeyChunk<K>(shared: seq<K>, buyerKey: K)
    requires |shared| >= 2
    ensures var script := RedeemScript(shared, buyerKey);
      && |script| == 2 * |shared| + 2 && script[2 * |shared| - 1] == PubKey(buyerKey)
  {
  }

  /** The signatures of redeemTransaction: one under the recovered key and R-1 under the buyer's. */
  method RedeemSignatures<S>(recovered: S, buyers: S, R: nat) returns (sigs: seq<S>)
    requires R >= 1
    ensures |sigs| == R && sigs[0] == recovered && forall k :: 1 <= k < R ==> sigs[k] == buyers
  {
    sigs := [recovered];
    for i := 0 to R - 1
      invariant |sigs| == i + 1 && sigs[0] == recovered && forall k :: 1 <= k <= i ==> sigs[k] == buyers
    {
      sigs := sigs + [buyers];
    }
  }

  /** R signatures, one under each shared key in order, redeem. */
  lemma SharedSignaturesRedeem<S, K>(valid: (S, K) -> bool, sigs: seq<S>, shared: seq<K>, buyerKey: K)
    requires |sigs| == |shared| >= 2 && forall k :: 0 <= k < |sigs| ==> valid(sigs[k], shared[k])
    ensures CheckMultisig(valid, sigs, RedeemKeys(shared, buyerKey))
  {
    var f := seq(|sigs|, k => k);
    MatchIsFound(valid, sigs, RedeemKeys(shared, buyerKey), f);
  }

  /** One signature under any single shared key, followed by R-1 of the buyer's, redeems. */
  lemma OneSharedKeyRedeems<S, K>(valid: (S, K) -> bool, sigs: seq<S>, shared: seq<K>, buyerKey: K, j: nat)
    requires |sigs| == |shared| >= 2 && j < |shared| && valid(sigs[0], shared[j])
    requires forall k :: 1 <= k < |sigs| ==> valid(sigs[k], buyerKey)
    ensures CheckMultisig(valid, sigs, RedeemKeys(shared, buyerKey))
  {
    var R := |shared|;
    var f := [j] + seq(R - 1, k => R + k);
    forall k | 0 <= k < |f| ensures 0 <= f[k] < 2 * R - 1 && valid(sigs[k], RedeemKeys(shared, buyerKey)[f[k]]) {
      if k > 0 { assert f[k] == R + (k - 1); }
    }
    MatchIsFound(valid, sigs, RedeemKeys(shared, buyerKey), f);
  }

  /** The buyer cannot redeem alone: any accepted R signatures use some shared key, namely for the first. */
  lemma BuyerAloneCannotRedeem<S, K>(valid: (S, K) -> bool, sigs: seq<S>, shared: seq<K>, buyerKey: K)
    requires |sigs| == |shared| >= 2 && CheckMultisig(valid, sigs, RedeemKeys(shared, buyerKey))
    ensures exists j :: 0 <= j < |shared| && valid(sigs[0], shared[j])
  {
    var R := |shared|;
    var f := CheckFindsMatch(valid, sigs, RedeemKeys(shared, buyerKey));
    if f[0] >= R {
      forall k | 0 <= k < |f| ensures R <= f[k] < 2 * R - 1 {
        if k > 0 { assert f[0] < f[k]; }
      }
      AscendingIsLong(f, R, 2 * R - 1);
    }
    assert valid(sigs[0], shared[f[0]]);
  }
}
