/**
 The output that holds the payment, and who can spend it: for R >= 2 the R-of-(2R-1) script over the
 shared public keys of the kept instances and one key of the buyer, for R = 1 the address of the only
 shared key.  Seller::verifyT2Signature is the first use of it.
 */
module Output {
  import opened Outcome
  import opened Bytes
  import opened SharedSignature
  import opened SignatureKey
  import opened SellInformation
  import opened Multisig

  /** Which signature lists the output accepts. */
  predicate Accepts<S, K>(valid: (S, K) -> bool, sigs: seq<S>, shared: seq<K>, buyerKey: K)
    requires |shared| >= 1
  {
    && |sigs| == |shared|
    && if |shared| == 1 then valid(sigs[0], shared[0]) else CheckMultisig(valid, sigs, RedeemKeys(shared, buyerKey))
  }

  /** The signatures verify in order under ascending positions of the R shared keys and, after them, R-1
      times the buyer's. */
  ghost predicate InOrder<S, K>(valid: (S, K) -> bool, sigs: seq<S>, shared: seq<K>, buyerKey: K, f: seq<int>) {
    var R := |shared|;
    && |f| == |sigs| == R && (forall k, l :: 0 <= k < l < R ==> f[k] < f[l])
    && forall k :: 0 <= k < R ==> 0 <= f[k] < 2 * R - 1 && valid(sigs[k], if f[k] < R then shared[f[k]] else buyerKey)
  }

  /** The output accepts a list of R signatures exactly when such positions exist, whatever R is. */
  lemma AcceptsExactly<S, K>(valid: (S, K) -> bool, sigs: seq<S>, shared: seq<K>, buyerKey: K)
    requires |shared| >= 1
    ensures Accepts(valid, sigs, shared, buyerKey) <==> exists f :: InOrder(valid, sigs, shared, buyerKey, f)
  {
    var keys := RedeemKeys(shared, buyerKey);
    if Accepts(valid, sigs, shared, buyerKey) {
      if |shared| == 1 {
        assert InOrder(valid, sigs, shared, buyerKey, [0]);
      } else {
        var f := CheckFindsMatch(valid, sigs, keys);
        assert InOrder(valid, sigs, shared, buyerKey, f);
      }
    }
    if f :| InOrder(valid, sigs, shared, buyerKey, f) {
      if |shared| > 1 {
        assert Matches(valid, sigs, keys, f);
        MatchIsFound(valid, sigs, keys, f);
      }
    }
  }

  /** Nobody spends the output without a signature under one of the shared keys. */
  lemma SharedKeyNeeded<S, K>(valid: (S, K) -> bool, sigs: seq<S>, shared: seq<K>, buyerKey: K)
    requires |shared| >= 1 && Accepts(valid, sigs, shared, buyerKey)
    ensures |sigs| == |shared| && exists j :: 0 <= j < |shared| && valid(sigs[0], shared[j])
  {
    if |shared| > 1 {
      BuyerAloneCannotRedeem(valid, sigs, shared, buyerKey);
    }
  }

  /** Signature checking as the protocol does it, for the hash of the second transaction. */
  function VerifiesUnder<P(==)>(e: Env<P>): ((int, int), P) -> bool
    requires IsEnv(e)
  {
    (sig: (int, int), key: P) => Verify(e.curve, key, e.m, sig.0, sig.1) == Ok(true)
  }

  function SellersSignatures<P>(sellers: seq<SingleSeller<P>>): (sigs: seq<(int, int)>)
    ensures |sigs| == |sellers| && forall j :: 0 <= j < |sigs| ==> sigs[j] == (sellers[j].r, sellers[j].s)
  {
    seq(|sellers|, j requires 0 <= j < |sellers| => (sellers[j].r, sellers[j].s))
  }

  ghost predicate AllSignedAndLocked<P>(e: Env<P>, sellers: seq<SingleSeller<P>>, buyers: seq<SingleBuyer<P>>)
    requires IsEnv(e)
  {
    |sellers| == |buyers| && forall j {:trigger At(j)} :: 0 <= j < |sellers| && At(j) ==> SignedAndLocked(e, sellers[j], buyers[j])
  }

  ghost predicate SharedKeys<P>(buyers: seq<SingleBuyer<P>>, keys: seq<P>) {
    |keys| == |buyers| && forall j :: 0 <= j < |keys| ==> keys[j] == buyers[j].Q
  }

  // One signature under each shared key, in order.
  lemma SharedAccepted<S, K>(valid: (S, K) -> bool, sigs: seq<S>, shared: seq<K>, buyerKey: K)
    requires |sigs| == |shared| >= 1 && forall k :: 0 <= k < |sigs| ==> valid(sigs[k], shared[k])
    ensures Accepts(valid, sigs, shared, buyerKey)
  {
    if |shared| > 1 {
      SharedSignaturesRedeem(valid, sigs, shared, buyerKey);
    }
  }

  // One signature under any shared key, followed by the buyer's.
  lemma OneSharedAccepted<S, K>(valid: (S, K) -> bool, sigs: seq<S>, shared: seq<K>, buyerKey: K, j: nat)
    requires |sigs| == |shared| >= 1 && j < |shared| && valid(sigs[0], shared[j])
    requires forall k :: 1 <= k < |sigs| ==> valid(sigs[k], buyerKey)
    ensures Accepts(valid, sigs, shared, buyerKey)
  {
    if |shared| > 1 {
      OneSharedKeyRedeems(valid, sigs, shared, buyerKey, j);
    }
  }

  lemma SignatureVerifies<P>(e: Env<P>, a: SingleSeller<P>, b: SingleBuyer<P>)
    requires IsEnv(e) && SignedAndLocked(e, a, b)
    ensures VerifiesUnder(e)((a.r, a.s), b.Q)
  {
  }

  /** The seller can spend: the signatures of the kept instances, in order, satisfy the output. */
  lemma SellerSpends<P>(e: Env<P>, sellers: seq<SingleSeller<P>>, buyers: seq<SingleBuyer<P>>, keys: seq<P>, buyerKey: P)
    requires IsEnv(e) && AllSignedAndLocked(e, sellers, buyers) && SharedKeys(buyers, keys) && |sellers| >= 1
    ensures Accepts(VerifiesUnder(e), SellersSignatures(sellers), keys, buyerKey)
  {
    var sigs := SellersSignatures(sellers);
    forall j | 0 <= j < |sigs| ensures VerifiesUnder(e)(sigs[j], keys[j]) {
      assert At(j);
      SignatureVerifies(e, sellers[j], buyers[j]);
    }
    SharedAccepted(VerifiesUnder(e), sigs, keys, buyerKey);
  }

  /** The signatures as they arrive in the wallet: every component travels as bytes. */
  method SentSignatures<P>(sellers: seq<SingleSeller<P>>) returns (sigs: seq<(int, int)>)
    requires forall j :: 0 <= j < |sellers| ==> sellers[j].r >= 0 && sellers[j].s >= 0
    ensures sigs == SellersSignatures(sellers)
  {
    sigs := [];
    for j := 0 to |sellers|
      invariant |sigs| == j && forall k :: 0 <= k < j ==> sigs[k] == (sellers[k].r, sellers[k].s)
    {
      ToBytesRoundTrip(sellers[j].r);
      ToBytesRoundTrip(sellers[j].s);
      sigs := sigs + [(Decode(ToBytes(sellers[j].r)), Decode(ToBytes(sellers[j].s)))];
    }
  }

  lemma FirstSignatureVerifies<P>(e: Env<P>, sellers: seq<SingleSeller<P>>, keys: seq<P>, buyerKey: P)
    requires IsEnv(e) && |keys| == |sellers| >= 1 && Accepts(VerifiesUnder(e), SellersSignatures(sellers), keys, buyerKey)
    ensures exists j :: 0 <= j < |keys| && Verify(e.curve, keys[j], e.m, sellers[0].r, sellers[0].s) == Ok(true)
  {
    SharedKeyNeeded(VerifiesUnder(e), SellersSignatures(sellers), keys, buyerKey);
    var j :| 0 <= j < |keys| && VerifiesUnder(e)(SellersSignatures(sellers)[0], keys[j]);
    assert Verify(e.curve, keys[j], e.m, sellers[0].r, sellers[0].s) == Ok(true);
  }

  /** Seller::verifyT2Signature; `keys` and `buyerKey` are those of the output being spent. */
  method VerifyT2Signature<P(==)>(e: Env<P>, sellers: seq<SingleSeller<P>>, keys: seq<P>, buyerKey: P) returns (res: Result<()>)
    requires IsEnv(e) && |keys| == |sellers| >= 1
    requires forall j :: 0 <= j < |sellers| ==> sellers[j].r >= 0 && sellers[j].s >= 0
    ensures res.Ok? <==> Accepts(VerifiesUnder(e), SellersSignatures(sellers), keys, buyerKey)
    ensures res.Ok? ==> exists j :: 0 <= j < |keys| && Verify(e.curve, keys[j], e.m, sellers[0].r, sellers[0].s) == Ok(true)
  {
    var sigs := SentSignatures(sellers);
    var good := Accepts(VerifiesUnder(e), sigs, keys, buyerKey);
    if good {
      FirstSignatureVerifies(e, sellers, keys, buyerKey);
    }
    return if good then Ok(()) else Err("verify T2 signature in bitcoinj failed");
  }
}
