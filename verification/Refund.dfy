/**
 The refund: what Buyer::solve_time_lock sends to the network, built from the keys it recovers by
 force.  The wallet is a record of functions; every attempt pays to a fresh address, so it has its
 own hash to sign, and the attempt number stands for that hash.
 */
module Refund {
  import opened NumberTheory
  import opened Outcome
  import opened Bytes
  import opened SignatureKey
  import opened SellInformation
  import opened Exchange
  import opened Multisig
  import opened Output
  import TimedCommitment

  /** `valid(j, ...)`, `sign(j, d)` and `buyerSig(j)` are about the hash of attempt j; `network(j, sigs)`
      says whether the network confirms attempt j with the signature list sigs. */
  datatype Wallet<!P, !S> = Wallet(valid: (nat, S, P) -> bool, sign: (nat, int) -> S, buyerSig: nat -> S,
                                   network: (nat, seq<S>) -> bool)

  function ValidFor<P, S>(w: Wallet<P, S>, j: nat): (S, P) -> bool {
    (sig: S, key: P) => w.valid(j, sig, key)
  }

  /** What the wallet library promises of signing: the result verifies under the signer's public key. */
  ghost predicate SignsCorrectly<P, S>(e: Env<P>, w: Wallet<P, S>, buyerKey: P) {
    && (forall j: nat, d :: 0 < d < e.curve.n ==> w.valid(j, w.sign(j, d), e.curve.mul(d, e.curve.G)))
    && forall j: nat :: w.valid(j, w.buyerSig(j), buyerKey)
  }

  /** The signatures of attempt j: one under the key forced from instance j, the rest under the buyer's own. */
  ghost function RefundSigs<P, S>(e: Env<P>, w: Wallet<P, S>, buyers: seq<SingleBuyer<P>>, j: nat): (sigs: seq<S>)
    requires IsEnv(e) && j < |buyers| && RefundKey(e, buyers[j]).Ok?
    ensures |sigs| == |buyers|
  {
    [w.sign(j, RefundKey(e, buyers[j]).value)] + seq(|buyers| - 1, _ => w.buyerSig(j))
  }

  /** Attempt j can be made, and what it sends spends the output. */
  ghost predicate RefundSpends<P, S>(e: Env<P>, w: Wallet<P, S>, buyers: seq<SingleBuyer<P>>, keys: seq<P>, buyerKey: P, j: nat)
    requires IsEnv(e) && j < |buyers| == |keys|
  {
    RefundKey(e, buyers[j]).Ok? && Accepts(ValidFor(w, j), RefundSigs(e, w, buyers, j), keys, buyerKey)
  }

  ghost predicate RefundTaken<P, S>(e: Env<P>, w: Wallet<P, S>, buyers: seq<SingleBuyer<P>>, j: nat)
    requires IsEnv(e) && j < |buyers|
  {
    RefundKey(e, buyers[j]).Ok? && w.network(j, RefundSigs(e, w, buyers, j))
  }

  lemma RefundSigsValid<P, S>(e: Env<P>, w: Wallet<P, S>, buyers: seq<SingleBuyer<P>>, buyerKey: P, j: nat)
    requires IsEnv(e) && j < |buyers| && SignsCorrectly(e, w, buyerKey) && RefundKey(e, buyers[j]).Ok?
    requires var d := RefundKey(e, buyers[j]).value; 0 < d < e.curve.n && e.curve.mul(d, e.curve.G) == buyers[j].Q
    ensures var sigs := RefundSigs(e, w, buyers, j);
      ValidFor(w, j)(sigs[0], buyers[j].Q) && forall k :: 1 <= k < |sigs| ==> ValidFor(w, j)(sigs[k], buyerKey)
  {
  }

  /** The buyer gets the money back from any single kept instance: the key recovered from its lock,
      and the buyer's own key for the rest, satisfy the output. */
  lemma AnyInstanceRefunds<P, S>(e: Env<P>, w: Wallet<P, S>, sellers: seq<SingleSeller<P>>, buyers: seq<SingleBuyer<P>>,
                                 keys: seq<P>, buyerKey: P, j: nat)
    requires IsEnv(e) && AllSignedAndLocked(e, sellers, buyers) && SharedKeys(buyers, keys) && j < |buyers|
    requires SignsCorrectly(e, w, buyerKey)
    ensures RefundSpends(e, w, buyers, keys, buyerKey, j)
  {
    assert At(j);
    RefundKeyIsPrivateKey(e, sellers[j], buyers[j]);
    RefundSigsValid(e, w, buyers, buyerKey, j);
    OneSharedAccepted(ValidFor(w, j), RefundSigs(e, w, buyers, j), keys, buyerKey, j);
  }

  /** The key of one instance, computed by 2^K squarings and the bit decoding. */
  method RecoverKey<P>(e: Env<P>, b: SingleBuyer<P>) returns (d: Result<int>)
    requires IsEnv(e)
    ensures d == RefundKey(e, b)
  {
    var receiver := new TimedCommitment.Receiver(b.lock);
    var forced := receiver.ForceOpen(e.gen);
    if forced.Err? {
      return Err(forced.error);
    }
    var decoded := FromBits(forced.value);
    if decoded.Err? {
      return Err("exception");
    }
    return Ok((Decode(decoded.value) * b.db) % e.curve.n);
  }

  /** The key as the wallet receives it: the bytes of integer2string, read back by BigInteger(1, bytes). */
  method RecoverSecret<P>(e: Env<P>, ghost a: SingleSeller<P>, b: SingleBuyer<P>) returns (sk: int)
    requires IsEnv(e) && SignedAndLocked(e, a, b)
    ensures RefundKey(e, b) == Ok(sk)
  {
    RefundKeyIsPrivateKey(e, a, b);
    var d := RecoverKey(e, b);
    sk := Decode(ToBytes(d.value));
  }

  /** redeemTransaction for instance j: sign, check the input against the output, broadcast.  What is
      sent is the refund of instance j, it spends the output, and only the network can refuse it. */
  method Redeem<P(==), S>(e: Env<P>, w: Wallet<P, S>, ghost sellers: seq<SingleSeller<P>>, buyers: seq<SingleBuyer<P>>,
                          keys: seq<P>, buyerKey: P, j: nat)
    returns (res: bool, sent: seq<S>)
    requires IsEnv(e) && AllSignedAndLocked(e, sellers, buyers) && SharedKeys(buyers, keys) && j < |buyers|
    requires SignsCorrectly(e, w, buyerKey)
    ensures RefundSpends(e, w, buyers, keys, buyerKey, j)
    ensures sent == RefundSigs(e, w, buyers, j)
    ensures res <==> w.network(j, sent)
  {
    assert At(j);
    AnyInstanceRefunds(e, w, sellers, buyers, keys, buyerKey, j);
    var sk := RecoverSecret(e, sellers[j], buyers[j]);
    sent := RedeemSignatures(w.sign(j, sk), w.buyerSig(j), |buyers|);
    assert sent == RefundSigs(e, w, buyers, j);
    if !Accepts(ValidFor(w, j), sent, keys, buyerKey) {
      return false, [];
    }
    return w.network(j, sent), sent;
  }

  /** Attempts 0 .. |sent|-1 sent the refunds of these instances, each of them good for the output, and
      the network refused all but perhaps the last. */
  ghost predicate Attempts<P, S>(e: Env<P>, w: Wallet<P, S>, buyers: seq<SingleBuyer<P>>, keys: seq<P>, buyerKey: P, sent: seq<seq<S>>)
    requires IsEnv(e) && |buyers| == |keys|
  {
    && |sent| <= |buyers|
    && forall j {:trigger At(j)} :: 0 <= j < |sent| && At(j) ==>
      && RefundSpends(e, w, buyers, keys, buyerKey, j) && sent[j] == RefundSigs(e, w, buyers, j)
      && (j < |sent| - 1 ==> !RefundTaken(e, w, buyers, j))
  }

  lemma AttemptsExtend<P, S>(e: Env<P>, w: Wallet<P, S>, buyers: seq<SingleBuyer<P>>, keys: seq<P>, buyerKey: P, sent: seq<seq<S>>, sigs: seq<S>)
    requires IsEnv(e) && |buyers| == |keys| && |sent| < |buyers| && Attempts(e, w, buyers, keys, buyerKey, sent)
    requires RefundSpends(e, w, buyers, keys, buyerKey, |sent|) && sigs == RefundSigs(e, w, buyers, |sent|)
    requires sent != [] ==> !RefundTaken(e, w, buyers, |sent| - 1)
    ensures Attempts(e, w, buyers, keys, buyerKey, sent + [sigs])
  {
  }

  lemma SomeTaken<P, S>(e: Env<P>, w: Wallet<P, S>, buyers: seq<SingleBuyer<P>>, j: nat)
    requires IsEnv(e) && j < |buyers| && RefundTaken(e, w, buyers, j)
    ensures exists k: nat :: k < |buyers| && RefundTaken(e, w, buyers, k)
  {
  }

  // All attempts up to the last failed one were refused.
  lemma NoneTaken<P, S>(e: Env<P>, w: Wallet<P, S>, buyers: seq<SingleBuyer<P>>, keys: seq<P>, buyerKey: P, sent: seq<seq<S>>)
    requires IsEnv(e) && |buyers| == |keys| == |sent| && Attempts(e, w, buyers, keys, buyerKey, sent)
    requires sent != [] ==> !RefundTaken(e, w, buyers, |sent| - 1)
    ensures forall j: nat :: j < |buyers| ==> !RefundTaken(e, w, buyers, j)
  {
    forall j: nat | j < |buyers| ensures !RefundTaken(e, w, buyers, j) {
      assert At(j);
    }
  }

  /** One round of the loop. */
  method NextAttempt<P(==), S>(e: Env<P>, w: Wallet<P, S>, ghost sellers: seq<SingleSeller<P>>, buyers: seq<SingleBuyer<P>>,
                               keys: seq<P>, buyerKey: P, sent: seq<seq<S>>)
    returns (res: bool, sent': seq<seq<S>>)
    requires IsEnv(e) && AllSignedAndLocked(e, sellers, buyers) && SharedKeys(buyers, keys)
    requires SignsCorrectly(e, w, buyerKey) && |sent| < |buyers|
    requires Attempts(e, w, buyers, keys, buyerKey, sent) && (sent != [] ==> !RefundTaken(e, w, buyers, |sent| - 1))
    ensures |sent'| == |sent| + 1 && Attempts(e, w, buyers, keys, buyerKey, sent')
    ensures res <==> RefundTaken(e, w, buyers, |sent|)
  {
    var sigs;
    res, sigs := Redeem(e, w, sellers, buyers, keys, buyerKey, |sent|);
    AttemptsExtend(e, w, buyers, keys, buyerKey, sent, sigs);
    sent' := sent + [sigs];
  }

  /** The loop of Buyer::solve_time_lock.  It sends the refunds of instances 0, 1, ... in order, each of
      them good for the output, until the network takes one; it fails only after all were refused. */
  method SolveTimeLock<P(==), S>(e: Env<P>, w: Wallet<P, S>, ghost sellers: seq<SingleSeller<P>>, buyers: seq<SingleBuyer<P>>,
                                 keys: seq<P>, buyerKey: P)
    returns (res: bool, sent: seq<seq<S>>)
    requires IsEnv(e) && AllSignedAndLocked(e, sellers, buyers) && SharedKeys(buyers, keys)
    requires SignsCorrectly(e, w, buyerKey)
    ensures Attempts(e, w, buyers, keys, buyerKey, sent)
    ensures res ==> sent != [] && RefundTaken(e, w, buyers, |sent| - 1)
    ensures !res ==> |sent| == |buyers|
    ensures res <==> exists j: nat :: j < |buyers| && RefundTaken(e, w, buyers, j)
  {
    res, sent := false, [];
    while |sent| < |buyers| && !res
      modifies {}
      invariant Attempts(e, w, buyers, keys, buyerKey, sent)
      invariant res ==> sent != []
      invariant sent != [] ==> (res <==> RefundTaken(e, w, buyers, |sent| - 1))
    {
      res, sent := NextAttempt(e, w, sellers, buyers, keys, buyerKey, sent);
    }
    if res {
      SomeTaken(e, w, buyers, |sent| - 1);
    } else {
      NoneTaken(e, w, buyers, keys, buyerKey, sent);
    }
  }
}
