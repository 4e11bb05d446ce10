/**
 main/signature_key.cpp: one instance signs the second transaction, locks the seller's key share in
 a timed commitment, and commits to L keys derived from the signature.  Instances are values; what
 every instance shares is an `Env`, and the draws of an instance are an `InstanceDraws`.
 */
module SignatureKey {
  import opened NumberTheory
  import opened Outcome
  import opened Bytes
  import opened Curve
  import opened Paillier
  import opened SharedSignature
  import TimedCommitment
  import opened ShaCommitment
  import opened CutAndChoose

  // ---------------------------------------------------------------- keys from a signature

  function KeyInput(signature: seq<byte>, i: nat): seq<byte> {
    signature + ToBytes(i)
  }

  function Keys(sha: Hash, signature: seq<byte>, L: nat): (k: seq<seq<byte>>)
    ensures |k| == L && forall i :: 0 <= i < L ==> k[i] == sha(KeyInput(signature, i))
  {
    if L == 0 then [] else Keys(sha, signature, L - 1) + [sha(KeyInput(signature, L - 1))]
  }

  method GenKeys(sha: Hash, signature: seq<byte>, L: nat) returns (keys: seq<seq<byte>>)
    ensures keys == Keys(sha, signature, L)
    ensures |keys| == L && forall i :: 0 <= i < L ==> keys[i] == sha(signature + Encode(i, MinEncodedSize(i)))
  {
    keys := [];
    var i := 0;
    while i < L
      invariant 0 <= i <= L && keys == Keys(sha, signature, i)
    {
      var encoded := Encode(i, MinEncodedSize(i));
      keys := keys + [sha(signature + encoded)];
      i := i + 1;
    }
  }

  /** Different indices are hashed from different inputs. */
  lemma KeyInputsDiffer(signature: seq<byte>, i: nat, j: nat)
    requires i != j
    ensures KeyInput(signature, i) != KeyInput(signature, j)
  {
    ToBytesRoundTrip(i);
    ToBytesRoundTrip(j);
    assert ToBytes(i) == KeyInput(signature, i)[|signature|..];
    assert ToBytes(j) == KeyInput(signature, j)[|signature|..];
  }

  /** A signature component on its way to the chain and back: integer2string, BigInteger(1, bytes),
      the DER encoding of the script, toByteArray, and Integer(bytes). */
  function ThroughChain(x: nat): nat {
    Decode(ToByteArray(Decode(ToBytes(x))))
  }

  /** The keys the buyer regenerates from the chain are the seller's, index by index. */
  lemma KeysRegenerated(sha: Hash, n: nat, r: nat, s: nat, L: nat)
    requires 1 <= r < n && 1 <= s < n && MinEncodedSize(n) <= 32
    ensures Keys(sha, EncodeSignature(ThroughChain(r), ThroughChain(s)), L) == Keys(sha, EncodeSignature(r, s), L)
    ensures Decode(EncodeSignature(r, s)[..32]) == r && Decode(EncodeSignature(r, s)[32..]) == s
  {
    ToBytesRoundTrip(r);
    ToBytesRoundTrip(s);
    ToByteArrayRoundTrip(r);
    ToByteArrayRoundTrip(s);
    MinEncodedSizeFits(n);
    PowMonotone(256, MinEncodedSize(n), 32);
    DecodeEncode(r, 32);
    DecodeEncode(s, 32);
    assert EncodeSignature(r, s)[..32] == Encode(r, 32);
    assert EncodeSignature(r, s)[32..] == Encode(s, 32);
  }

  // ---------------------------------------------------------------- one instance

  datatype Env<!P(==)> = Env(curve: Curve<P>, key: Key, gen: TimedCommitment.Keystream, lockP: nat, lockQ: nat,
                             sha: Hash, m: seq<byte>, L: nat, K: nat)

  ghost predicate IsEnv<P>(e: Env<P>) {
    && IsCurve(e.curve) && KeyFor(e.curve.n, e.key) && |e.m| == 32
    && TimedCommitment.IsKeystream(e.gen)
    && TimedCommitment.SafePrime(e.lockP) && TimedCommitment.SafePrime(e.lockQ) && e.lockP != e.lockQ
    && IsHash(e.sha)
  }

  datatype InstanceDraws = InstanceDraws(sign: Draws, h: nat, keySeed: nat -> seq<byte>, signatureSeed: seq<byte>)

  datatype SingleSeller<P> = SingleSeller(ds: int, Q: P, r: int, s: int, keysCommits: seq<Sender>, signatureCommit: Sender)

  datatype SingleBuyer<P> = SingleBuyer(db: int, Q: P, lock: TimedCommitment.Commitment,
                                        keysCommits: seq<Receiver>, signatureCommit: Receiver, openVerified: bool)

  function CommitAll(sha: Hash, m: seq<seq<byte>>, seed: nat -> seq<byte>): (s: seq<Sender>)
    ensures |s| == |m|
    ensures forall i :: 0 <= i < |m| ==> s[i].m == m[i] && s[i].com == ComputeSha(sha, s[i].m, s[i].seed)
    ensures forall i :: 0 <= i < |m| ==> s[i].seed == seed(i)
  {
    if m == [] then [] else
      var last := |m| - 1;
      CommitAll(sha, m[..last], seed) + [ShaCommitment.Exec(sha, Sender(m[last], [], []), FRESH_RECEIVER, seed(last)).0]
  }

  function ReceiveAll(s: seq<Sender>): (r: seq<Receiver>)
    ensures |r| == |s|
  {
    seq(|s|, i requires 0 <= i < |s| => FRESH_RECEIVER.(com := s[i].com))
  }

  /** SignatureKeyProtocol::exec. */
  function ExecInstance<P(==)>(e: Env<P>, d: InstanceDraws, a: SingleSeller<P>, b: SingleBuyer<P>): Result<(SingleSeller<P>, SingleBuyer<P>)>
    requires IsEnv(e)
  {
    var sig :- SignRun(e.curve, e.key, a.ds, b.db, a.Q, e.m, d.sign);
    if a.ds < 0 || sig.0 < 0 || sig.1 < 0 then Err("exception") else
      var lock := TimedCommitment.Committed(e.gen, e.lockP, e.lockQ, d.h, e.K, BitsOf(ToBytes(a.ds)));
      var signature := EncodeSignature(sig.0, sig.1);
      var keys := CommitAll(e.sha, Keys(e.sha, signature, e.L), d.keySeed);
      var (sigS, sigR) := ShaCommitment.Exec(e.sha, Sender(signature, [], []), FRESH_RECEIVER, d.signatureSeed);
      Ok((a.(r := sig.0, s := sig.1, keysCommits := keys, signatureCommit := sigS),
          b.(lock := lock, keysCommits := ReceiveAll(keys), signatureCommit := sigR)))
  }

  function OpenAll(sha: Hash, s: seq<Sender>, r: seq<Receiver>): Result<seq<Receiver>>
    requires |s| == |r|
  {
    if s == [] then Ok([]) else
      var last := |s| - 1;
      var front :- OpenAll(sha, s[..last], r[..last]);
      var opened' :- ShaCommitment.Open(sha, s[last], r[last]);
      Ok(front + [opened'])
  }

  /** SingleBuyer::verifyKeys. */
  predicate KeysMatch(sha: Hash, signature: seq<byte>, commits: seq<Receiver>, L: nat) {
    |commits| == L && forall i :: 0 <= i < L ==> commits[i].m <= Keys(sha, signature, L)[i]
  }

  /** SignatureKeyProtocol::open. */
  function OpenInstance<P(==)>(e: Env<P>, a: SingleSeller<P>, b: SingleBuyer<P>): Result<(SingleSeller<P>, SingleBuyer<P>)>
    requires IsEnv(e)
  {
    var verified :- Verify(e.curve, b.Q, e.m, a.r, a.s);
    var _ :- TimedCommitment.Opened(e.gen, b.lock, e.lockP);
    var (keys, signature) :- OpenCommits(e, a, b);
    Ok((a, b.(keysCommits := keys, signatureCommit := signature, openVerified := verified)))
  }

  function OpenCommits<P>(e: Env<P>, a: SingleSeller<P>, b: SingleBuyer<P>): Result<(seq<Receiver>, Receiver)> {
    var keys :- if |a.keysCommits| == |b.keysCommits| then OpenAll(e.sha, a.keysCommits, b.keysCommits) else Err("sha commitment open failed");
    var signature :- ShaCommitment.Open(e.sha, a.signatureCommit, b.signatureCommit);
    if !KeysMatch(e.sha, signature.m, keys, e.L) then Err("Invalid key") else Ok((keys, signature))
  }

  function SignatureKeyProtocol<P(==)>(e: Env<P>, draws: nat -> InstanceDraws): Protocol<SingleSeller<P>, SingleBuyer<P>>
    requires IsEnv(e)
  {
    Protocol(
      (a, b) => Ok((a, b)),
      (i, a, b) => ExecInstance(e, draws(i), a, b),
      (a, b) => OpenInstance(e, a, b),
      (b: SingleBuyer<P>) => b.openVerified)
  }

  // ---------------------------------------------------------------- honest instances

  /** An instance after SharedSignature::init, with draws in the stated ranges. */
  ghost predicate SharedInstance<P>(e: Env<P>, d: InstanceDraws, a: SingleSeller<P>, b: SingleBuyer<P>)
    requires IsEnv(e)
  {
    && Setup(e.curve, e.key, a.ds, b.db, e.m, d.sign)
    && a.Q == b.Q == e.curve.mul(a.ds * b.db, e.curve.G)
  }

  ghost predicate Succeeds<P>(e: Env<P>, d: InstanceDraws, ds: int, db: int)
    requires IsEnv(e)
  {
    RunSucceeds(e.curve, e.key, ds, db, e.m, d.sign)
  }

  /** A signature both can verify, and a lock on the seller's share of the key. */
  ghost predicate SignedAndLocked<P>(e: Env<P>, a: SingleSeller<P>, b: SingleBuyer<P>)
    requires IsEnv(e)
  {
    && a.Q == b.Q == e.curve.mul(a.ds * b.db, e.curve.G)
    && 1 <= a.ds <= e.curve.n - 1 && 1 <= b.db <= e.curve.n - 1
    && 0 < a.r < e.curve.n && 0 < a.s <= e.curve.n - a.s
    && Verify(e.curve, b.Q, e.m, a.r, a.s) == Ok(true)
    && LockHolds(e, b.lock, a.ds)
  }

  /** The keys an instance is committed to. */
  function InstanceKeys<P>(e: Env<P>, a: SingleSeller<P>): seq<seq<byte>>
    requires a.r >= 0 && a.s >= 0
  {
    Keys(e.sha, EncodeSignature(a.r, a.s), e.L)
  }

  /** A lock on the value ds. */
  function LockOn<P>(e: Env<P>, h: nat, ds: nat): TimedCommitment.Commitment
    requires IsEnv(e)
  {
    TimedCommitment.Committed(e.gen, e.lockP, e.lockQ, h, e.K, BitsOf(ToBytes(ds)))
  }

  /** What the draws of an instance determine: the signature, the lock, and the seeds of its commitments. */
  ghost predicate FollowsDraws<P>(e: Env<P>, d: InstanceDraws, a: SingleSeller<P>, b: SingleBuyer<P>)
    requires IsEnv(e)
  {
    && a.r == RValue(e.curve, d.sign) && a.s == LowS(TextbookS(e.curve, a.ds, b.db, e.m, d.sign), e.curve.n)
    && a.ds >= 0 && b.lock == LockOn(e, d.h, a.ds) && SeedsFollow(d, a)
  }

  /** What an executed instance holds: besides signature and lock, matching keys that are still closed. */
  ghost predicate ExecutedInstance<P>(e: Env<P>, a: SingleSeller<P>, b: SingleBuyer<P>)
    requires IsEnv(e)
  {
    && SignedAndLocked(e, a, b)
    && KeysCommitted(e.sha, InstanceKeys(e, a), a.keysCommits, b.keysCommits)
    && ShaCommitment.Committed(e.sha, a.signatureCommit, b.signatureCommit)
    && a.signatureCommit.m == EncodeSignature(a.r, a.s) && b.signatureCommit.m == []
  }

  ghost predicate LockHolds<P>(e: Env<P>, lock: TimedCommitment.Commitment, ds: int)
    requires IsEnv(e)
  {
    ds >= 0 && exists h: nat :: lock == TimedCommitment.Committed(e.gen, e.lockP, e.lockQ, h, e.K, BitsOf(ToBytes(ds)))
  }

  /** Both sides hold a commitment to each key, and none has been opened. */
  predicate KeysCommitted(sha: Hash, keys: seq<seq<byte>>, s: seq<Sender>, r: seq<Receiver>) {
    && |s| == |r| == |keys|
    && forall i :: 0 <= i < |keys| ==> ShaCommitment.Committed(sha, s[i], r[i]) && s[i].m == keys[i] && r[i].m == []
  }

  lemma KeysAreCommitted(sha: Hash, keys: seq<seq<byte>>, seed: nat -> seq<byte>)
    ensures KeysCommitted(sha, keys, CommitAll(sha, keys, seed), ReceiveAll(CommitAll(sha, keys, seed)))
  {
  }

  lemma LockIsMade<P>(e: Env<P>, h: nat, ds: int)
    requires IsEnv(e) && ds >= 0
    ensures LockHolds(e, TimedCommitment.Committed(e.gen, e.lockP, e.lockQ, h, e.K, BitsOf(ToBytes(ds))), ds)
  {
  }

  predicate SeedsFollow<P>(d: InstanceDraws, a: SingleSeller<P>) {
    && (forall i :: 0 <= i < |a.keysCommits| ==> a.keysCommits[i].seed == d.keySeed(i))
    && a.signatureCommit.seed == d.signatureSeed
  }

  // Executing adds to a signature the lock and the commitments, and nothing else can fail.
  lemma InstanceOfSignature<P>(e: Env<P>, d: InstanceDraws, a: SingleSeller<P>, b: SingleBuyer<P>, r: int, s: int)
    requires IsEnv(e) && a.ds >= 0 && 0 < r && 0 < s
    requires SignRun(e.curve, e.key, a.ds, b.db, a.Q, e.m, d.sign) == Ok((r, s))
    ensures ExecInstance(e, d, a, b).Ok?
    ensures var (a', b') := ExecInstance(e, d, a, b).value;
      && a'.ds == a.ds && b'.db == b.db && a'.Q == a.Q && b'.Q == b.Q && a'.r == r && a'.s == s
      && LockHolds(e, b'.lock, a.ds) && b'.lock == LockOn(e, d.h, a.ds) && SeedsFollow(d, a')
      && KeysCommitted(e.sha, Keys(e.sha, EncodeSignature(r, s), e.L), a'.keysCommits, b'.keysCommits)
      && ShaCommitment.Committed(e.sha, a'.signatureCommit, b'.signatureCommit)
      && a'.signatureCommit.m == EncodeSignature(r, s) && b'.signatureCommit.m == []
  {
    LockIsMade(e, d.h, a.ds);
    KeysAreCommitted(e.sha, Keys(e.sha, EncodeSignature(r, s), e.L), d.keySeed);
  }

  // What a successful signing run gives, without how its value is computed.
  lemma SignatureMade<P>(e: Env<P>, d: InstanceDraws, a: SingleSeller<P>, b: SingleBuyer<P>) returns (r: int, s: int)
    requires IsEnv(e) && SharedInstance(e, d, a, b) && Succeeds(e, d, a.ds, b.db)
    ensures SignRun(e.curve, e.key, a.ds, b.db, a.Q, e.m, d.sign) == Ok((r, s))
    ensures 0 < r < e.curve.n && 0 < s <= e.curve.n - s && Verify(e.curve, b.Q, e.m, r, s) == Ok(true)
    ensures r == RValue(e.curve, d.sign) && s == LowS(TextbookS(e.curve, a.ds, b.db, e.m, d.sign), e.curve.n)
  {
    HonestSignature(e.curve, e.key, a.ds, b.db, e.m, d.sign);
    SuccessIsVerified(e.curve, e.key, a.ds, b.db, e.m, d.sign);
    r, s := RValue(e.curve, d.sign), LowS(TextbookS(e.curve, a.ds, b.db, e.m, d.sign), e.curve.n);
  }

  // Signing and locking leave the shares and the public key as they were.
  lemma SignedInstance<P>(e: Env<P>, a: SingleSeller<P>, b: SingleBuyer<P>, a': SingleSeller<P>, b': SingleBuyer<P>)
    requires IsEnv(e) && a.Q == b.Q == e.curve.mul(a.ds * b.db, e.curve.G)
    requires 1 <= a.ds <= e.curve.n - 1 && 1 <= b.db <= e.curve.n - 1
    requires a'.ds == a.ds && b'.db == b.db && a'.Q == a.Q && b'.Q == b.Q
    requires 0 < a'.r < e.curve.n && 0 < a'.s <= e.curve.n - a'.s && Verify(e.curve, b.Q, e.m, a'.r, a'.s) == Ok(true)
    requires LockHolds(e, b'.lock, a.ds)
    ensures SignedAndLocked(e, a', b')
  {
  }

  lemma InstanceSigned<P>(e: Env<P>, d: InstanceDraws, a: SingleSeller<P>, b: SingleBuyer<P>, r: int, s: int)
    requires IsEnv(e) && a.Q == b.Q == e.curve.mul(a.ds * b.db, e.curve.G)
    requires 1 <= a.ds <= e.curve.n - 1 && 1 <= b.db <= e.curve.n - 1
    requires SignRun(e.curve, e.key, a.ds, b.db, a.Q, e.m, d.sign) == Ok((r, s))
    requires 0 < r < e.curve.n && 0 < s <= e.curve.n - s && Verify(e.curve, b.Q, e.m, r, s) == Ok(true)
    ensures ExecInstance(e, d, a, b).Ok?
    ensures var (a', b') := ExecInstance(e, d, a, b).value;
      && a'.ds == a.ds && b'.db == b.db && a'.Q == a.Q && a'.r == r && a'.s == s
      && b'.lock == LockOn(e, d.h, a.ds) && SeedsFollow(d, a') && ExecutedInstance(e, a', b')
  {
    InstanceOfSignature(e, d, a, b, r, s);
    var (a', b') := ExecInstance(e, d, a, b).value;
    SignedInstance(e, a, b, a', b');
  }

  /** An instance executes exactly when its signing run succeeds. */
  lemma InstanceRuns<P>(e: Env<P>, d: InstanceDraws, a: SingleSeller<P>, b: SingleBuyer<P>)
    requires IsEnv(e) && SharedInstance(e, d, a, b)
    ensures ExecInstance(e, d, a, b).Ok? <==> Succeeds(e, d, a.ds, b.db)
    ensures ExecInstance(e, d, a, b).Ok? ==>
      var (a', b') := ExecInstance(e, d, a, b).value;
      && a'.ds == a.ds && b'.db == b.db && a'.Q == a.Q && ExecutedInstance(e, a', b') && FollowsDraws(e, d, a', b')
  {
    if Succeeds(e, d, a.ds, b.db) {
      var r, s := SignatureMade(e, d, a, b);
      InstanceSigned(e, d, a, b, r, s);
    } else {
      HonestSignature(e.curve, e.key, a.ds, b.db, e.m, d.sign);
    }
  }

  /** Cut and choose never rejects an honest instance: opening it succeeds and verifies. */
  lemma ExecutedInstanceOpens<P>(e: Env<P>, a: SingleSeller<P>, b: SingleBuyer<P>)
    requires IsEnv(e) && ExecutedInstance(e, a, b)
    ensures OpenInstance(e, a, b).Ok? && OpenInstance(e, a, b).value.1.openVerified
  {
    LockOpens(e, b.lock, a.ds);
    CommitsOpen(e, EncodeSignature(a.r, a.s), a, b);
  }

  lemma CommitsOpen<P>(e: Env<P>, signature: seq<byte>, a: SingleSeller<P>, b: SingleBuyer<P>)
    requires KeysCommitted(e.sha, Keys(e.sha, signature, e.L), a.keysCommits, b.keysCommits)
    requires ShaCommitment.Committed(e.sha, a.signatureCommit, b.signatureCommit) && a.signatureCommit.m == signature
    ensures OpenCommits(e, a, b).Ok?
  {
    OpensAll(e.sha, Keys(e.sha, signature, e.L), a.keysCommits, b.keysCommits);
  }

  lemma LockOpens<P>(e: Env<P>, lock: TimedCommitment.Commitment, ds: int)
    requires IsEnv(e) && LockHolds(e, lock, ds)
    ensures TimedCommitment.Opened(e.gen, lock, e.lockP) == Ok(BitsOf(ToBytes(ds)))
    ensures TimedCommitment.ForceOpened(e.gen, lock) == Ok(BitsOf(ToBytes(ds)))
  {
    var h: nat :| lock == TimedCommitment.Committed(e.gen, e.lockP, e.lockQ, h, e.K, BitsOf(ToBytes(ds)));
    TimedCommitment.CommitmentOpens(e.gen, e.lockP, e.lockQ, h, e.K, BitsOf(ToBytes(ds)));
  }

  // ---------------------------------------------------------------- what an accepted opening guarantees

  predicate OpeningVerifies<P(==)>(e: Env<P>, a: SingleSeller<P>, b: SingleBuyer<P>)
    requires IsEnv(e)
  {
    OpenInstance(e, a, b).Ok? && OpenInstance(e, a, b).value.1.openVerified
  }

  /** Every commitment in a row opens to the message its sender holds. */
  predicate RowOpens(sha: Hash, s: seq<Sender>, r: seq<Receiver>)
    requires |s| == |r|
  {
    forall i :: 0 <= i < |s| ==> r[i].com == ComputeSha(sha, s[i].m, s[i].seed)
  }

  lemma {:induction false} OpenAllExactly(sha: Hash, s: seq<Sender>, r: seq<Receiver>)
    requires |s| == |r|
    ensures OpenAll(sha, s, r).Ok? <==> RowOpens(sha, s, r)
    ensures OpenAll(sha, s, r).Ok? ==> |OpenAll(sha, s, r).value| == |s| && forall i :: 0 <= i < |s| ==> OpenAll(sha, s, r).value[i].m == s[i].m
  {
    if s != [] {
      var last := |s| - 1;
      OpenAllExactly(sha, s[..last], r[..last]);
      assert RowOpens(sha, s, r) <==> RowOpens(sha, s[..last], r[..last]) && r[last].com == ComputeSha(sha, s[last].m, s[last].seed) by {
        if RowOpens(sha, s[..last], r[..last]) {
          assert forall i :: 0 <= i < last ==> s[..last][i] == s[i] && r[..last][i] == r[i];
        }
      }
    }
  }

  /** The commitments pass exactly when all of them open and the shown keys are prefixes of those that
      the shown signature yields; which signature that is does not matter. */
  predicate CommitsPass<P>(e: Env<P>, a: SingleSeller<P>, b: SingleBuyer<P>) {
    && |a.keysCommits| == |b.keysCommits| == e.L
    && RowOpens(e.sha, a.keysCommits, b.keysCommits)
    && b.signatureCommit.com == ComputeSha(e.sha, a.signatureCommit.m, a.signatureCommit.seed)
    && forall i :: 0 <= i < e.L ==> a.keysCommits[i].m <= Keys(e.sha, a.signatureCommit.m, e.L)[i]
  }

  lemma CommitsPassExactly<P>(e: Env<P>, a: SingleSeller<P>, b: SingleBuyer<P>)
    ensures OpenCommits(e, a, b).Ok? <==> CommitsPass(e, a, b)
  {
    if |a.keysCommits| == |b.keysCommits| {
      OpenAllExactly(e.sha, a.keysCommits, b.keysCommits);
    }
  }

  /** A verifying signature, a lock that opens to something, and commitments that pass.  Nothing relates
      the three to one another or to the seller's share. */
  predicate PartsPass<P(==)>(e: Env<P>, a: SingleSeller<P>, b: SingleBuyer<P>)
    requires IsEnv(e)
  {
    && Verify(e.curve, b.Q, e.m, a.r, a.s) == Ok(true)
    && TimedCommitment.Opened(e.gen, b.lock, e.lockP).Ok?
    && CommitsPass(e, a, b)
  }

  /** For any seller: opening accepts an instance exactly when its parts pass one by one. */
  lemma OpeningVerifiesExactly<P>(e: Env<P>, a: SingleSeller<P>, b: SingleBuyer<P>)
    requires IsEnv(e)
    ensures OpeningVerifies(e, a, b) <==> PartsPass(e, a, b)
  {
    CommitsPassExactly(e, a, b);
  }

  // A share can be cancelled.
  lemma CancelShare(n: nat, ds: int, other: int, db: int)
    requires Prime(n) && 1 <= db <= n - 1
    ensures Cong(other * db, ds * db, n) <==> Cong(other, ds, n)
  {
    ShareNotDivisible(n, db);
    if Cong(other, ds, n) { CongMul(other, ds, db, db, n); }
    if Cong(other * db, ds * db, n) {
      CancelFactor(n, ds, other, db, InverseMod(db, n));
    }
  }

  lemma CancelFactor(n: nat, ds: int, other: int, db: int, i: int)
    requires n > 0 && Cong(db * i, 1, n) && Cong(other * db, ds * db, n)
    ensures Cong(other, ds, n)
  {
    CongMul(other * db, ds * db, i, i, n);
    CongMul(db * i, 1, other, other, n);
    CongMul(db * i, 1, ds, ds, n);
    assert (other * db) * i == (db * i) * other && (ds * db) * i == (db * i) * ds;
  }

  lemma RefundKeyMatches<P>(c: Curve<P>, ds: int, other: int, db: int)
    requires IsCurve(c) && 1 <= db <= c.n - 1
    ensures c.mul((other * db) % c.n, c.G) == c.mul(ds * db, c.G) <==> Cong(other, ds, c.n)
  {
    CongMod(other * db, c.n);
    OrderLaw(c, (other * db) % c.n, ds * db);
    CancelShare(c.n, ds, other, db);
  }

  /** The lock of an instance can be replaced by a lock on any other value, and opening still accepts.
      The refund then works exactly when the value agrees with the share modulo n. */
  lemma AnyLockPasses<P>(e: Env<P>, a: SingleSeller<P>, b: SingleBuyer<P>, h: nat, other: nat)
    requires IsEnv(e) && ExecutedInstance(e, a, b)
    ensures var b' := b.(lock := LockOn(e, h, other));
      && OpeningVerifies(e, a, b')
      && RefundKey(e, b').Ok?
      && (e.curve.mul(RefundKey(e, b').value, e.curve.G) == b.Q <==> Cong(other, a.ds, e.curve.n))
  {
    ExecutedInstanceOpens(e, a, b);
    LockIsMade(e, h, other);
    var b' := b.(lock := LockOn(e, h, other));
    OpeningVerifiesExactly(e, a, b);
    OtherLock(e, a, b, b', other);
    OpeningVerifiesExactly(e, a, b');
    RefundKeyValue(e, other, b');
    RefundKeyMatches(e.curve, a.ds, other, b.db);
  }

  lemma OtherLock<P>(e: Env<P>, a: SingleSeller<P>, b: SingleBuyer<P>, b': SingleBuyer<P>, other: int)
    requires IsEnv(e) && PartsPass(e, a, b) && b' == b.(lock := b'.lock) && LockHolds(e, b'.lock, other)
    ensures PartsPass(e, a, b')
  {
    LockOpens(e, b'.lock, other);
  }

  /** Neither do the keys have to come from the signature that verifies: commitments made to the keys of
      any other byte string pass as well. */
  lemma AnySignaturePasses<P>(e: Env<P>, a: SingleSeller<P>, b: SingleBuyer<P>, signature: seq<byte>, a': SingleSeller<P>, b': SingleBuyer<P>)
    requires IsEnv(e) && ExecutedInstance(e, a, b)
    requires a' == a.(keysCommits := a'.keysCommits, signatureCommit := a'.signatureCommit)
    requires b' == b.(keysCommits := b'.keysCommits, signatureCommit := b'.signatureCommit)
    requires KeysCommitted(e.sha, Keys(e.sha, signature, e.L), a'.keysCommits, b'.keysCommits)
    requires ShaCommitment.Committed(e.sha, a'.signatureCommit, b'.signatureCommit) && a'.signatureCommit.m == signature
    ensures OpeningVerifies(e, a', b')
  {
    ExecutedInstanceOpens(e, a, b);
    OpeningVerifiesExactly(e, a, b);
    CommitsOpen(e, signature, a', b');
    CommitsPassExactly(e, a', b');
    OpeningVerifiesExactly(e, a', b');
  }

  /** All instances are copies of one committer, so opening any of them reveals the prime that opens the
      lock of every other: with it the share of a kept instance comes out without any forcing. */
  lemma RevealedPrimeOpensAll<P>(e: Env<P>, a: SingleSeller<P>, b: SingleBuyer<P>)
    requires IsEnv(e) && SignedAndLocked(e, a, b)
    ensures TimedCommitment.Opened(e.gen, b.lock, e.lockP) == Ok(BitsOf(ToBytes(a.ds)))
    ensures TimedCommitment.Opened(e.gen, b.lock, e.lockP) == TimedCommitment.ForceOpened(e.gen, b.lock)
  {
    LockOpens(e, b.lock, a.ds);
  }

  lemma {:induction false} OpensAll(sha: Hash, keys: seq<seq<byte>>, s: seq<Sender>, r: seq<Receiver>)
    requires KeysCommitted(sha, keys, s, r)
    ensures OpenAll(sha, s, r).Ok? && |OpenAll(sha, s, r).value| == |keys|
    ensures forall i :: 0 <= i < |keys| ==> OpenAll(sha, s, r).value[i].m == keys[i]
  {
    if s != [] {
      var last := |s| - 1;
      OpensAll(sha, keys[..last], s[..last], r[..last]);
    }
  }

  // ---------------------------------------------------------------- the refund key

  /** The key Buyer::solve_time_lock computes from the forced commitment. */
  function RefundKey<P>(e: Env<P>, b: SingleBuyer<P>): Result<int>
    requires IsEnv(e)
  {
    var bits :- TimedCommitment.ForceOpened(e.gen, b.lock);
    if |bits| % 8 != 0 then Err("exception") else Ok((BitsToInteger(bits) * b.db) % e.curve.n)
  }

  lemma ReducedPrivateKey<P>(c: Curve<P>, ds: int, db: int)
    requires IsCurve(c) && 1 <= ds <= c.n - 1 && 1 <= db <= c.n - 1
    ensures 0 < (ds * db) % c.n < c.n && c.mul((ds * db) % c.n, c.G) == c.mul(ds * db, c.G)
  {
    CongMod(ds * db, c.n);
    OrderLaw(c, (ds * db) % c.n, ds * db);
    ProductNotDivisible(c.n, ds, db);
  }

  lemma RefundKeyValue<P>(e: Env<P>, ds: int, b: SingleBuyer<P>)
    requires IsEnv(e) && LockHolds(e, b.lock, ds)
    ensures RefundKey(e, b) == Ok((ds * b.db) % e.curve.n)
  {
    LockOpens(e, b.lock, ds);
    IntegerBitsRoundTrip(ds);
  }

  /** After any executed instance, forcing the lock yields the private key of that instance's
      shared public key, and it survives the encoding on its way to the redeeming wallet. */
  lemma RefundKeyIsPrivateKey<P>(e: Env<P>, a: SingleSeller<P>, b: SingleBuyer<P>)
    requires IsEnv(e) && SignedAndLocked(e, a, b)
    ensures RefundKey(e, b).Ok?
    ensures var d := RefundKey(e, b).value;
      0 < d < e.curve.n && Decode(ToBytes(d)) == d && e.curve.mul(d, e.curve.G) == b.Q
  {
    RefundKeyValue(e, a.ds, b);
    ReducedPrivateKey(e.curve, a.ds, b.db);
    ToBytesRoundTrip((a.ds * b.db) % e.curve.n);
  }
}
