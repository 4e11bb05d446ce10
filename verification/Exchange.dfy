/**
 The whole of SellInformationProtocol::exec with honest parties: the shared keys, the first cut and
 choose, the rounds over the kept instances, and then either of the two ways the buyer is served.
 The two transactions and the broadcasts between these steps are not part of the model; the hash of
 the second transaction is `Env.m`.
 */
module Exchange {
  import opened NumberTheory
  import opened Outcome
  import opened Bytes
  import opened Curve
  import opened Sorting
  import opened SquareRoot
  import opened SharedSignature
  import opened CutAndChoose
  import opened SignatureKey
  import opened SellInformation
  import opened Disclosure
  import opened Output

  // ---------------------------------------------------------------- shared keys

  predicate SharesInRange(n: int, shares: seq<(int, int)>) {
    forall i :: 0 <= i < |shares| ==> 1 <= shares[i].0 <= n - 1 && 1 <= shares[i].1 <= n - 1
  }

  /** One instance after SharedSignature::init with the given shares. */
  ghost predicate Initialised<P>(e: Env<P>, a: SingleSeller<P>, b: SingleBuyer<P>, share: (int, int)) {
    a.ds == share.0 && b.db == share.1 && a.Q == b.Q == e.curve.mul(share.0 * share.1, e.curve.G)
  }

  method InitInstances<P(==)>(e: Env<P>, shares: seq<(int, int)>) returns (a: seq<SingleSeller<P>>, b: seq<SingleBuyer<P>>, res: Result<()>)
    requires IsEnv(e)
    ensures res.Ok? && AllInitialised(e, shares, a, b)
  {
    a, b := [], [];
    for i := 0 to |shares|
      invariant |a| == |b| == i && forall k :: 0 <= k < i ==> Initialised(e, a[k], b[k], shares[k])
    {
      var (ds, db) := shares[i];
      var Qs, Qb := e.curve.mul(ds, e.curve.G), e.curve.mul(db, e.curve.G);
      var sellersQ, buyersQ := e.curve.mul(ds, Qb), e.curve.mul(db, Qs);
      MulLaw(e.curve, ds, db);
      MulLaw(e.curve, db, ds);
      assert ds * db == db * ds;
      if sellersQ != buyersQ {
        return a, b, Err("Mismatching Q");
      }
      a := a + [SingleSeller(ds, sellersQ, 0, 0, [], ShaCommitment.Sender([], [], []))];
      b := b + [SingleBuyer(db, buyersQ, TimedCommitment.Commitment(0, 0, 0, [], 0), [], ShaCommitment.FRESH_RECEIVER, false)];
    }
    return a, b, Ok(());
  }

  // ---------------------------------------------------------------- the first cut and choose

  predicate InstanceDrawsInRange<P>(e: Env<P>, T: nat, draws: nat -> InstanceDraws) {
    forall i: nat :: i < T ==> DrawsInRange(e.curve.n, e.key.n, draws(i).sign)
  }

  /** Every signing run succeeds, which the draws and shares decide. */
  ghost predicate AllSucceed<P>(e: Env<P>, shares: seq<(int, int)>, draws: nat -> InstanceDraws)
    requires IsEnv(e)
  {
    forall i :: 0 <= i < |shares| ==> Succeeds(e, draws(i), shares[i].0, shares[i].1)
  }

  /** An executed instance is the one of these shares and draws. */
  ghost predicate RanFrom<P>(e: Env<P>, share: (int, int), d: InstanceDraws, a: SingleSeller<P>, b: SingleBuyer<P>)
    requires IsEnv(e)
  {
    && a.ds == share.0 && b.db == share.1 && a.Q == e.curve.mul(share.0 * share.1, e.curve.G)
    && FollowsDraws(e, d, a, b)
  }

  lemma RunDecided<P>(e: Env<P>, share: (int, int), draws: nat -> InstanceDraws, a: SingleSeller<P>, b: SingleBuyer<P>, i: nat)
    requires IsEnv(e) && DrawsInRange(e.curve.n, e.key.n, draws(i).sign) && SharesInRange(e.curve.n, [share])
    requires Initialised(e, a, b, share)
    ensures var run := RunOne(SignatureKeyProtocol(e, draws), i, a, b);
      && (run.Ok? <==> Succeeds(e, draws(i), share.0, share.1))
      && (run.Ok? ==> ExecutedInstance(e, run.value.0, run.value.1) && RanFrom(e, share, draws(i), run.value.0, run.value.1))
  {
    assert [share][0] == share;
    var pr := SignatureKeyProtocol(e, draws);
    assert pr.init(a, b) == Ok((a, b));
    assert pr.exec(i, a, b) == ExecInstance(e, draws(i), a, b);
    InstanceRuns(e, draws(i), a, b);
  }

  /** The instances before and after execution. */
  ghost predicate AllInitialised<P>(e: Env<P>, shares: seq<(int, int)>, a: seq<SingleSeller<P>>, b: seq<SingleBuyer<P>>) {
    |a| == |b| == |shares| && forall i :: 0 <= i < |shares| ==> Initialised(e, a[i], b[i], shares[i])
  }

  ghost predicate AllExecuted<P>(e: Env<P>, a: seq<SingleSeller<P>>, b: seq<SingleBuyer<P>>)
    requires IsEnv(e)
  {
    |a| == |b| && forall i {:trigger At(i)} :: 0 <= i < |a| && At(i) ==> ExecutedInstance(e, a[i], b[i])
  }

  ghost predicate AllRanFrom<P>(e: Env<P>, shares: seq<(int, int)>, draws: nat -> InstanceDraws, a: seq<SingleSeller<P>>, b: seq<SingleBuyer<P>>)
    requires IsEnv(e)
  {
    |a| == |b| == |shares| && forall i: nat {:trigger At(i)} :: i < |a| && At(i) ==> RanFrom(e, shares[i], draws(i), a[i], b[i])
  }

  lemma AllRunDecided<P>(e: Env<P>, shares: seq<(int, int)>, draws: nat -> InstanceDraws,
                         a: seq<SingleSeller<P>>, b: seq<SingleBuyer<P>>, a': seq<SingleSeller<P>>, b': seq<SingleBuyer<P>>)
    requires IsEnv(e) && SharesInRange(e.curve.n, shares) && InstanceDrawsInRange(e, |shares|, draws) && AllInitialised(e, shares, a, b)
    requires AllRun(SignatureKeyProtocol(e, draws), a, b, a', b')
    ensures AllSucceed(e, shares, draws) && AllExecuted(e, a', b') && AllRanFrom(e, shares, draws, a', b')
  {
    forall i: nat | i < |shares| && At(i)
      ensures Succeeds(e, draws(i), shares[i].0, shares[i].1) && ExecutedInstance(e, a'[i], b'[i]) && RanFrom(e, shares[i], draws(i), a'[i], b'[i])
    {
      RunDecided(e, shares[i], draws, a[i], b[i], i);
    }
    forall i | 0 <= i < |shares| ensures Succeeds(e, draws(i), shares[i].0, shares[i].1) {
      assert At(i);
    }
  }

  lemma SomeRunDecided<P>(e: Env<P>, shares: seq<(int, int)>, draws: nat -> InstanceDraws, a: seq<SingleSeller<P>>, b: seq<SingleBuyer<P>>)
    requires IsEnv(e) && SharesInRange(e.curve.n, shares) && InstanceDrawsInRange(e, |shares|, draws) && AllInitialised(e, shares, a, b)
    requires SomeRunThrows(SignatureKeyProtocol(e, draws), a, b)
    ensures !AllSucceed(e, shares, draws)
  {
    var i: nat :| i < |a| && RunOne(SignatureKeyProtocol(e, draws), i, a[i], b[i]).Err?;
    RunDecided(e, shares[i], draws, a[i], b[i], i);
  }

  lemma OpeningPasses<P>(e: Env<P>, draws: nat -> InstanceDraws, a: SingleSeller<P>, b: SingleBuyer<P>)
    requires IsEnv(e) && ExecutedInstance(e, a, b)
    ensures OpenVerdict(SignatureKeyProtocol(e, draws), a, b) == Passed
  {
    ExecutedInstanceOpens(e, a, b);
    var pr := SignatureKeyProtocol(e, draws);
    assert pr.open(a, b) == OpenInstance(e, a, b);
  }

  // Honest instances leave cut_and_choose no way to end but by accepting.
  lemma HonestEnding<P>(e: Env<P>, draws: nat -> InstanceDraws, chosen: seq<int>, T: nat, R: nat,
                        a: seq<SingleSeller<P>>, b: seq<SingleBuyer<P>>, end: Ending)
    requires IsEnv(e) && AllExecuted(e, a, b) && ValidChoice(chosen, T, R)
    requires EndsWith(SignatureKeyProtocol(e, draws), chosen, T, R, a, b, end)
    ensures end == Accepted
  {
    if end.Rejected? || end.OpenThrew? {
      assert At(end.f);
      OpeningPasses(e, draws, a[end.f], b[end.f]);
    }
  }

  /** Signing, locking and committing in T instances, and opening all but the chosen ones; xs and ys
      are the instances between the two. */
  method CutInstances<P(==)>(e: Env<P>, T: nat, R: nat, ghost shares: seq<(int, int)>, draws: nat -> InstanceDraws, chosen: seq<int>,
                             a0: seq<SingleSeller<P>>, b0: seq<SingleBuyer<P>>)
    returns (out: Result<()>, a: seq<SingleSeller<P>>, b: seq<SingleBuyer<P>>, ghost xs: seq<SingleSeller<P>>, ghost ys: seq<SingleBuyer<P>>)
    requires IsEnv(e) && |shares| == T && SharesInRange(e.curve.n, shares) && InstanceDrawsInRange(e, T, draws)
    requires AllInitialised(e, shares, a0, b0) && ValidChoice(chosen, T, R)
    ensures out.Ok? <==> AllSucceed(e, shares, draws)
    ensures out.Ok? ==> |xs| == T && AllExecuted(e, xs, ys) && AllRanFrom(e, shares, draws, xs, ys)
    ensures out.Ok? ==> OpenedBelow(SignatureKeyProtocol(e, draws), chosen, xs, ys, a, b, T)
  {
    a, b := a0, b0;
    var pr := SignatureKeyProtocol(e, draws);
    var p := new Prover(a);
    var v := new Verifier(b, chosen);
    ghost var end;
    out, end, xs, ys := CutAndChoose.CutAndChoose(pr, p, v, T, R);
    if end == RunThrew {
      SomeRunDecided(e, shares, draws, a0, b0);
    } else {
      AllRunDecided(e, shares, draws, a0, b0, xs, ys);
      HonestEnding(e, draws, chosen, T, R, xs, ys, end);
    }
    if out.Err? {
      return;
    }
    if !v.res {
      out := Err("Generating signatures and keys failed!");
      return;
    }
    a, b := p.v, v.v;
  }

  /** The parties of the chosen instances; cut and choose left those as they were executed. */
  method Collect<P>(e: Env<P>, ghost pr: Protocol<SingleSeller<P>, SingleBuyer<P>>, T: nat, chosen: seq<int>,
                    a: seq<SingleSeller<P>>, b: seq<SingleBuyer<P>>, ghost xs: seq<SingleSeller<P>>, ghost ys: seq<SingleBuyer<P>>)
    returns (a': seq<SingleSeller<P>>, b': seq<SingleBuyer<P>>)
    requires IsEnv(e) && |xs| == T && AllExecuted(e, xs, ys) && OpenedBelow(pr, chosen, xs, ys, a, b, T) && InRange(chosen, T)
    ensures |a'| == |chosen| && AllExecuted(e, a', b')
    ensures forall k :: 0 <= k < |chosen| ==> assert chosen[k] in chosen; a'[k] == xs[chosen[k]] && b'[k] == ys[chosen[k]]
  {
    a', b' := [], [];
    for k := 0 to |chosen|
      invariant |a'| == |b'| == k
      invariant forall i :: 0 <= i < k ==> assert chosen[i] in chosen; a'[i] == xs[chosen[i]] && b'[i] == ys[chosen[i]]
    {
      var ix := chosen[k];
      assert ix in chosen;
      a', b' := a' + [a[ix]], b' + [b[ix]];
    }
    forall k | 0 <= k < |chosen| && At(k) ensures ExecutedInstance(e, a'[k], b'[k]) {
      assert chosen[k] in chosen;
      assert At(chosen[k]);
    }
  }

  /** The shared keys of the chosen instances, which the buyer puts into the output it creates before
      the cut and choose. */
  method OutputKeys<P>(b: seq<SingleBuyer<P>>, chosen: seq<int>) returns (keys: seq<P>)
    requires InRange(chosen, |b|)
    ensures |keys| == |chosen| && forall k :: 0 <= k < |chosen| ==> assert chosen[k] in chosen; keys[k] == b[chosen[k]].Q
  {
    keys := [];
    for k := 0 to |chosen|
      invariant |keys| == k && forall i :: 0 <= i < k ==> assert chosen[i] in chosen; keys[i] == b[chosen[i]].Q
    {
      assert chosen[k] in chosen;
      keys := keys + [b[chosen[k]].Q];
    }
  }

  /** Instance k of the kept ones is instance chosen[k] of all. */
  ghost predicate KeptFrom<P>(e: Env<P>, shares: seq<(int, int)>, draws: nat -> InstanceDraws, chosen: seq<int>,
                              a: seq<SingleSeller<P>>, b: seq<SingleBuyer<P>>)
    requires IsEnv(e)
  {
    && |a| == |b| == |chosen| && InRange(chosen, |shares|)
    && forall k {:trigger At(k)} :: 0 <= k < |chosen| && At(k) ==>
      assert chosen[k] in chosen; RanFrom(e, shares[chosen[k]], draws(chosen[k]), a[k], b[k])
  }

  lemma KeptAre<P>(e: Env<P>, shares: seq<(int, int)>, draws: nat -> InstanceDraws, chosen: seq<int>,
                   a: seq<SingleSeller<P>>, b: seq<SingleBuyer<P>>, xs: seq<SingleSeller<P>>, ys: seq<SingleBuyer<P>>)
    requires IsEnv(e) && AllRanFrom(e, shares, draws, xs, ys) && |a| == |b| == |chosen| && InRange(chosen, |shares|)
    requires forall k :: 0 <= k < |chosen| ==> assert chosen[k] in chosen; a[k] == xs[chosen[k]] && b[k] == ys[chosen[k]]
    ensures KeptFrom(e, shares, draws, chosen, a, b)
  {
    forall k | 0 <= k < |chosen| && At(k)
      ensures assert chosen[k] in chosen; RanFrom(e, shares[chosen[k]], draws(chosen[k]), a[k], b[k])
    {
      assert chosen[k] in chosen;
      assert At(chosen[k]);
    }
  }

  method ChooseInstances<P(==)>(e: Env<P>, T: nat, R: nat, ghost shares: seq<(int, int)>, draws: nat -> InstanceDraws, chosen: seq<int>,
                                a0: seq<SingleSeller<P>>, b0: seq<SingleBuyer<P>>, ghost keys: seq<P>)
    returns (out: Result<()>, a: seq<SingleSeller<P>>, b: seq<SingleBuyer<P>>)
    requires IsEnv(e) && |shares| == T && SharesInRange(e.curve.n, shares) && InstanceDrawsInRange(e, T, draws)
    requires AllInitialised(e, shares, a0, b0) && ValidChoice(chosen, T, R)
    requires |keys| == |chosen| && forall k :: 0 <= k < |chosen| ==> assert chosen[k] in chosen; keys[k] == b0[chosen[k]].Q
    ensures out.Ok? <==> AllSucceed(e, shares, draws)
    ensures out.Ok? ==> |a| == |b| == R && AllExecuted(e, a, b) && SharedKeys(b, keys)
    ensures out.Ok? ==> KeptFrom(e, shares, draws, chosen, a, b)
  {
    ghost var xs, ys;
    out, a, b, xs, ys := CutInstances(e, T, R, shares, draws, chosen, a0, b0);
    if out.Err? {
      return;
    }
    a, b := Collect(e, SignatureKeyProtocol(e, draws), T, chosen, a, b, xs, ys);
    KeptAre(e, shares, draws, chosen, a, b, xs, ys);
    forall k | 0 <= k < |b| ensures keys[k] == b[k].Q {
      assert chosen[k] in chosen;
      assert At(k) && At(chosen[k]);
    }
  }

  // ---------------------------------------------------------------- up to the payment

  /** What both parties hold of one kept instance when the buyer pays; the signature, from which every key
      follows, is still closed. */
  ghost predicate InstanceAtPayment<P>(e: Env<P>, c: Cipher, n: nat, a: SingleSeller<P>, b: SingleBuyer<P>,
                                       x: seq<int>, d1: seq<ShaCommitment.Receiver>, d2: seq<ShaCommitment.Receiver>, subset: seq<int>)
    requires IsEnv(e) && n > 0
  {
    && SignedAndLocked(e, a, b) && b.signatureCommit.m == []
    && RoundAtPayment(n, c, InstanceKeys(e, a), x, Receivers(b.keysCommits, d1, d2), subset, e.L)
  }

  ghost predicate AtPayment<P>(e: Env<P>, c: Cipher, seller: Seller<P>, buyer: Buyer<P>, R: nat, done: int)
    requires IsEnv(e)
    reads seller, buyer
  {
    && buyer.Shaped(R) && seller.n == buyer.n && |seller.singleSellers| == |buyer.singleBuyers| == R && done <= R
    && forall j {:trigger At(j)} :: 0 <= j < done && At(j) ==>
      InstanceAtPayment(e, c, buyer.n, seller.singleSellers[j], buyer.singleBuyers[j], buyer.x[j], buyer.d1[j], buyer.d2[j], buyer.indices[j])
  }

  /** The instances whose round is still to come: executed, with nothing opened. */
  ghost predicate Untouched<P>(e: Env<P>, seller: Seller<P>, buyer: Buyer<P>, R: nat, done: int)
    requires IsEnv(e)
    reads seller, buyer
  {
    && buyer.Shaped(R) && |seller.singleSellers| == |buyer.singleBuyers| == R && 0 <= done
    && forall j {:trigger At(j)} :: done <= j < R && At(j) ==>
      && ExecutedInstance(e, seller.singleSellers[j], buyer.singleBuyers[j])
      && buyer.d1[j] == buyer.d2[j] == FreshRow(e.L)
  }

  predicate RoundsInRange(n: int, L: nat, R: nat, rounds: nat -> RoundDraws) {
    forall j: nat :: j < R ==> RoundDrawsInRange(n, L, rounds(j))
  }

  lemma KeysAreSized<P>(e: Env<P>, a: SingleSeller<P>)
    requires IsEnv(e) && a.r >= 0 && a.s >= 0
    ensures forall i :: 0 <= i < e.L ==> |InstanceKeys(e, a)[i]| == AES_LENGTH
  {
  }

  /** The rounds touch nothing of the kept instances but the key commitments. */
  ghost predicate SameButKeys<P>(b: seq<SingleBuyer<P>>, b': seq<SingleBuyer<P>>) {
    |b| == |b'| && forall j {:trigger At(j)} :: 0 <= j < |b| && At(j) ==> b'[j] == b[j].(keysCommits := b'[j].keysCommits)
  }

  ghost predicate SameRow(s: RoundRows, t: RoundRows, k: nat) {
    && k < |s.x| && k < |s.indices| && k < |s.y| && k < |s.r1| && k < |s.r2| && k < |s.d1| && k < |s.d2|
    && k < |t.x| && k < |t.indices| && k < |t.y| && k < |t.r1| && k < |t.r2| && k < |t.d1| && k < |t.d2|
    && s.x[k] == t.x[k] && s.indices[k] == t.indices[k] && s.y[k] == t.y[k] && s.r1[k] == t.r1[k] && s.r2[k] == t.r2[k]
    && s.d1[k] == t.d1[k] && s.d2[k] == t.d2[k]
  }

  // Every row but row j is as before.
  ghost predicate SameRows(s: RoundRows, t: RoundRows, j: nat) {
    forall k: nat {:trigger At(k)} :: k < |s.x| && k != j && At(k) ==> SameRow(s, t, k)
  }

  ghost predicate RoundsFollow(sr: SquareRoot, t: RoundRows, rounds: nat -> RoundDraws, L: nat, done: nat) {
    forall j: nat {:trigger At(j)} :: j < done && At(j) ==> RoundFollows(sr, t, rounds(j), j, L)
  }

  lemma RoundStays(sr: SquareRoot, s: RoundRows, t: RoundRows, d: RoundDraws, k: nat, L: nat)
    requires RoundFollows(sr, s, d, k, L) && SameRow(s, t, k)
    ensures RoundFollows(sr, t, d, k, L)
  {
  }

  lemma RoundsExtend(sr: SquareRoot, s: RoundRows, t: RoundRows, rounds: nat -> RoundDraws, L: nat, j: nat)
    requires RoundsFollow(sr, s, rounds, L, j) && SameRows(s, t, j) && j < |s.x| && RoundFollows(sr, t, rounds(j), j, L)
    ensures RoundsFollow(sr, t, rounds, L, j + 1)
  {
    forall k: nat | k < j + 1 && At(k) ensures RoundFollows(sr, t, rounds(k), k, L) {
      if k < j { RoundStays(sr, s, t, rounds(k), k, L); }
    }
  }

  lemma OnlyKeysChanged<P>(b: seq<SingleBuyer<P>>, b': seq<SingleBuyer<P>>, j: nat)
    requires j < |b| == |b'| && b' == b[j := b[j].(keysCommits := b'[j].keysCommits)]
    ensures SameButKeys(b, b')
  {
  }

  lemma OtherRowsStay(s: RoundRows, t: RoundRows, R: nat, j: nat)
    requires |s.x| == |s.indices| == |s.y| == |s.r1| == |s.r2| == |s.d1| == |s.d2| == R
    requires |t.x| == |t.indices| == |t.y| == |t.r1| == |t.r2| == |t.d1| == |t.d2| == R
    requires forall k :: 0 <= k < R && k != j ==> t.x[k] == s.x[k] && t.indices[k] == s.indices[k]
    requires forall k :: 0 <= k < R && k != j ==> t.y[k] == s.y[k] && t.r1[k] == s.r1[k] && t.r2[k] == s.r2[k]
    requires forall k :: 0 <= k < R && k != j ==> t.d1[k] == s.d1[k] && t.d2[k] == s.d2[k]
    ensures SameRows(s, t, j)
  {
  }

  method NextRound<P(==)>(e: Env<P>, c: Cipher, seller: Seller<P>, buyer: Buyer<P>, R: nat, j: nat, d: RoundDraws) returns (res: Result<()>)
    requires IsEnv(e) && IsCipher(c) && seller.Shaped(R) && Valid(seller.squareRoot) && j < R
    requires AtPayment(e, c, seller, buyer, R, j) && Untouched(e, seller, buyer, R, j) && RoundDrawsInRange(buyer.n, e.L, d)
    modifies seller, buyer
    ensures res.Ok? && seller.Shaped(R) && seller.singleSellers == old(seller.singleSellers)
    ensures AtPayment(e, c, seller, buyer, R, j + 1) && Untouched(e, seller, buyer, R, j + 1)
    ensures SameButKeys(old(buyer.singleBuyers), buyer.singleBuyers) && RoundFollows(seller.squareRoot, Rows(seller, buyer), d, j, e.L)
    ensures SameRows(old(Rows(seller, buyer)), Rows(seller, buyer), j)
  {
    assert At(j);
    KeysAreSized(e, seller.singleSellers[j]);
    ghost var b, s := buyer.singleBuyers, Rows(seller, buyer);
    res := ExchangeRoots(e.sha, c, seller, buyer, InstanceKeys(e, seller.singleSellers[j]), R, j, e.L, d);
    OnlyKeysChanged(b, buyer.singleBuyers, j);
    OtherRowsStay(s, Rows(seller, buyer), R, j);
  }

  lemma ExecutedAreSigned<P>(e: Env<P>, a: seq<SingleSeller<P>>, b: seq<SingleBuyer<P>>)
    requires IsEnv(e) && AllExecuted(e, a, b)
    ensures AllSignedAndLocked(e, a, b)
    ensures forall j :: 0 <= j < |a| ==> a[j].r >= 0 && a[j].s >= 0
  {
    forall j | 0 <= j < |a| && At(j) ensures SignedAndLocked(e, a[j], b[j]) {
    }
    forall j | 0 <= j < |a| ensures a[j].r >= 0 && a[j].s >= 0 {
      assert At(j);
    }
  }

  /** The output holding the payment is built on the keys of the kept instances, and the seller's
      signatures spend it. */
  ghost predicate SellerCanSpend<P>(e: Env<P>, seller: Seller<P>, buyer: Buyer<P>, keys: seq<P>, buyerKey: P)
    requires IsEnv(e)
    reads seller, buyer
  {
    && |keys| >= 1 && SharedKeys(buyer.singleBuyers, keys)
    && Accepts(VerifiesUnder(e), SellersSignatures(seller.singleSellers), keys, buyerKey)
  }

  /** From the shared keys to the kept instances: the output is created, cut and choose is run, and the
      seller checks that its signatures spend the output.  `created` says whether the wallet can fund it. */
  method PrepareInstances<P(==)>(e: Env<P>, T: nat, R: nat, shares: seq<(int, int)>, draws: nat -> InstanceDraws,
                                 chosen: seq<int>, created: bool, buyerKey: P)
    returns (out: Result<()>, a: seq<SingleSeller<P>>, b: seq<SingleBuyer<P>>, keys: seq<P>)
    requires IsEnv(e) && |shares| == T && SharesInRange(e.curve.n, shares) && InstanceDrawsInRange(e, T, draws)
    requires ValidChoice(chosen, T, R)
    ensures out.Ok? <==> created && AllSucceed(e, shares, draws)
    ensures out.Ok? ==> |a| == |b| == R && AllExecuted(e, a, b) && SharedKeys(b, keys)
    ensures out.Ok? ==> KeptFrom(e, shares, draws, chosen, a, b)
    ensures out.Ok? ==> Accepts(VerifiesUnder(e), SellersSignatures(a), keys, buyerKey)
  {
    var init;
    a, b, init := InitInstances(e, shares);
    keys := OutputKeys(b, chosen);
    if !created {
      out := Err("T1 is empty");
      return;
    }
    out, a, b := ChooseInstances(e, T, R, shares, draws, chosen, a, b, keys);
    if out.Err? {
      return;
    }
    ExecutedAreSigned(e, a, b);
    SellerSpends(e, a, b, keys, buyerKey);
    out := VerifyT2Signature(e, a, keys, buyerKey);
  }

  lemma KeysStay<P>(e: Env<P>, c: Cipher, seller: Seller<P>, buyer: Buyer<P>, R: nat, a: seq<SingleSeller<P>>, b: seq<SingleBuyer<P>>, keys: seq<P>)
    requires IsEnv(e) && AllExecuted(e, a, b) && SharedKeys(b, keys) && |b| == R
    requires seller.singleSellers == a && AtPayment(e, c, seller, buyer, R, R)
    ensures SharedKeys(buyer.singleBuyers, keys)
  {
    forall j | 0 <= j < R ensures keys[j] == buyer.singleBuyers[j].Q {
      assert At(j);
    }
  }

  /** The output is built on the products of the picked shares. */
  ghost predicate KeysOfShares<P>(e: Env<P>, shares: seq<(int, int)>, picked: seq<int>, keys: seq<P>) {
    && |keys| == |picked| && InRange(picked, |shares|)
    && forall k :: 0 <= k < |picked| ==>
      assert picked[k] in picked; keys[k] == e.curve.mul(shares[picked[k]].0 * shares[picked[k]].1, e.curve.G)
  }

  lemma KeptKeys<P>(e: Env<P>, shares: seq<(int, int)>, draws: nat -> InstanceDraws, picked: seq<int>,
                    a: seq<SingleSeller<P>>, b: seq<SingleBuyer<P>>, keys: seq<P>)
    requires IsEnv(e) && KeptFrom(e, shares, draws, picked, a, b) && AllExecuted(e, a, b) && SharedKeys(b, keys)
    ensures KeysOfShares(e, shares, picked, keys)
  {
    forall k | 0 <= k < |picked|
      ensures assert picked[k] in picked; keys[k] == e.curve.mul(shares[picked[k]].0 * shares[picked[k]].1, e.curve.G)
    {
      assert At(k);
    }
  }

  lemma RanFromStays<P>(e: Env<P>, share: (int, int), d: InstanceDraws, a: SingleSeller<P>, b: SingleBuyer<P>, b': SingleBuyer<P>)
    requires IsEnv(e) && RanFrom(e, share, d, a, b) && b' == b.(keysCommits := b'.keysCommits)
    ensures RanFrom(e, share, d, a, b')
  {
  }

  lemma KeptStay<P>(e: Env<P>, shares: seq<(int, int)>, draws: nat -> InstanceDraws, picked: seq<int>,
                    a: seq<SingleSeller<P>>, b: seq<SingleBuyer<P>>, b': seq<SingleBuyer<P>>)
    requires IsEnv(e) && KeptFrom(e, shares, draws, picked, a, b) && SameButKeys(b, b')
    ensures KeptFrom(e, shares, draws, picked, a, b')
  {
    forall k | 0 <= k < |picked| && At(k)
      ensures assert picked[k] in picked; RanFrom(e, shares[picked[k]], draws(picked[k]), a[k], b'[k])
    {
      RanFromStays(e, shares[picked[k]], draws(picked[k]), a[k], b[k], b'[k]);
    }
  }

  lemma SameButKeysTrans<P>(b: seq<SingleBuyer<P>>, b': seq<SingleBuyer<P>>, b'': seq<SingleBuyer<P>>)
    requires SameButKeys(b, b') && SameButKeys(b', b'')
    ensures SameButKeys(b, b'')
  {
  }

  /** SellInformationProtocol::exec up to make_payment.  Its only failures are a wallet that cannot fund
      the output and signing runs that the draws doom; everything after the first cut and choose succeeds. */
  method Exec<P(==)>(e: Env<P>, c: Cipher, seller: Seller<P>, buyer: Buyer<P>, T: nat, R: nat, shares: seq<(int, int)>,
                     draws: nat -> InstanceDraws, picks: seq<int>, rounds: nat -> RoundDraws, created: bool, buyerKey: P)
    returns (out: Result<()>, keys: seq<P>, ghost picked: seq<int>)
    requires IsEnv(e) && IsCipher(c) && seller.Shaped(R) && buyer.Shaped(R) && seller.n == buyer.n && Valid(seller.squareRoot)
    requires forall j :: 0 <= j < R ==> buyer.d1[j] == buyer.d2[j] == FreshRow(e.L)
    requires |shares| == T && SharesInRange(e.curve.n, shares) && InstanceDrawsInRange(e, T, draws)
    requires 1 <= R <= |Members(picks)| && InRange(picks, T) && RoundsInRange(buyer.n, e.L, R, rounds)
    modifies seller, buyer
    ensures out.Ok? <==> created && AllSucceed(e, shares, draws)
    ensures out.Ok? ==> AtPayment(e, c, seller, buyer, R, R) && SellerCanSpend(e, seller, buyer, keys, buyerKey)
    ensures PickedFrom(picks, R, picked) && InRange(picked, T)
    ensures out.Ok? ==> KeptFrom(e, shares, draws, picked, seller.singleSellers, buyer.singleBuyers)
    ensures out.Ok? ==> KeysOfShares(e, shares, picked, keys)
    ensures out.Ok? ==> RoundsFollow(seller.squareRoot, Rows(seller, buyer), rounds, e.L, R)
  {
    var chosen := PickR(picks, T, R);
    picked := chosen.value;
    var a, b;
    out, a, b, keys := PrepareInstances(e, T, R, shares, draws, chosen.value, created, buyerKey);
    if out.Err? {
      return;
    }
    seller.singleSellers, buyer.singleBuyers := a, b;
    for j := 0 to R
      invariant seller.Shaped(R) && out.Ok? && seller.singleSellers == a
      invariant AtPayment(e, c, seller, buyer, R, j) && Untouched(e, seller, buyer, R, j)
      invariant SameButKeys(b, buyer.singleBuyers) && RoundsFollow(seller.squareRoot, Rows(seller, buyer), rounds, e.L, j)
    {
      ghost var before, bs := Rows(seller, buyer), buyer.singleBuyers;
      out := NextRound(e, c, seller, buyer, R, j, rounds(j));
      RoundsExtend(seller.squareRoot, before, Rows(seller, buyer), rounds, e.L, j);
      SameButKeysTrans(b, bs, buyer.singleBuyers);
    }
    KeysStay(e, c, seller, buyer, R, a, b, keys);
    KeptStay(e, shares, draws, picked, a, b, buyer.singleBuyers);
    KeptKeys(e, shares, draws, picked, a, b, keys);
  }

  // ---------------------------------------------------------------- pay and learn

  lemma PaidInstances<P>(e: Env<P>, c: Cipher, seller: Seller<P>, buyer: Buyer<P>, R: nat)
    requires IsEnv(e) && AtPayment(e, c, seller, buyer, R, R)
    ensures AllSignedAndLocked(e, seller.singleSellers, buyer.singleBuyers) && |buyer.singleBuyers| == R
  {
  }

  /** An index the buyer can factor with: outside the subset, with a value coprime to n. */
  ghost predicate Useful<P>(buyer: Buyer<P>, L: nat, j: int, i: int)
    reads buyer
  {
    && 0 <= j < |buyer.indices| && j < |buyer.x| && 0 <= i < L && i < |buyer.x[j]|
    && i !in buyer.indices[j] && Gcd(Abs(buyer.x[j][i]), buyer.n) == 1
  }

  /** The signature components as the buyer reads them from the broadcast transaction. */
  function ChainBytes(x: nat): seq<byte> {
    ToByteArray(Decode(ToBytes(x)))
  }

  lemma ChainKeys<P>(e: Env<P>, a: SingleSeller<P>, b: SingleBuyer<P>)
    requires IsEnv(e) && SignedAndLocked(e, a, b)
    ensures Keys(e.sha, EncodeSignature(ThroughChain(a.r), ThroughChain(a.s)), e.L) == InstanceKeys(e, a)
  {
    KeysRegenerated(e.sha, e.curve.n, a.r, a.s, e.L);
  }

  lemma AttemptDecided<P>(sha: ShaCommitment.Hash, c: Cipher, buyer: Buyer<P>, R: nat, L: nat, j: nat, i: nat, p: nat, q: nat,
                          keys: seq<seq<byte>>, opened': seq<ShaCommitment.Receiver>)
    requires buyer.Shaped(R) && buyer.HasRows(R, L) && j < R && i < L && IsCipher(c)
    requires Prime(p) && Prime(q) && p != q && buyer.n == p * q && buyer.n % 2 == 1
    requires Keys(sha, buyer.signatures[j], L) == keys
    requires RoundAtPayment(buyer.n, c, keys, buyer.x[j], Receivers(opened', buyer.d1[j], buyer.d2[j]), buyer.indices[j], L)
    ensures if Useful(buyer, L, j, i) then SplitsInto(buyer.AttemptAt(sha, c, R, L, j, i), p, q)
            else buyer.AttemptAt(sha, c, R, L, j, i) in QUIET
  {
    HonestAttempt(p, q, buyer.n, c, keys, buyer.x[j], Receivers(opened', buyer.d1[j], buyer.d2[j]), buyer.indices[j], L, i);
  }

  /** The buyer's signatures are the ones the seller's transaction carries. */
  ghost predicate FromChain<P>(seller: Seller<P>, signatures: seq<seq<byte>>)
    reads seller
  {
    |signatures| == |seller.singleSellers| && forall j {:trigger At(j)} :: 0 <= j < |signatures| && At(j) ==>
      var a := seller.singleSellers[j];
      a.r >= 0 && a.s >= 0 && signatures[j] == EncodeSignature(ThroughChain(a.r), ThroughChain(a.s))
  }

  /** Every attempt is decided by whether its index is useful. */
  ghost predicate Decided<P>(sha: ShaCommitment.Hash, c: Cipher, buyer: Buyer<P>, R: nat, L: nat, p: nat, q: nat)
    requires buyer.HasRows(R, L)
    reads buyer
  {
    forall j, i {:trigger At(j), At(i)} :: 0 <= j < R && 0 <= i < L && At(j) && At(i) ==>
      if Useful(buyer, L, j, i) then SplitsInto(buyer.AttemptAt(sha, c, R, L, j, i), p, q)
      else buyer.AttemptAt(sha, c, R, L, j, i) in QUIET
  }

  lemma RoundOf<P>(e: Env<P>, c: Cipher, seller: Seller<P>, buyer: Buyer<P>, R: nat, j: nat)
    requires IsEnv(e) && AtPayment(e, c, seller, buyer, R, R) && j < R && FromChain(seller, buyer.signatures)
    ensures var a, b := seller.singleSellers[j], buyer.singleBuyers[j];
      && a.r >= 0 && a.s >= 0 && Keys(e.sha, buyer.signatures[j], e.L) == InstanceKeys(e, a)
      && RoundAtPayment(buyer.n, c, InstanceKeys(e, a), buyer.x[j], Receivers(b.keysCommits, buyer.d1[j], buyer.d2[j]), buyer.indices[j], e.L)
  {
    assert At(j);
    ChainKeys(e, seller.singleSellers[j], buyer.singleBuyers[j]);
  }

  lemma AllDecided<P>(e: Env<P>, c: Cipher, seller: Seller<P>, buyer: Buyer<P>, R: nat, p: nat, q: nat)
    requires IsEnv(e) && IsCipher(c) && AtPayment(e, c, seller, buyer, R, R) && buyer.HasRows(R, e.L)
    requires Prime(p) && Prime(q) && p != q && buyer.n == p * q && buyer.n % 2 == 1
    requires FromChain(seller, buyer.signatures)
    ensures Decided(e.sha, c, buyer, R, e.L, p, q)
  {
    forall j, i | 0 <= j < R && 0 <= i < e.L && At(j) && At(i)
      ensures if Useful(buyer, e.L, j, i) then SplitsInto(buyer.AttemptAt(e.sha, c, R, e.L, j, i), p, q)
              else buyer.AttemptAt(e.sha, c, R, e.L, j, i) in QUIET
    {
      RoundOf(e, c, seller, buyer, R, j);
      AttemptDecided(e.sha, c, buyer, R, e.L, j, i, p, q, InstanceKeys(e, seller.singleSellers[j]), buyer.singleBuyers[j].keysCommits);
    }
  }

  // Where the scan stops is useful; if it stops nowhere, nothing is.
  lemma ScanDecided<P>(sha: ShaCommitment.Hash, c: Cipher, buyer: Buyer<P>, R: nat, L: nat, p: nat, q: nat, j0: int, i0: int)
    requires buyer.HasRows(R, L) && |buyer.indices| == R && Decided(sha, c, buyer, R, L, p, q)
    requires 0 <= j0 <= R && 0 <= i0 <= L && buyer.QuietBefore(sha, c, R, L, j0, i0)
    requires j0 == R || (i0 < L && buyer.AttemptAt(sha, c, R, L, j0, i0) !in QUIET)
    ensures j0 < R ==> Useful(buyer, L, j0, i0) && SplitsInto(buyer.AttemptAt(sha, c, R, L, j0, i0), p, q)
    ensures j0 == R ==> forall j, i :: !Useful(buyer, L, j, i)
  {
    assert At(j0) && At(i0);
    if j0 == R {
      forall j, i ensures !Useful(buyer, L, j, i) {
        assert At(j) && At(i);
      }
    }
  }

  lemma ScanLearns<P>(e: Env<P>, c: Cipher, seller: Seller<P>, buyer: Buyer<P>, R: nat, p: nat, q: nat, j0: int, i0: int)
    requires IsEnv(e) && IsCipher(c) && AtPayment(e, c, seller, buyer, R, R) && buyer.HasRows(R, e.L)
    requires Prime(p) && Prime(q) && p != q && buyer.n == p * q && buyer.n % 2 == 1
    requires FromChain(seller, buyer.signatures)
    requires 0 <= j0 <= R && 0 <= i0 <= e.L && buyer.QuietBefore(e.sha, c, R, e.L, j0, i0)
    requires j0 == R || (i0 < e.L && buyer.AttemptAt(e.sha, c, R, e.L, j0, i0) !in QUIET)
    ensures j0 < R ==> Useful(buyer, e.L, j0, i0) && SplitsInto(buyer.AttemptAt(e.sha, c, R, e.L, j0, i0), p, q)
    ensures j0 == R ==> forall j, i :: !Useful(buyer, e.L, j, i)
  {
    AllDecided(e, c, seller, buyer, R, p, q);
    ScanDecided(e.sha, c, buyer, R, e.L, p, q, j0, i0);
  }

  method ReadChain<P>(seller: Seller<P>) returns (found: seq<(seq<byte>, seq<byte>)>)
    requires forall j {:trigger At(j)} :: 0 <= j < |seller.singleSellers| && At(j) ==> seller.singleSellers[j].r >= 0 && seller.singleSellers[j].s >= 0
    ensures |found| == |seller.singleSellers|
    ensures forall j {:trigger At(j)} :: 0 <= j < |found| && At(j) ==>
      var a := seller.singleSellers[j]; a.r >= 0 && a.s >= 0 && found[j] == (ChainBytes(a.r), ChainBytes(a.s))
  {
    found := [];
    for j := 0 to |seller.singleSellers|
      invariant |found| == j
      invariant forall k {:trigger At(k)} :: 0 <= k < j && At(k) ==>
        var a := seller.singleSellers[k]; a.r >= 0 && a.s >= 0 && found[k] == (ChainBytes(a.r), ChainBytes(a.s))
    {
      assert At(j);
      found := found + [(ChainBytes(seller.singleSellers[j].r), ChainBytes(seller.singleSellers[j].s))];
    }
  }

  /** When the seller takes the payment, its signatures are public, and the buyer learns the two primes
      exactly when some index it did not check before has a value coprime to n.  `seen` says whether the
      wait for the seller's transaction succeeds. */
  method LearnFactors<P(==)>(e: Env<P>, c: Cipher, seller: Seller<P>, buyer: Buyer<P>, R: nat, seen: bool, ghost p: nat, ghost q: nat)
    returns (res: Result<()>, finished: bool)
    requires IsEnv(e) && IsCipher(c) && AtPayment(e, c, seller, buyer, R, R)
    requires Prime(p) && Prime(q) && p != q && buyer.n == p * q && buyer.n % 2 == 1
    modifies buyer`signatures, buyer`p, buyer`q
    ensures res.Ok? <==> seen && exists j, i :: Useful(buyer, e.L, j, i)
    ensures res.Ok? ==> (buyer.p == p && buyer.q == q) || (buyer.p == q && buyer.q == p)
    ensures res.Err? ==> buyer.p == old(buyer.p) && buyer.q == old(buyer.q)
    ensures finished <==> res.Ok?
    ensures AtPayment(e, c, seller, buyer, R, R)
    ensures seen ==> buyer.HasRows(R, e.L) && FromChain(seller, buyer.signatures)
  {
    var found := ReadChain(seller);
    forall j | 0 <= j < R ensures |buyer.d1[j]| == |buyer.d2[j]| == e.L {
      assert At(j);
    }
    ghost var j0, i0;
    res, finished, j0, i0 := buyer.GetSignature(e.sha, c, R, e.L, seen, found);
    if seen {
      ScanLearns(e, c, seller, buyer, R, p, q, j0, i0);
    }
  }
}
