/**
 The last call of the protocol, composed: the steps of the buyer's threads are what the scan of
 factorise and the refunds of solve_time_lock really yield on the state the payment was made in.
 */
module Served {
  import opened NumberTheory
  import opened SignatureKey
  import opened SellInformation
  import opened Disclosure
  import opened Exchange
  import opened Output
  import Refund
  import Threads = BuyerThreads

  /** How Buyer::factorise ends: with the first pair of GCDs whose product is n, or without any. */
  ghost predicate ScanEnds<P>(e: Env<P>, c: Cipher, buyer: Buyer<P>, R: nat, p: int, q: int)
    requires buyer.HasRows(R, e.L)
    reads buyer
  {
    exists j0, i0 ::
      && 0 <= j0 <= R && 0 <= i0 <= e.L && buyer.QuietBefore(e.sha, c, R, e.L, j0, i0)
      && if p * q == buyer.n then j0 < R && i0 < e.L && buyer.AttemptAt(e.sha, c, R, e.L, j0, i0) == Found(p, q)
         else j0 == R || (i0 < e.L && buyer.AttemptAt(e.sha, c, R, e.L, j0, i0).Throw?)
  }

  /** The outcome a step reports is the one its computation has in state s. */
  ghost predicate Genuine<P, S>(e: Env<P>, c: Cipher, w: Refund.Wallet<P, S>, buyer: Buyer<P>, R: nat, s: Threads.State, step: Threads.Step)
    requires IsEnv(e) && buyer.HasRows(R, e.L) && |buyer.singleBuyers| == R
    reads buyer
  {
    match step
    case Factorise(p, q) => s.signature == Threads.Reading ==> ScanEnds(e, c, buyer, R, p, q)
    case Redeem(ok) => s.lock.Redeeming? && s.lock.j < R ==> (ok <==> Refund.RefundTaken(e, w, buyer.singleBuyers, s.lock.j))
    case _ => true
  }

  ghost predicate GenuineRun<P, S>(e: Env<P>, c: Cipher, w: Refund.Wallet<P, S>, buyer: Buyer<P>, R: nat, start: Threads.State, steps: seq<Threads.Step>)
    requires IsEnv(e) && buyer.HasRows(R, e.L) && |buyer.singleBuyers| == R
    reads buyer
  {
    steps == [] ||
    var front, last := steps[..|steps| - 1], steps[|steps| - 1];
    GenuineRun(e, c, w, buyer, R, start, front) && Genuine(e, c, w, buyer, R, Threads.Run(start, buyer.n, R, front), last)
  }

  ghost predicate SomeUseful<P>(buyer: Buyer<P>, L: nat)
    reads buyer
  {
    exists j, i :: Useful(buyer, L, j, i)
  }

  lemma ScanFindsPrimes<P>(e: Env<P>, c: Cipher, buyer: Buyer<P>, R: nat, p: nat, q: nat, a: int, b: int)
    requires buyer.HasRows(R, e.L) && |buyer.indices| == R && Decided(e.sha, c, buyer, R, e.L, p, q)
    requires ScanEnds(e, c, buyer, R, a, b)
    ensures a * b == buyer.n ==> (a == p && b == q) || (a == q && b == p)
    ensures a * b == buyer.n <==> SomeUseful(buyer, e.L)
  {
    var j0, i0 :|
      && 0 <= j0 <= R && 0 <= i0 <= e.L && buyer.QuietBefore(e.sha, c, R, e.L, j0, i0)
      && if a * b == buyer.n then j0 < R && i0 < e.L && buyer.AttemptAt(e.sha, c, R, e.L, j0, i0) == Found(a, b)
         else j0 == R || (i0 < e.L && buyer.AttemptAt(e.sha, c, R, e.L, j0, i0).Throw?);
    ScanDecided(e.sha, c, buyer, R, e.L, p, q, j0, i0);
  }

  /** Some attempt of the refund was taken by the network, and it was good for the output. */
  ghost predicate Refunded<P, S>(e: Env<P>, w: Refund.Wallet<P, S>, buyers: seq<SingleBuyer<P>>, keys: seq<P>, buyerKey: P)
    requires IsEnv(e) && |keys| == |buyers|
  {
    exists j: nat :: j < |buyers| && Refund.RefundTaken(e, w, buyers, j) && Refund.RefundSpends(e, w, buyers, keys, buyerKey, j)
  }

  /** The facts a genuine run keeps, in terms of what they mean for the buyer. */
  ghost predicate Meaningful<P, S>(e: Env<P>, w: Refund.Wallet<P, S>, buyer: Buyer<P>, keys: seq<P>, buyerKey: P,
                                   p: nat, q: nat, s: Threads.State, steps: seq<Threads.Step>)
    requires IsEnv(e) && |keys| == |buyer.singleBuyers|
    reads buyer
  {
    && (s.signature == Threads.Stored || s.signature == Threads.SignatureDone ==>
          SomeUseful(buyer, e.L) && ((s.p == p && s.q == q) || (s.p == q && s.q == p)))
    && (s.redeemed ==> Refunded(e, w, buyer.singleBuyers, keys, buyerKey))
    && (s.aborted ==> Threads.SeeTransaction(false) in steps || !SomeUseful(buyer, e.L))
  }

  /** The buyer after the payment, reading the seller's signatures and holding a working wallet. */
  ghost predicate Waiting<P, S>(e: Env<P>, c: Cipher, w: Refund.Wallet<P, S>, seller: Seller<P>, buyer: Buyer<P>, R: nat,
                                keys: seq<P>, buyerKey: P, p: nat, q: nat)
    reads seller, buyer
  {
    && IsEnv(e) && IsCipher(c) && AtPayment(e, c, seller, buyer, R, R) && SharedKeys(buyer.singleBuyers, keys)
    && buyer.HasRows(R, e.L) && FromChain(seller, buyer.signatures) && Refund.SignsCorrectly(e, w, buyerKey)
    && Prime(p) && Prime(q) && p != q && buyer.n == p * q && buyer.n % 2 == 1
  }

  // What a step can change of the facts above, and how.
  lemma StepEffects(s: Threads.State, n: int, R: nat, step: Threads.Step)
    ensures var t := Threads.Next(s, n, R, step);
      && (t.signature == Threads.Stored || t.signature == Threads.SignatureDone ==>
            (if s.signature == Threads.Reading then step.Factorise? && step.p * step.q == n && t.p == step.p && t.q == step.q
             else s.signature == t.signature || s.signature == Threads.Stored))
      && (s.signature == Threads.Stored || s.signature == Threads.SignatureDone ==> t.p == s.p && t.q == s.q)
      && (t.redeemed && !s.redeemed ==> step == Threads.Redeem(true) && s.lock.Redeeming?)
      && (t.aborted && !s.aborted ==>
            (step == Threads.SeeTransaction(false) || (s.signature == Threads.Reading && step.Factorise? && step.p * step.q != n)))
  {
  }

  lemma ScanIsMeaningful<P, S>(e: Env<P>, c: Cipher, w: Refund.Wallet<P, S>, seller: Seller<P>, buyer: Buyer<P>, R: nat,
                               keys: seq<P>, buyerKey: P, p: nat, q: nat, a: int, b: int)
    requires Waiting(e, c, w, seller, buyer, R, keys, buyerKey, p, q) && ScanEnds(e, c, buyer, R, a, b)
    ensures a * b == buyer.n ==> (a == p && b == q) || (a == q && b == p)
    ensures a * b == buyer.n <==> SomeUseful(buyer, e.L)
  {
    AllDecided(e, c, seller, buyer, R, p, q);
    ScanFindsPrimes(e, c, buyer, R, p, q, a, b);
  }

  lemma RefundIsMeaningful<P, S>(e: Env<P>, c: Cipher, w: Refund.Wallet<P, S>, seller: Seller<P>, buyer: Buyer<P>, R: nat,
                                 keys: seq<P>, buyerKey: P, p: nat, q: nat, j: nat)
    requires Waiting(e, c, w, seller, buyer, R, keys, buyerKey, p, q) && j < R && Refund.RefundTaken(e, w, buyer.singleBuyers, j)
    ensures Refunded(e, w, buyer.singleBuyers, keys, buyerKey)
  {
    PaidInstances(e, c, seller, buyer, R);
    Refund.AnyInstanceRefunds(e, w, seller.singleSellers, buyer.singleBuyers, keys, buyerKey, j);
  }

  lemma StepIsMeaningful<P, S>(e: Env<P>, c: Cipher, w: Refund.Wallet<P, S>, seller: Seller<P>, buyer: Buyer<P>, R: nat,
                               keys: seq<P>, buyerKey: P, p: nat, q: nat, s: Threads.State, t: Threads.State,
                               steps: seq<Threads.Step>, step: Threads.Step)
    requires Waiting(e, c, w, seller, buyer, R, keys, buyerKey, p, q)
    requires Meaningful(e, w, buyer, keys, buyerKey, p, q, s, steps) && Threads.LockLost(s, R)
    requires Genuine(e, c, w, buyer, R, s, step) && t == Threads.Next(s, buyer.n, R, step)
    ensures Meaningful(e, w, buyer, keys, buyerKey, p, q, t, steps + [step])
  {
    StepEffects(s, buyer.n, R, step);
    if step.Factorise? && s.signature == Threads.Reading {
      ScanIsMeaningful(e, c, w, seller, buyer, R, keys, buyerKey, p, q, step.p, step.q);
    }
    if t.redeemed && !s.redeemed {
      RefundIsMeaningful(e, c, w, seller, buyer, R, keys, buyerKey, p, q, s.lock.j);
    }
  }

  lemma {:induction false} RunIsMeaningful<P, S>(e: Env<P>, c: Cipher, w: Refund.Wallet<P, S>, seller: Seller<P>, buyer: Buyer<P>, R: nat,
                                                 keys: seq<P>, buyerKey: P, p: nat, q: nat, p0: int, q0: int, steps: seq<Threads.Step>)
    requires Waiting(e, c, w, seller, buyer, R, keys, buyerKey, p, q)
    requires GenuineRun(e, c, w, buyer, R, Threads.Initial(p0, q0), steps)
    ensures Meaningful(e, w, buyer, keys, buyerKey, p, q, Threads.Run(Threads.Initial(p0, q0), buyer.n, R, steps), steps)
    decreases |steps|
  {
    if steps != [] {
      var front, last := steps[..|steps| - 1], steps[|steps| - 1];
      assert steps == front + [last];
      RunIsMeaningful(e, c, w, seller, buyer, R, keys, buyerKey, p, q, p0, q0, front);
      Threads.LockCounts(p0, q0, buyer.n, R, front);
      StepIsMeaningful(e, c, w, seller, buyer, R, keys, buyerKey, p, q, Threads.Run(Threads.Initial(p0, q0), buyer.n, R, front),
                       Threads.Run(Threads.Initial(p0, q0), buyer.n, R, steps), front, last);
    }
  }

  /** In every interleaving, the call returns by the signature branch only with the two primes, and by
      the time-lock branch only after the network took a refund that spends the output.  It is cut short
      only if the seller's transaction never came or every index outside the subsets is useless. */
  lemma BuyerIsServed<P, S>(e: Env<P>, c: Cipher, w: Refund.Wallet<P, S>, seller: Seller<P>, buyer: Buyer<P>, R: nat,
                            keys: seq<P>, buyerKey: P, p: nat, q: nat, p0: int, q0: int, steps: seq<Threads.Step>)
    requires Waiting(e, c, w, seller, buyer, R, keys, buyerKey, p, q)
    requires GenuineRun(e, c, w, buyer, R, Threads.Initial(p0, q0), steps)
    ensures var s := Threads.Run(Threads.Initial(p0, q0), buyer.n, R, steps);
      && (s.main == Threads.ReturnedBySignature ==> SomeUseful(buyer, e.L) && ((s.p == p && s.q == q) || (s.p == q && s.q == p)))
      && (s.main == Threads.ReturnedByTimeLock ==> Refunded(e, w, buyer.singleBuyers, keys, buyerKey))
      && (s.aborted ==> Threads.SeeTransaction(false) in steps || !SomeUseful(buyer, e.L))
  {
    RunIsMeaningful(e, c, w, seller, buyer, R, keys, buyerKey, p, q, p0, q0, steps);
    Threads.RunKeepsInvariant(p0, q0, buyer.n, R, steps);
  }

  /** Primes or money, never both: with one spend of the output, a return by the signature brings the two
      primes and no refund, and a return by the time lock a refund and no factor. */
  lemma PrimesOrRefund<P, S>(e: Env<P>, c: Cipher, w: Refund.Wallet<P, S>, seller: Seller<P>, buyer: Buyer<P>, R: nat,
                             keys: seq<P>, buyerKey: P, p: nat, q: nat, p0: int, q0: int, steps: seq<Threads.Step>)
    requires Waiting(e, c, w, seller, buyer, R, keys, buyerKey, p, q)
    requires GenuineRun(e, c, w, buyer, R, Threads.Initial(p0, q0), steps) && Threads.OneSpend(steps)
    ensures var s := Threads.Run(Threads.Initial(p0, q0), buyer.n, R, steps);
      && !s.deadWrite
      && (s.main == Threads.ReturnedBySignature ==> ((s.p == p && s.q == q) || (s.p == q && s.q == p)) && !s.redeemed)
      && (s.main == Threads.ReturnedByTimeLock ==> Refunded(e, w, buyer.singleBuyers, keys, buyerKey) && s.p == p0 && s.q == q0)
  {
    BuyerIsServed(e, c, w, seller, buyer, R, keys, buyerKey, p, q, p0, q0, steps);
    Threads.ServedOnce(p0, q0, buyer.n, R, steps);
  }

  // ---------------------------------------------------------------- both ways are open

  lemma GenuineAppend<P, S>(e: Env<P>, c: Cipher, w: Refund.Wallet<P, S>, buyer: Buyer<P>, R: nat, start: Threads.State,
                            steps: seq<Threads.Step>, step: Threads.Step)
    requires IsEnv(e) && buyer.HasRows(R, e.L) && |buyer.singleBuyers| == R
    requires GenuineRun(e, c, w, buyer, R, start, steps) && Genuine(e, c, w, buyer, R, Threads.Run(start, buyer.n, R, steps), step)
    ensures GenuineRun(e, c, w, buyer, R, start, steps + [step])
    ensures Threads.Run(start, buyer.n, R, steps + [step]) == Threads.Next(Threads.Run(start, buyer.n, R, steps), buyer.n, R, step)
  {
    assert (steps + [step])[..|steps|] == steps;
  }

  // Polling steps report nothing, so they are always genuine.
  lemma {:induction false} GenuinePolling<P, S>(e: Env<P>, c: Cipher, w: Refund.Wallet<P, S>, buyer: Buyer<P>, R: nat, start: Threads.State,
                                                steps: seq<Threads.Step>, k: nat)
    requires IsEnv(e) && buyer.HasRows(R, e.L) && |buyer.singleBuyers| == R && GenuineRun(e, c, w, buyer, R, start, steps)
    ensures GenuineRun(e, c, w, buyer, R, start, steps + seq(k, _ => Threads.Main))
  {
    if k == 0 {
      assert steps + seq(k, _ => Threads.Main) == steps;
    } else {
      GenuinePolling(e, c, w, buyer, R, start, steps, k - 1);
      GenuineAppend(e, c, w, buyer, R, start, steps + seq(k - 1, _ => Threads.Main), Threads.Main);
      assert steps + seq(k - 1, _ => Threads.Main) + [Threads.Main] == steps + seq(k, _ => Threads.Main);
    }
  }

  // The scan of factorise has an outcome.
  lemma ScanHasEnd<P>(e: Env<P>, c: Cipher, buyer: Buyer<P>, R: nat) returns (p: int, q: int)
    requires buyer.HasRows(R, e.L) && buyer.n > 0
    ensures ScanEnds(e, c, buyer, R, p, q)
  {
    p, q := 0, 0;
    var j := 0;
    while j < R
      invariant 0 <= j <= R && buyer.QuietBefore(e.sha, c, R, e.L, j, 0)
    {
      var i := 0;
      while i < e.L
        invariant 0 <= i <= e.L && buyer.RowQuiet(e.sha, c, R, e.L, j, i)
      {
        var a := buyer.AttemptAt(e.sha, c, R, e.L, j, i);
        if a !in QUIET {
          buyer.QuietRow(e.sha, c, R, e.L, j, i);
          AttemptOutcome(c, buyer.n, Keys(e.sha, buyer.signatures[j], e.L)[i], buyer.d1[j][i].m, buyer.d2[j][i].m);
          if a.Found? {
            p, q := a.p, a.q;
          }
          return;
        }
        i := i + 1;
      }
      buyer.QuietRow(e.sha, c, R, e.L, j, i);
      j := j + 1;
    }
  }

  lemma SignatureWay<P, S>(e: Env<P>, c: Cipher, w: Refund.Wallet<P, S>, seller: Seller<P>, buyer: Buyer<P>, R: nat,
                           keys: seq<P>, buyerKey: P, p: nat, q: nat, p0: int, q0: int) returns (steps: seq<Threads.Step>)
    requires Waiting(e, c, w, seller, buyer, R, keys, buyerKey, p, q) && SomeUseful(buyer, e.L)
    ensures GenuineRun(e, c, w, buyer, R, Threads.Initial(p0, q0), steps)
    ensures Threads.Run(Threads.Initial(p0, q0), buyer.n, R, steps).main == Threads.ReturnedBySignature
  {
    var a, b := ScanHasEnd(e, c, buyer, R);
    ScanIsMeaningful(e, c, w, seller, buyer, R, keys, buyerKey, p, q, a, b);
    var start := Threads.Initial(p0, q0);
    steps := [];
    GenuineAppend(e, c, w, buyer, R, start, steps, Threads.SeeTransaction(true));
    steps := steps + [Threads.SeeTransaction(true)];
    GenuineAppend(e, c, w, buyer, R, start, steps, Threads.Factorise(a, b));
    steps := steps + [Threads.Factorise(a, b)];
    GenuineAppend(e, c, w, buyer, R, start, steps, Threads.FinishSignature);
    steps := steps + [Threads.FinishSignature];
    steps := Polled(e, c, w, buyer, R, p0, q0, steps);
  }

  // A genuine run with one flag set is completed by polling.
  lemma Polled<P, S>(e: Env<P>, c: Cipher, w: Refund.Wallet<P, S>, buyer: Buyer<P>, R: nat, p0: int, q0: int, steps: seq<Threads.Step>)
    returns (steps': seq<Threads.Step>)
    requires IsEnv(e) && buyer.HasRows(R, e.L) && |buyer.singleBuyers| == R
    requires GenuineRun(e, c, w, buyer, R, Threads.Initial(p0, q0), steps)
    requires var s := Threads.Run(Threads.Initial(p0, q0), buyer.n, R, steps);
      !s.aborted && !Threads.Returned(s) && s.signatureFinished != s.timeLockFinished
    ensures GenuineRun(e, c, w, buyer, R, Threads.Initial(p0, q0), steps')
    ensures var s := Threads.Run(Threads.Initial(p0, q0), buyer.n, R, steps);
      Threads.Run(Threads.Initial(p0, q0), buyer.n, R, steps').main
        == (if s.signatureFinished then Threads.ReturnedBySignature else Threads.ReturnedByTimeLock)
  {
    var n, start, s := buyer.n, Threads.Initial(p0, q0), Threads.Run(Threads.Initial(p0, q0), buyer.n, R, steps);
    steps' := steps + seq(4, _ => Threads.Main);
    GenuinePolling(e, c, w, buyer, R, start, steps, 4);
    Threads.RunKeepsInvariant(p0, q0, n, R, steps);
    Threads.ReturnsByTheFlag(s, n, R);
    Threads.RunConcat(start, n, R, steps, seq(4, _ => Threads.Main));
    assert seq(4, _ => Threads.Main) == [Threads.Main, Threads.Main] + [Threads.Main, Threads.Main];
    Threads.RunConcat(s, n, R, [Threads.Main, Threads.Main], [Threads.Main, Threads.Main]);
    Threads.RunTwo(s, n, R, Threads.Main, Threads.Main);
    Threads.RunTwo(Threads.Run(s, n, R, [Threads.Main, Threads.Main]), n, R, Threads.Main, Threads.Main);
  }

  // While the network refuses, the refunds before j are genuinely refused.
  lemma {:induction false} RefusalsAreGenuine<P, S>(e: Env<P>, c: Cipher, w: Refund.Wallet<P, S>, buyer: Buyer<P>, R: nat, p0: int, q0: int, j: nat)
    requires IsEnv(e) && buyer.HasRows(R, e.L) && |buyer.singleBuyers| == R && j <= R
    requires forall k: nat :: k < j ==> !Refund.RefundTaken(e, w, buyer.singleBuyers, k)
    ensures GenuineRun(e, c, w, buyer, R, Threads.Initial(p0, q0), Threads.Refusals(j))
    ensures Threads.Run(Threads.Initial(p0, q0), buyer.n, R, Threads.Refusals(j)) == Threads.Initial(p0, q0).(lock := Threads.Forcing(j))
  {
    var start := Threads.Initial(p0, q0);
    if j > 0 {
      RefusalsAreGenuine(e, c, w, buyer, R, p0, q0, j - 1);
      var front := Threads.Refusals(j - 1);
      GenuineAppend(e, c, w, buyer, R, start, front, Threads.Force);
      GenuineAppend(e, c, w, buyer, R, start, front + [Threads.Force], Threads.Redeem(false));
      assert front + [Threads.Force] + [Threads.Redeem(false)] == Threads.Refusals(j);
    }
  }

  lemma TimeLockWay<P, S>(e: Env<P>, c: Cipher, w: Refund.Wallet<P, S>, buyer: Buyer<P>, R: nat, p0: int, q0: int, j: nat)
    returns (steps: seq<Threads.Step>)
    requires IsEnv(e) && buyer.HasRows(R, e.L) && |buyer.singleBuyers| == R && j < R
    requires Refund.RefundTaken(e, w, buyer.singleBuyers, j) && forall k: nat :: k < j ==> !Refund.RefundTaken(e, w, buyer.singleBuyers, k)
    ensures GenuineRun(e, c, w, buyer, R, Threads.Initial(p0, q0), steps)
    ensures Threads.Run(Threads.Initial(p0, q0), buyer.n, R, steps).main == Threads.ReturnedByTimeLock
  {
    var start := Threads.Initial(p0, q0);
    RefusalsAreGenuine(e, c, w, buyer, R, p0, q0, j);
    steps := Threads.Refusals(j);
    GenuineAppend(e, c, w, buyer, R, start, steps, Threads.Force);
    steps := steps + [Threads.Force];
    GenuineAppend(e, c, w, buyer, R, start, steps, Threads.Redeem(true));
    steps := steps + [Threads.Redeem(true)];
    GenuineAppend(e, c, w, buyer, R, start, steps, Threads.FinishLock);
    steps := steps + [Threads.FinishLock];
    steps := Polled(e, c, w, buyer, R, p0, q0, steps);
  }

  lemma FirstTaken<P, S>(e: Env<P>, w: Refund.Wallet<P, S>, buyers: seq<SingleBuyer<P>>, j: nat) returns (j0: nat)
    requires IsEnv(e) && j < |buyers| && Refund.RefundTaken(e, w, buyers, j)
    ensures j0 < |buyers| && Refund.RefundTaken(e, w, buyers, j0) && forall k: nat :: k < j0 ==> !Refund.RefundTaken(e, w, buyers, k)
  {
    j0 := 0;
    while !Refund.RefundTaken(e, w, buyers, j0)
      invariant j0 <= j && forall k: nat :: k < j0 ==> !Refund.RefundTaken(e, w, buyers, k)
      decreases j - j0
    {
      j0 := j0 + 1;
    }
  }

  /** The call can return by the signature exactly when some index is useful, and by the time lock exactly
      when the network takes one of the refunds. */
  lemma WaysToReturn<P, S>(e: Env<P>, c: Cipher, w: Refund.Wallet<P, S>, seller: Seller<P>, buyer: Buyer<P>, R: nat,
                           keys: seq<P>, buyerKey: P, p: nat, q: nat, p0: int, q0: int)
    requires Waiting(e, c, w, seller, buyer, R, keys, buyerKey, p, q)
    ensures SomeUseful(buyer, e.L) <==> exists steps ::
      GenuineRun(e, c, w, buyer, R, Threads.Initial(p0, q0), steps)
      && Threads.Run(Threads.Initial(p0, q0), buyer.n, R, steps).main == Threads.ReturnedBySignature
    ensures (exists j: nat :: j < R && Refund.RefundTaken(e, w, buyer.singleBuyers, j)) <==> exists steps ::
      GenuineRun(e, c, w, buyer, R, Threads.Initial(p0, q0), steps)
      && Threads.Run(Threads.Initial(p0, q0), buyer.n, R, steps).main == Threads.ReturnedByTimeLock
  {
    if SomeUseful(buyer, e.L) {
      var steps := SignatureWay(e, c, w, seller, buyer, R, keys, buyerKey, p, q, p0, q0);
    }
    if j: nat :| j < R && Refund.RefundTaken(e, w, buyer.singleBuyers, j) {
      var j0 := FirstTaken(e, w, buyer.singleBuyers, j);
      var steps := TimeLockWay(e, c, w, buyer, R, p0, q0, j0);
    }
    forall steps | GenuineRun(e, c, w, buyer, R, Threads.Initial(p0, q0), steps)
      ensures var s := Threads.Run(Threads.Initial(p0, q0), buyer.n, R, steps);
        && (s.main == Threads.ReturnedBySignature ==> SomeUseful(buyer, e.L))
        && (s.main == Threads.ReturnedByTimeLock ==> Refunded(e, w, buyer.singleBuyers, keys, buyerKey))
    {
      BuyerIsServed(e, c, w, seller, buyer, R, keys, buyerKey, p, q, p0, q0, steps);
    }
  }
}
