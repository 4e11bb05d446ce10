/**
 SellInformationProtocol::exec: which keys and which committed ciphertexts the buyer has seen when
 it comes to pay.  The rows of one kept instance are the L key commitments and the two rows of L
 commitments to encrypted roots.
 */
module Disclosure {
  import opened NumberTheory
  import opened Outcome
  import opened Bytes
  import opened Sorting
  import opened SquareRoot
  import opened ShaCommitment
  import opened CutAndChoose
  import opened SignatureKey
  import opened SellInformation

  datatype Senders = Senders(keys: seq<Sender>, d1: seq<Sender>, d2: seq<Sender>)

  datatype Receivers = Receivers(keys: seq<Receiver>, d1: seq<Receiver>, d2: seq<Receiver>)

  predicate Matching(sha: Hash, s: Senders, r: Receivers, L: nat) {
    && |s.keys| == |s.d1| == |s.d2| == |r.keys| == |r.d1| == |r.d2| == L
    && forall i :: 0 <= i < L ==>
      Committed(sha, s.keys[i], r.keys[i]) && Committed(sha, s.d1[i], r.d1[i]) && Committed(sha, s.d2[i], r.d2[i])
  }

  predicate Closed(r: Receivers, i: nat)
    requires i < |r.keys| && i < |r.d1| && i < |r.d2|
  {
    r.keys[i].m == [] && r.d1[i].m == [] && r.d2[i].m == []
  }

  /** The key and exactly one ciphertext are open. */
  predicate OneOpen(s: Senders, r: Receivers, i: nat, which: nat)
    requires i < |r.keys| && i < |r.d1| && i < |r.d2| && i < |s.keys| && i < |s.d1| && i < |s.d2|
  {
    && r.keys[i].m == s.keys[i].m
    && (if which == 1 then r.d1[i].m == s.d1[i].m && r.d2[i].m == [] else r.d1[i].m == [] && r.d2[i].m == s.d2[i].m)
  }

  /** Both ciphertexts are open and the key is not. */
  predicate BothOpen(s: Senders, r: Receivers, i: nat)
    requires i < |r.keys| && i < |r.d1| && i < |r.d2| && i < |s.keys| && i < |s.d1| && i < |s.d2|
  {
    r.keys[i].m == [] && r.d1[i].m == s.d1[i].m && r.d2[i].m == s.d2[i].m
  }

  function Which(x: int, r2: int): nat {
    if x == r2 then 2 else 1
  }

  /** What the seller holds for one instance: ciphertexts, under its keys, of honest roots of the
      buyer's squares. */
  predicate HonestSenders(n: nat, c: Cipher, s: Senders, x: seq<int>, r1: seq<int>, r2: seq<int>, L: nat)
    requires n > 0
  {
    && |s.keys| == |s.d1| == |s.d2| == |x| == |r1| == |r2| == L
    && forall i {:trigger At(i)} :: 0 <= i < L && At(i) ==> HonestSender(n, c, s.keys[i].m, s.d1[i].m, s.d2[i].m, x[i], r1[i], r2[i])
  }

  predicate HonestSender(n: nat, c: Cipher, key: seq<byte>, m1: seq<byte>, m2: seq<byte>, x: int, r1: int, r2: int)
    requires n > 0
  {
    |key| == AES_LENGTH && HonestRoots(n, x, r1, r2) && m1 == RootCipher(c, key, r1) && m2 == RootCipher(c, key, r2)
  }

  // ---------------------------------------------------------------- the opening loops

  method CommitRow(sha: Hash, s: seq<Sender>, r: seq<Receiver>, seed: nat -> seq<byte>)
    returns (s': seq<Sender>, r': seq<Receiver>)
    requires |s| == |r|
    ensures |s'| == |r'| == |s|
    ensures forall i :: 0 <= i < |s| ==> s'[i].m == s[i].m && r'[i].m == r[i].m && Committed(sha, s'[i], r'[i])
    ensures forall i :: 0 <= i < |s| ==> s'[i].seed == seed(i)
  {
    s', r' := [], [];
    for i := 0 to |s|
      invariant |s'| == |r'| == i
      invariant forall k :: 0 <= k < i ==> s'[k].m == s[k].m && r'[k].m == r[k].m && Committed(sha, s'[k], r'[k])
      invariant forall k :: 0 <= k < i ==> s'[k].seed == seed(k)
    {
      var (a, b) := Exec(sha, s[i], r[i], seed(i));
      s', r' := s' + [a], r' + [b];
    }
  }

  /** The ciphertext m decrypts under the key to x. */
  predicate ShowsRoot(c: Cipher, key: seq<byte>, x: int, m: seq<byte>) {
    |key| == AES_LENGTH && c.dec(key, m).Ok? && Decode(c.dec(key, m).value) == x
  }

  /** Whether one index of the subset passes: its key and the ciphertext the seller names open, and the
      ciphertext decrypts to the buyer's value. */
  predicate Opens(sha: Hash, c: Cipher, s: Senders, r: Receivers, x: int, ind: nat, which: nat)
    requires ind < |r.keys| && ind < |r.d1| && ind < |r.d2| && ind < |s.keys| && ind < |s.d1| && ind < |s.d2|
  {
    && Open(sha, s.keys[ind], r.keys[ind]).Ok?
    && (which == 1 || which == 2)
    && (which == 1 ==> Open(sha, s.d1[ind], r.d1[ind]).Ok? && ShowsRoot(c, s.keys[ind].m, x, s.d1[ind].m))
    && (which == 2 ==> Open(sha, s.d2[ind], r.d2[ind]).Ok? && ShowsRoot(c, s.keys[ind].m, x, s.d2[ind].m))
  }

  /** r' is r with the key and the named ciphertext of one index opened. */
  predicate IndexOpened(sha: Hash, s: Senders, r: Receivers, r': Receivers, ind: nat, which: nat)
    requires ind < |r.keys| && ind < |r.d1| && ind < |r.d2| && ind < |s.keys| && ind < |s.d1| && ind < |s.d2|
    requires ind < |r'.keys| && ind < |r'.d1| && ind < |r'.d2|
  {
    && Open(sha, s.keys[ind], r.keys[ind]) == Ok(r'.keys[ind])
    && (if which == 1 then Open(sha, s.d1[ind], r.d1[ind]) == Ok(r'.d1[ind]) else r'.d1[ind] == r.d1[ind])
    && (if which == 1 then r'.d2[ind] == r.d2[ind] else Open(sha, s.d2[ind], r.d2[ind]) == Ok(r'.d2[ind]))
  }

  /** One index of the subset: open its key and the named ciphertext, and check the root. */
  method OpenOne(sha: Hash, c: Cipher, s: Senders, r: Receivers, x: int, ind: nat, which: nat)
    returns (res: Result<()>, r': Receivers)
    requires ind < |r.keys| && ind < |r.d1| && ind < |r.d2| && ind < |s.keys| && ind < |s.d1| && ind < |s.d2|
    ensures res.Ok? <==> Opens(sha, c, s, r, x, ind, which)
    ensures OnlyAt(r, r', ind) && (res.Ok? ==> IndexOpened(sha, s, r, r', ind, which))
  {
    r' := r;
    var opened' := Open(sha, s.keys[ind], r.keys[ind]);
    if opened'.Err? {
      return Err(opened'.error), r';
    }
    r' := r'.(keys := r'.keys[ind := opened'.value]);
    var key, m := opened'.value.m, [];
    match which {
      case 1 =>
        var d := Open(sha, s.d1[ind], r.d1[ind]);
        if d.Err? {
          return Err(d.error), r';
        }
        r' := r'.(d1 := r'.d1[ind := d.value]);
        m := d.value.m;
      case 2 =>
        var d := Open(sha, s.d2[ind], r.d2[ind]);
        if d.Err? {
          return Err(d.error), r';
        }
        r' := r'.(d2 := r'.d2[ind := d.value]);
        m := d.value.m;
      case _ =>
        return Err("matching roots to values didn't work"), r';
    }
    res := VerifyRoot(c, key, x, m);
  }

  lemma HonestRootVerifies(n: nat, c: Cipher, key: seq<byte>, m1: seq<byte>, m2: seq<byte>, x: int, r1: int, r2: int)
    requires n > 0 && IsCipher(c) && HonestSender(n, c, key, m1, m2, x, r1, r2)
    ensures VerifyRoot(c, key, x, if Which(x, r2) == 1 then m1 else m2) == Ok(())
    ensures key != [] && m1 != [] && m2 != []
  {
    RootCipherDecrypts(c, key, r1);
    RootCipherDecrypts(c, key, r2);
  }

  /** The seller's answer to the buyer's subset is always 1 or 2, never the placeholder. */
  predicate AnswersHonest(x: seq<int>, r2: seq<int>, indices: seq<int>, answers: seq<nat>)
    requires |x| == |r2| && InRange(indices, |x|)
  {
    && |answers| == |indices|
    && forall i :: 0 <= i < |indices| ==>
      assert indices[i] in indices; answers[i] == Which(x[indices[i]], r2[indices[i]])
  }

  ghost predicate SubsetOpened(s: Senders, r: Receivers, x: seq<int>, r2: seq<int>, indices: seq<int>, upTo: nat, L: nat)
    requires |s.keys| == |s.d1| == |s.d2| == |r.keys| == |r.d1| == |r.d2| == |x| == |r2| == L && upTo <= |indices|
  {
    forall i :: 0 <= i < L ==> if i in indices[..upTo] then OneOpen(s, r, i, Which(x[i], r2[i])) else Closed(r, i)
  }

  // The ciphertext named for each index decrypts to the buyer's own value.
  predicate RootsVerify(c: Cipher, s: Senders, x: seq<int>, r2: seq<int>, L: nat)
    requires |s.keys| == |s.d1| == |s.d2| == |x| == |r2| == L
  {
    forall i :: 0 <= i < L ==>
      VerifyRoot(c, s.keys[i].m, x[i], if Which(x[i], r2[i]) == 1 then s.d1[i].m else s.d2[i].m) == Ok(())
  }

  lemma HonestRootsVerify(n: nat, c: Cipher, s: Senders, x: seq<int>, r1: seq<int>, r2: seq<int>, L: nat)
    requires n > 0 && IsCipher(c) && HonestSenders(n, c, s, x, r1, r2, L)
    ensures RootsVerify(c, s, x, r2, L)
  {
    forall i | 0 <= i < L
      ensures VerifyRoot(c, s.keys[i].m, x[i], if Which(x[i], r2[i]) == 1 then s.d1[i].m else s.d2[i].m) == Ok(())
    {
      assert At(i);
      HonestRootVerifies(n, c, s.keys[i].m, s.d1[i].m, s.d2[i].m, x[i], r1[i], r2[i]);
    }
  }

  // r' differs from r at one index only.
  predicate OnlyAt(r: Receivers, r': Receivers, ind: nat) {
    && |r'.keys| == |r.keys| && |r'.d1| == |r.d1| && |r'.d2| == |r.d2|
    && (forall k :: 0 <= k < |r.keys| && k != ind ==> r'.keys[k] == r.keys[k])
    && (forall k :: 0 <= k < |r.d1| && k != ind ==> r'.d1[k] == r.d1[k])
    && forall k :: 0 <= k < |r.d2| && k != ind ==> r'.d2[k] == r.d2[k]
  }

  /** The rows are complete; nothing else is asked of a seller. */
  predicate RowsOf(s: Senders, r: Receivers, L: nat) {
    |s.keys| == |s.d1| == |s.d2| == |r.keys| == |r.d1| == |r.d2| == L
  }

  /** Every index of the subset up to position `upTo` passes. */
  ghost predicate SubsetOpens(sha: Hash, c: Cipher, s: Senders, r: Receivers, x: seq<int>, indices: seq<int>, answers: seq<nat>, upTo: int, L: nat)
    requires RowsOf(s, r, L) && |x| == L && InRange(indices, L) && |answers| == |indices| && upTo <= |indices|
  {
    forall i {:trigger At(i)} :: 0 <= i < upTo && At(i) ==>
      assert indices[i] in indices; Opens(sha, c, s, r, x[indices[i]], indices[i], answers[i])
  }

  /** r' is r with the indices of the subset up to position `upTo` opened as the answers say, and no others. */
  ghost predicate SubsetDone(sha: Hash, s: Senders, r: Receivers, r': Receivers, indices: seq<int>, answers: seq<nat>, upTo: int, L: nat)
    requires RowsOf(s, r, L) && InRange(indices, L) && |answers| == |indices| && 0 <= upTo <= |indices|
  {
    && RowsOf(s, r', L)
    && (forall i {:trigger At(i)} :: 0 <= i < upTo && At(i) ==>
         assert indices[i] in indices; IndexOpened(sha, s, r, r', indices[i], answers[i]))
    && forall ind {:trigger At(ind)} :: 0 <= ind < L && ind !in indices[..upTo] && At(ind) ==>
         r'.keys[ind] == r.keys[ind] && r'.d1[ind] == r.d1[ind] && r'.d2[ind] == r.d2[ind]
  }

  lemma SubsetStep(sha: Hash, s: Senders, r: Receivers, r1: Receivers, r2: Receivers, indices: seq<int>, answers: seq<nat>, i: nat, L: nat)
    requires RowsOf(s, r, L) && InRange(indices, L) && |answers| == |indices| && i < |indices| && Distinct(indices)
    requires SubsetDone(sha, s, r, r1, indices, answers, i, L)
    requires assert indices[i] in indices; OnlyAt(r1, r2, indices[i]) && IndexOpened(sha, s, r1, r2, indices[i], answers[i])
    ensures SubsetDone(sha, s, r, r2, indices, answers, i + 1, L)
  {
    assert indices[i] in indices;
    FirstVisit(indices, i);
    assert At(indices[i]);
    assert indices[..i + 1] == indices[..i] + [indices[i]];
    forall k | 0 <= k < i + 1 && At(k)
      ensures assert indices[k] in indices; IndexOpened(sha, s, r, r2, indices[k], answers[k])
    {
      assert indices[k] in indices;
      assert k < i ==> indices[k] != indices[i];
    }
  }

  // An index that has not been visited passes now exactly when it passed at the start.
  lemma StillOpens(sha: Hash, c: Cipher, s: Senders, r: Receivers, r': Receivers, x: int, indices: seq<int>, answers: seq<nat>, i: nat, L: nat)
    requires RowsOf(s, r, L) && InRange(indices, L) && |answers| == |indices| && i < |indices| && Distinct(indices)
    requires SubsetDone(sha, s, r, r', indices, answers, i, L)
    ensures assert indices[i] in indices; Opens(sha, c, s, r', x, indices[i], answers[i]) == Opens(sha, c, s, r, x, indices[i], answers[i])
  {
    assert indices[i] in indices;
    FirstVisit(indices, i);
    assert At(indices[i]);
  }

  /** The loop over the subset, for whatever the seller holds and answers: it passes exactly when every
      index passes, and opens nothing but what the answers name. */
  method OpenSubset(sha: Hash, c: Cipher, s: Senders, r: Receivers, x: seq<int>, indices: seq<int>, answers: seq<nat>, L: nat)
    returns (res: Result<()>, r': Receivers)
    requires RowsOf(s, r, L) && |x| == L && InRange(indices, L) && Distinct(indices) && |answers| == |indices|
    ensures res.Ok? <==> SubsetOpens(sha, c, s, r, x, indices, answers, |indices|, L)
    ensures res.Ok? ==> SubsetDone(sha, s, r, r', indices, answers, |indices|, L)
  {
    res, r' := Ok(()), r;
    var i := 0;
    while i < |indices|
      invariant 0 <= i <= |indices|
      invariant res.Ok? && SubsetOpens(sha, c, s, r, x, indices, answers, i, L) && SubsetDone(sha, s, r, r', indices, answers, i, L)
    {
      assert indices[i] in indices;
      ghost var before := r';
      StillOpens(sha, c, s, r, r', x[indices[i]], indices, answers, i, L);
      res, r' := OpenOne(sha, c, s, r', x[indices[i]], indices[i], answers[i]);
      assert At(i);
      if res.Err? {
        return;
      }
      SubsetStep(sha, s, r, before, r', indices, answers, i, L);
      i := i + 1;
    }
  }

  /** What a buyer can rely on once its subset passed, even against a seller that answers at will: every
      index of the subset shows a key under which one shown ciphertext decrypts to the buyer's value. */
  lemma PassedSubset(sha: Hash, c: Cipher, s: Senders, r: Receivers, r': Receivers, x: seq<int>, indices: seq<int>, answers: seq<nat>, i: nat, L: nat)
    requires RowsOf(s, r, L) && |x| == L && InRange(indices, L) && |answers| == |indices| && i < |indices|
    requires SubsetOpens(sha, c, s, r, x, indices, answers, |indices|, L) && SubsetDone(sha, s, r, r', indices, answers, |indices|, L)
    ensures assert indices[i] in indices; var ind: nat := indices[i];
      var key, m := r'.keys[ind].m, if answers[i] == 1 then r'.d1[ind].m else r'.d2[ind].m;
      (answers[i] == 1 || answers[i] == 2) && |key| == AES_LENGTH && c.dec(key, m).Ok? && Decode(c.dec(key, m).value) == x[ind]
  {
    assert indices[i] in indices;
    assert At(i);
  }

  /** A seller that names the encryption of another root than the buyer's value does not pass. */
  lemma WrongRootThrows(sha: Hash, c: Cipher, s: Senders, r: Receivers, x: int, root: nat, ind: nat, which: nat)
    requires ind < |r.keys| && ind < |r.d1| && ind < |r.d2| && ind < |s.keys| && ind < |s.d1| && ind < |s.d2|
    requires IsCipher(c) && |s.keys[ind].m| == AES_LENGTH && root != x
    requires which == 1 ==> s.d1[ind].m == RootCipher(c, s.keys[ind].m, root)
    requires which == 2 ==> s.d2[ind].m == RootCipher(c, s.keys[ind].m, root)
    ensures !Opens(sha, c, s, r, x, ind, which)
  {
    RootCipherDecrypts(c, s.keys[ind].m, root);
  }

  // Honest rows and answers pass, and leave the subset as SubsetOpened says.
  lemma HonestSubset(sha: Hash, c: Cipher, s: Senders, r: Receivers, x: seq<int>, r2: seq<int>, indices: seq<int>, answers: seq<nat>, L: nat)
    requires |x| == |r2| == L && Matching(sha, s, r, L) && RootsVerify(c, s, x, r2, L)
    requires InRange(indices, L) && AnswersHonest(x, r2, indices, answers)
    ensures SubsetOpens(sha, c, s, r, x, indices, answers, |indices|, L)
  {
    forall i | 0 <= i < |indices| && At(i)
      ensures assert indices[i] in indices; Opens(sha, c, s, r, x[indices[i]], indices[i], answers[i])
    {
      assert indices[i] in indices;
      var ind: nat := indices[i];
      assert answers[i] == Which(x[ind], r2[ind]);
      assert VerifyRoot(c, s.keys[ind].m, x[ind], if Which(x[ind], r2[ind]) == 1 then s.d1[ind].m else s.d2[ind].m) == Ok(());
    }
  }

  lemma OneIndexDone(sha: Hash, s: Senders, r: Receivers, r': Receivers, ind: nat, which: nat, L: nat)
    requires Matching(sha, s, r, L) && RowsOf(s, r', L) && ind < L && Closed(r, ind) && (which == 1 || which == 2)
    requires IndexOpened(sha, s, r, r', ind, which)
    ensures OneOpen(s, r', ind, which)
    ensures Committed(sha, s.keys[ind], r'.keys[ind]) && Committed(sha, s.d1[ind], r'.d1[ind]) && Committed(sha, s.d2[ind], r'.d2[ind])
  {
  }

  lemma HonestSubsetDone(sha: Hash, s: Senders, r: Receivers, r': Receivers, x: seq<int>, r2: seq<int>, indices: seq<int>, answers: seq<nat>, L: nat)
    requires |x| == |r2| == L && Matching(sha, s, r, L) && InRange(indices, L) && AnswersHonest(x, r2, indices, answers)
    requires forall i :: 0 <= i < L ==> Closed(r, i)
    requires SubsetDone(sha, s, r, r', indices, answers, |indices|, L)
    ensures Matching(sha, s, r', L) && SubsetOpened(s, r', x, r2, indices, |indices|, L)
  {
    assert indices[..|indices|] == indices;
    forall ind | 0 <= ind < L
      ensures Committed(sha, s.keys[ind], r'.keys[ind]) && Committed(sha, s.d1[ind], r'.d1[ind]) && Committed(sha, s.d2[ind], r'.d2[ind])
      ensures if ind in indices then OneOpen(s, r', ind, Which(x[ind], r2[ind])) else Closed(r', ind)
    {
      assert At(ind) && Closed(r, ind);
      if ind in indices {
        var i :| 0 <= i < |indices| && indices[i] == ind;
        assert At(i);
        OneIndexDone(sha, s, r, r', ind, answers[i], L);
      }
    }
  }

  lemma FirstVisit(indices: seq<int>, i: nat)
    requires Distinct(indices) && i < |indices|
    ensures indices[i] !in indices[..i]
  {
  }

  ghost predicate AllOpened(s: Senders, r: Receivers, x: seq<int>, r2: seq<int>, indices: seq<int>, upTo: nat, L: nat)
    requires |s.keys| == |s.d1| == |s.d2| == |r.keys| == |r.d1| == |r.d2| == |x| == |r2| == L
  {
    forall i :: 0 <= i < L ==>
      if i in indices then OneOpen(s, r, i, Which(x[i], r2[i])) else if i < upTo then BothOpen(s, r, i) else Closed(r, i)
  }

  /** Both ciphertext commitments of every index outside the subset, below `upTo`, open. */
  ghost predicate RestOpens(sha: Hash, s: Senders, r: Receivers, indices: seq<int>, upTo: int, L: nat)
    requires RowsOf(s, r, L) && upTo <= L
  {
    forall ind {:trigger At(ind)} :: 0 <= ind < upTo && ind !in indices && At(ind) ==>
      Open(sha, s.d1[ind], r.d1[ind]).Ok? && Open(sha, s.d2[ind], r.d2[ind]).Ok?
  }

  /** r' is r with these commitments opened; no key and nothing of the subset is touched. */
  ghost predicate RestDone(sha: Hash, s: Senders, r: Receivers, r': Receivers, indices: seq<int>, upTo: int, L: nat)
    requires RowsOf(s, r, L) && upTo <= L
  {
    && RowsOf(s, r', L) && r'.keys == r.keys
    && forall ind {:trigger At(ind)} :: 0 <= ind < L && At(ind) ==>
      if ind < upTo && ind !in indices then Open(sha, s.d1[ind], r.d1[ind]) == Ok(r'.d1[ind]) && Open(sha, s.d2[ind], r.d2[ind]) == Ok(r'.d2[ind])
      else r'.d1[ind] == r.d1[ind] && r'.d2[ind] == r.d2[ind]
  }

  /** The loop over the other indices, for any rows: it throws exactly when one of their commitments
      does not open. */
  method OpenRest(sha: Hash, s: Senders, r: Receivers, indices: seq<int>, L: nat)
    returns (res: Result<()>, r': Receivers)
    requires RowsOf(s, r, L)
    ensures res.Ok? <==> RestOpens(sha, s, r, indices, L, L)
    ensures res.Ok? ==> RestDone(sha, s, r, r', indices, L, L)
  {
    res, r' := Ok(()), r;
    var ind := 0;
    while ind < L
      invariant 0 <= ind <= L
      invariant res.Ok? && RestOpens(sha, s, r, indices, ind, L) && RestDone(sha, s, r, r', indices, ind, L)
    {
      assert At(ind);
      if ind !in indices {
        var first, second := Open(sha, s.d1[ind], r'.d1[ind]), Open(sha, s.d2[ind], r'.d2[ind]);
        if first.Err? || second.Err? {
          res := Err("sha commitment open failed");
          return;
        }
        r' := r'.(d1 := r'.d1[ind := first.value], d2 := r'.d2[ind := second.value]);
      }
      ind := ind + 1;
    }
  }

  // Honest rows pass, and the round ends as AllOpened says.
  lemma HonestRest(sha: Hash, s: Senders, r: Receivers, indices: seq<int>, L: nat)
    requires Matching(sha, s, r, L)
    ensures RestOpens(sha, s, r, indices, L, L)
  {
  }

  lemma HonestRestDone(sha: Hash, s: Senders, r: Receivers, r': Receivers, x: seq<int>, r2: seq<int>, indices: seq<int>, L: nat)
    requires |x| == |r2| == L && Matching(sha, s, r, L) && SubsetOpened(s, r, x, r2, indices, |indices|, L)
    requires RestDone(sha, s, r, r', indices, L, L)
    ensures Matching(sha, s, r', L) && AllOpened(s, r', x, r2, indices, L, L)
  {
    assert indices[..|indices|] == indices;
    forall ind | 0 <= ind < L
      ensures Committed(sha, s.keys[ind], r'.keys[ind]) && Committed(sha, s.d1[ind], r'.d1[ind]) && Committed(sha, s.d2[ind], r'.d2[ind])
      ensures if ind in indices then OneOpen(s, r', ind, Which(x[ind], r2[ind])) else BothOpen(s, r', ind)
    {
      assert At(ind);
    }
  }

  // ---------------------------------------------------------------- one round

  /** The draws of one round: the buyer's values, the seller's order of the roots, the commitment
      seeds, and the shuffled indices. */
  datatype RoundDraws = RoundDraws(x: seq<int>, swaps: seq<bool>, seed1: nat -> seq<byte>, seed2: nat -> seq<byte>, shuffle: seq<int>)

  predicate RoundDrawsInRange(n: int, L: nat, d: RoundDraws) {
    && |d.x| == L && (forall i :: 0 <= i < L ==> 0 <= d.x[i] <= n / 2)
    && |d.swaps| == L && multiset(d.shuffle) == multiset(Iota(L))
  }

  predicate SeededRow(seed: nat -> seq<byte>, s: seq<Sender>) {
    forall i :: 0 <= i < |s| ==> s[i].seed == seed(i)
  }

  predicate KeySized(keys: seq<Sender>) {
    forall i :: 0 <= i < |keys| ==> |keys[i].m| == AES_LENGTH
  }

  /** d holds the encryptions of a row of roots under a row of keys. */
  predicate EncryptedRow(c: Cipher, keys: seq<Sender>, roots: seq<int>, d: seq<Sender>) {
    |keys| == |roots| == |d| && forall i :: 0 <= i < |d| ==> d[i].m == RootCipher(c, keys[i].m, roots[i])
  }

  predicate SquareRow(n: int, x: seq<int>, y: seq<int>)
    requires n > 0
  {
    |x| == |y| && forall i :: 0 <= i < |x| ==> y[i] == (x[i] * x[i]) % n
  }

  predicate SameMessages(s: seq<Sender>, s': seq<Sender>) {
    |s| == |s'| && forall i :: 0 <= i < |s| ==> s'[i].m == s[i].m
  }

  lemma EncryptedStays(c: Cipher, keys: seq<Sender>, roots: seq<int>, d: seq<Sender>, d': seq<Sender>)
    requires EncryptedRow(c, keys, roots, d) && SameMessages(d, d')
    ensures EncryptedRow(c, keys, roots, d')
  {
  }

  /** The encryptions of the roots become the messages of the commitments. */
  method EncryptAndSetup<P>(c: Cipher, seller: Seller<P>, ghost R: nat, j: nat, L: nat)
    returns (res: Result<()>)
    requires seller.Shaped(R) && j < R && |seller.r1[j]| == |seller.r2[j]| == L
    requires j < |seller.singleSellers| && |seller.singleSellers[j].keysCommits| == L && KeySized(seller.singleSellers[j].keysCommits)
    modifies seller`c1, seller`c2, seller`d1, seller`d2
    ensures res.Ok? && seller.Shaped(R)
    ensures EncryptedRow(c, seller.singleSellers[j].keysCommits, seller.r1[j], seller.d1[j])
    ensures EncryptedRow(c, seller.singleSellers[j].keysCommits, seller.r2[j], seller.d2[j])
    ensures seller.d1 == old(seller.d1)[j := seller.d1[j]] && seller.d2 == old(seller.d2)[j := seller.d2[j]]
  {
    res := seller.EncryptRoots(R, j, c);
    if res.Err? {
      return;
    }
    seller.SetupCommit(R, j);
  }

  method CommitBoth<P>(sha: Hash, seller: Seller<P>, buyer: Buyer<P>, ghost R: nat, j: nat, L: nat, d: RoundDraws)
    requires seller.Shaped(R) && buyer.Shaped(R) && j < R
    requires |seller.d1[j]| == |seller.d2[j]| == |buyer.d1[j]| == |buyer.d2[j]| == L
    modifies seller`d1, seller`d2, buyer`d1, buyer`d2
    ensures seller.Shaped(R) && buyer.Shaped(R) && |seller.d1[j]| == |seller.d2[j]| == |buyer.d1[j]| == |buyer.d2[j]| == L
    ensures forall i :: 0 <= i < L ==> Committed(sha, seller.d1[j][i], buyer.d1[j][i]) && Committed(sha, seller.d2[j][i], buyer.d2[j][i])
    ensures SameMessages(old(seller.d1[j]), seller.d1[j]) && SameMessages(old(seller.d2[j]), seller.d2[j])
    ensures forall i :: 0 <= i < L ==> buyer.d1[j][i].m == old(buyer.d1[j])[i].m && buyer.d2[j][i].m == old(buyer.d2[j])[i].m
    ensures buyer.d1 == old(buyer.d1)[j := buyer.d1[j]] && buyer.d2 == old(buyer.d2)[j := buyer.d2[j]]
    ensures seller.d1 == old(seller.d1)[j := seller.d1[j]] && seller.d2 == old(seller.d2)[j := seller.d2[j]]
    ensures SeededRow(d.seed1, seller.d1[j]) && SeededRow(d.seed2, seller.d2[j])
  {
    var s1, b1 := CommitRow(sha, seller.d1[j], buyer.d1[j], d.seed1);
    var s2, b2 := CommitRow(sha, seller.d2[j], buyer.d2[j], d.seed2);
    seller.d1, seller.d2 := seller.d1[j := s1], seller.d2[j := s2];
    buyer.d1, buyer.d2 := buyer.d1[j := b1], buyer.d2[j := b2];
  }

  /** Squares, roots, encryptions and commitments of one round. */
  method CommitRoots<P>(sha: Hash, c: Cipher, seller: Seller<P>, buyer: Buyer<P>, ghost R: nat, j: nat, L: nat, d: RoundDraws)
    returns (res: Result<()>)
    requires seller.Shaped(R) && buyer.Shaped(R) && seller.n == buyer.n && Valid(seller.squareRoot)
    requires j < R && j < |seller.singleSellers| && |seller.singleSellers[j].keysCommits| == L && KeySized(seller.singleSellers[j].keysCommits)
    requires |buyer.d1[j]| == |buyer.d2[j]| == L && RoundDrawsInRange(buyer.n, L, d)
    modifies seller`y, seller`r1, seller`r2, seller`c1, seller`c2, seller`d1, seller`d2, buyer`x, buyer`y, buyer`d1, buyer`d2
    ensures res.Ok? && seller.Shaped(R) && buyer.Shaped(R)
    ensures buyer.x == old(buyer.x)[j := d.x] && SquareRow(seller.n, d.x, seller.y[j])
    ensures seller.y == old(seller.y)[j := seller.y[j]] && seller.r1 == old(seller.r1)[j := seller.r1[j]] && seller.r2 == old(seller.r2)[j := seller.r2[j]]
    ensures FoundRow(seller.squareRoot, seller.y[j], d.swaps, seller.r1[j], seller.r2[j])
    ensures EncryptedRow(c, seller.singleSellers[j].keysCommits, seller.r1[j], seller.d1[j])
    ensures EncryptedRow(c, seller.singleSellers[j].keysCommits, seller.r2[j], seller.d2[j])
    ensures |buyer.d1[j]| == |buyer.d2[j]| == L
    ensures forall i :: 0 <= i < L ==> Committed(sha, seller.d1[j][i], buyer.d1[j][i]) && Committed(sha, seller.d2[j][i], buyer.d2[j][i])
    ensures forall i :: 0 <= i < L ==> buyer.d1[j][i].m == old(buyer.d1[j])[i].m && buyer.d2[j][i].m == old(buyer.d2[j])[i].m
    ensures buyer.d1 == old(buyer.d1)[j := buyer.d1[j]] && buyer.d2 == old(buyer.d2)[j := buyer.d2[j]]
    ensures seller.d1 == old(seller.d1)[j := seller.d1[j]] && seller.d2 == old(seller.d2)[j := seller.d2[j]]
    ensures SeededRow(d.seed1, seller.d1[j]) && SeededRow(d.seed2, seller.d2[j])
  {
    buyer.GenSquares(R, j, d.x);
    seller.AcceptSquares(j, buyer.y[j]);
    seller.FindRoots(R, j, d.swaps);
    res := EncryptAndSetup(c, seller, R, j, L);
    ghost var keys, m1, m2 := seller.singleSellers[j].keysCommits, seller.d1[j], seller.d2[j];
    CommitBoth(sha, seller, buyer, R, j, L, d);
    EncryptedStays(c, keys, seller.r1[j], m1, seller.d1[j]);
    EncryptedStays(c, keys, seller.r2[j], m2, seller.d2[j]);
  }

  lemma SendersAreHonest(sr: SquareRoot, c: Cipher, s: Senders, x: seq<int>, y: seq<int>, swaps: seq<bool>, r1: seq<int>, r2: seq<int>, L: nat)
    requires Valid(sr) && sr.n > 0 && |x| == |y| == |swaps| == L && SquareRow(sr.n, x, y) && KeySized(s.keys)
    requires (forall i :: 0 <= i < L ==> 0 <= x[i] <= sr.n / 2) && FoundRow(sr, y, swaps, r1, r2)
    requires EncryptedRow(c, s.keys, r1, s.d1) && EncryptedRow(c, s.keys, r2, s.d2)
    ensures HonestSenders(sr.n, c, s, x, r1, r2, L)
  {
    forall i | 0 <= i < L && At(i)
      ensures HonestSender(sr.n, c, s.keys[i].m, s.d1[i].m, s.d2[i].m, x[i], r1[i], r2[i])
    {
      ChosenRoots(sr, x[i], swaps[i], r1[i], r2[i]);
    }
  }

  /** What the buyer has seen of one index when it pays. */
  ghost predicate IndexAtPayment(n: nat, c: Cipher, key: seq<byte>, x: int, keySeen: seq<byte>, m1: seq<byte>, m2: seq<byte>, inSubset: bool)
    requires n > 0
  {
    if inSubset then
      && keySeen == key
      && ((m1 == RootCipher(c, key, x) && m2 == []) || (m1 == [] && m2 == RootCipher(c, key, x)))
    else
      && keySeen == []
      && exists r1, r2 :: HonestRoots(n, x, r1, r2) && m1 == RootCipher(c, key, r1) && m2 == RootCipher(c, key, r2)
  }

  ghost predicate RoundAtPayment(n: nat, c: Cipher, keys: seq<seq<byte>>, x: seq<int>, r: Receivers, subset: seq<int>, L: nat)
    requires n > 0
  {
    && |keys| == |x| == |r.keys| == |r.d1| == |r.d2| == L
    && |subset| == L / 2 && Distinct(subset) && InRange(subset, L)
    && (forall i :: 0 <= i < L ==> 0 <= x[i] <= n / 2 && |keys[i]| == AES_LENGTH)
    && forall i {:trigger At(i)} :: 0 <= i < L && At(i) ==>
      IndexAtPayment(n, c, keys[i], x[i], r.keys[i].m, r.d1[i].m, r.d2[i].m, i in subset)
  }

  lemma IndexDisclosed(n: nat, c: Cipher, s: Senders, r: Receivers, x: int, r1: int, r2: int, i: nat, inSubset: bool)
    requires n > 0 && i < |s.keys| && i < |s.d1| && i < |s.d2| && i < |r.keys| && i < |r.d1| && i < |r.d2|
    requires HonestSender(n, c, s.keys[i].m, s.d1[i].m, s.d2[i].m, x, r1, r2)
    requires if inSubset then OneOpen(s, r, i, Which(x, r2)) else BothOpen(s, r, i)
    ensures IndexAtPayment(n, c, s.keys[i].m, x, r.keys[i].m, r.d1[i].m, r.d2[i].m, inSubset)
  {
  }

  lemma RoundDisclosed(n: nat, c: Cipher, keys: seq<seq<byte>>, s: Senders, r: Receivers,
                       x: seq<int>, r1: seq<int>, r2: seq<int>, subset: seq<int>, L: nat)
    requires n > 0 && HonestSenders(n, c, s, x, r1, r2, L)
    requires |r.keys| == |r.d1| == |r.d2| == |keys| == L && AllOpened(s, r, x, r2, subset, L, L)
    requires forall i :: 0 <= i < L ==> keys[i] == s.keys[i].m && 0 <= x[i] <= n / 2
    requires |subset| == L / 2 && Distinct(subset) && InRange(subset, L)
    ensures RoundAtPayment(n, c, keys, x, r, subset, L)
  {
    forall i | 0 <= i < L && At(i)
      ensures IndexAtPayment(n, c, keys[i], x[i], r.keys[i].m, r.d1[i].m, r.d2[i].m, i in subset)
    {
      IndexDisclosed(n, c, s, r, x[i], r1[i], r2[i], i, i in subset);
    }
    forall i | 0 <= i < L ensures |keys[i]| == AES_LENGTH {
      assert At(i);
    }
  }

  /** The checks of the buyer's indices, through the set of them. */
  method CheckIndices(indices: seq<int>, L: nat) returns (res: Result<()>)
    requires |indices| == L / 2
    ensures res.Ok? <==> Distinct(indices) && forall x :: x in indices ==> x < L
  {
    DistinctIffFull(indices);
    if |Members(indices)| != L / 2 {
      return Err("invalid indices size");
    }
    for i := 0 to |indices|
      invariant forall k :: 0 <= k < i ==> indices[k] < L
    {
      if indices[i] >= L {
        assert indices[i] in indices;
        return Err("invalid commitment_indices value");
      }
    }
    return Ok(());
  }

  // The seller's subset check passes, and its answers are honest.
  lemma SubsetAccepted(n: nat, c: Cipher, s: Senders, x: seq<int>, r1: seq<int>, r2: seq<int>, indices: seq<int>, values: seq<int>, L: nat)
    requires n > 0 && HonestSenders(n, c, s, x, r1, r2, L)
    requires InRange(indices, L) && |values| == |indices|
    requires forall i :: 0 <= i < |values| ==> assert indices[i] in indices; values[i] == x[indices[i]]
    ensures forall i :: 0 <= i < |values| ==>
      assert indices[i] in indices;
      (if values[i] == r2[indices[i]] then 2 else if values[i] == r1[indices[i]] then 1 else 5) == Which(x[indices[i]], r2[indices[i]])
  {
    forall i | 0 <= i < |values|
      ensures assert indices[i] in indices; values[i] == r2[indices[i]] || values[i] == r1[indices[i]]
    {
      assert indices[i] in indices;
      var ind := indices[i];
      assert At(ind);
      assert HonestSender(n, c, s.keys[ind].m, s.d1[ind].m, s.d2[ind].m, x[ind], r1[ind], r2[ind]);
    }
  }

  /** The rows that the draws of the rounds determine. */
  datatype RoundRows = RoundRows(x: seq<seq<int>>, indices: seq<seq<int>>, y: seq<seq<int>>, r1: seq<seq<int>>, r2: seq<seq<int>>,
                                 d1: seq<seq<Sender>>, d2: seq<seq<Sender>>)

  ghost function Rows<P>(seller: Seller<P>, buyer: Buyer<P>): RoundRows
    reads seller, buyer
  {
    RoundRows(buyer.x, buyer.indices, seller.y, seller.r1, seller.r2, seller.d1, seller.d2)
  }

  /** What the draws of a round determine: the buyer's values and subset, what the seller finds, and the
      seeds it commits with. */
  ghost predicate RoundFollows(sr: SquareRoot, t: RoundRows, d: RoundDraws, j: nat, L: nat) {
    && j < |t.y| && j < |t.r1| && j < |t.r2| && j < |t.d1| && j < |t.d2| && j < |t.x| && j < |t.indices|
    && |d.shuffle| == L && t.x[j] == d.x && t.indices[j] == d.shuffle[..L / 2]
    && RowFollows(sr, d, t.y[j], t.r1[j], t.r2[j])
    && SeededRow(d.seed1, t.d1[j]) && SeededRow(d.seed2, t.d2[j])
  }

  ghost predicate RowFollows(sr: SquareRoot, d: RoundDraws, y: seq<int>, r1: seq<int>, r2: seq<int>) {
    && sr.p > 0 && sr.q > 0 && sr.n > 0 && |y| == |d.swaps|
    && SquareRow(sr.n, d.x, y) && FoundRow(sr, y, d.swaps, r1, r2)
  }

  /** One round of the loop over the kept instances; with honest parties no exception is thrown. */
  method ExchangeRoots<P>(sha: Hash, c: Cipher, seller: Seller<P>, buyer: Buyer<P>, ghost keys: seq<seq<byte>>,
                          ghost R: nat, j: nat, L: nat, d: RoundDraws)
    returns (res: Result<()>)
    requires seller.Shaped(R) && buyer.Shaped(R) && seller.n == buyer.n && Valid(seller.squareRoot) && IsCipher(c)
    requires j < R && j < |seller.singleSellers| && j < |buyer.singleBuyers| && |keys| == L
    requires KeysCommitted(sha, keys, seller.singleSellers[j].keysCommits, buyer.singleBuyers[j].keysCommits)
    requires forall i :: 0 <= i < L ==> |keys[i]| == AES_LENGTH
    requires buyer.d1[j] == buyer.d2[j] == FreshRow(L) && RoundDrawsInRange(buyer.n, L, d)
    modifies seller`y, seller`r1, seller`r2, seller`c1, seller`c2, seller`d1, seller`d2
    modifies buyer`x, buyer`y, buyer`d1, buyer`d2, buyer`indices, buyer`singleBuyers
    ensures res.Ok? && seller.Shaped(R) && buyer.Shaped(R)
    ensures |buyer.singleBuyers| == |old(buyer.singleBuyers)|
    ensures buyer.singleBuyers == old(buyer.singleBuyers)[j := old(buyer.singleBuyers[j]).(keysCommits := buyer.singleBuyers[j].keysCommits)]
    ensures RoundAtPayment(seller.n, c, keys, buyer.x[j], Receivers(buyer.singleBuyers[j].keysCommits, buyer.d1[j], buyer.d2[j]), buyer.indices[j], L)
    ensures RoundFollows(seller.squareRoot, Rows(seller, buyer), d, j, L)
    ensures forall k :: 0 <= k < R && k != j ==> buyer.x[k] == old(buyer.x[k]) && buyer.indices[k] == old(buyer.indices[k])
    ensures forall k :: 0 <= k < R && k != j ==>
      && seller.y[k] == old(seller.y[k]) && seller.r1[k] == old(seller.r1[k]) && seller.r2[k] == old(seller.r2[k])
      && seller.d1[k] == old(seller.d1[k]) && seller.d2[k] == old(seller.d2[k])
    ensures forall k :: 0 <= k < R && k != j ==> buyer.d1[k] == old(buyer.d1[k]) && buyer.d2[k] == old(buyer.d2[k])
  {
    res := CommitRoots(sha, c, seller, buyer, R, j, L, d);
    SendersAreHonest(seller.squareRoot, c, Senders(seller.singleSellers[j].keysCommits, seller.d1[j], seller.d2[j]), d.x, seller.y[j], d.swaps, seller.r1[j], seller.r2[j], L);
    buyer.PickSubset(R, j, L, d.shuffle);
    var indices := buyer.indices[j];
    var values := buyer.GetSubsetValues(j);
    res := CheckIndices(indices, L);
    if res.Err? {
      return;
    }
    var s := Senders(seller.singleSellers[j].keysCommits, seller.d1[j], seller.d2[j]);
    var r := Receivers(buyer.singleBuyers[j].keysCommits, buyer.d1[j], buyer.d2[j]);
    res, r := OpenRound(sha, c, seller, s, r, buyer.x[j], j, indices, values, L);
    if res.Err? {
      return;
    }
    RoundDisclosed(seller.n, c, keys, s, r, buyer.x[j], seller.r1[j], seller.r2[j], indices, L);
    buyer.singleBuyers := buyer.singleBuyers[j := buyer.singleBuyers[j].(keysCommits := r.keys)];
    buyer.d1, buyer.d2 := buyer.d1[j := r.d1], buyer.d2[j := r.d2];
  }

  /** The openings of one round, once the commitments are in place. */
  method OpenRound<P>(sha: Hash, c: Cipher, seller: Seller<P>, s: Senders, r: Receivers, x: seq<int>,
                      j: nat, indices: seq<int>, values: seq<int>, L: nat)
    returns (res: Result<()>, r': Receivers)
    requires seller.n > 0 && seller.squareRoot.n == seller.n && seller.squareRoot.q > 0 && IsCipher(c)
    requires j < |seller.y| && j < |seller.r1| && j < |seller.r2| && |seller.y[j]| == |seller.r1[j]| == |seller.r2[j]| == L
    requires HonestSenders(seller.n, c, s, x, seller.r1[j], seller.r2[j], L) && Matching(sha, s, r, L)
    requires SquareRow(seller.n, x, seller.y[j]) && forall i :: 0 <= i < L ==> 0 <= x[i] <= seller.n / 2 && Closed(r, i)
    requires Distinct(indices) && InRange(indices, L) && |values| == |indices|
    requires forall i :: 0 <= i < |values| ==> assert indices[i] in indices; values[i] == x[indices[i]]
    ensures res.Ok? && Matching(sha, s, r', L) && AllOpened(s, r', x, seller.r2[j], indices, L, L)
  {
    r' := r;
    SubsetAccepted(seller.n, c, s, x, seller.r1[j], seller.r2[j], indices, values, L);
    HonestRootsVerify(seller.n, c, s, x, seller.r1[j], seller.r2[j], L);
    forall i | 0 <= i < |values|
      ensures assert indices[i] in indices; values[i] <= seller.n / 2 && (values[i] * values[i]) % seller.n == seller.y[j][indices[i]]
    {
      assert indices[i] in indices;
      var ind := indices[i];
      assert 0 <= x[ind] <= seller.n / 2 && seller.y[j][ind] == (x[ind] * x[ind]) % seller.n;
    }
    var answers := seller.AcceptSubset(j, indices, values);
    if answers.Err? {
      return Err("subset rejected"), r';
    }
    HonestSubset(sha, c, s, r, x, seller.r2[j], indices, answers.value, L);
    res, r' := OpenSubset(sha, c, s, r, x, indices, answers.value, L);
    if res.Err? {
      return;
    }
    HonestSubsetDone(sha, s, r, r', x, seller.r2[j], indices, answers.value, L);
    ghost var shown := r';
    HonestRest(sha, s, shown, indices, L);
    res, r' := OpenRest(sha, s, r', indices, L);
    HonestRestDone(sha, s, shown, r', x, seller.r2[j], indices, L);
  }

  // ---------------------------------------------------------------- before the payment

  /** No index ever has its key and both ciphertexts open, and the ones factorise does not skip are
      exactly those outside the subset. */
  lemma NothingTooMuch(n: nat, c: Cipher, keys: seq<seq<byte>>, x: seq<int>, r: Receivers, subset: seq<int>, L: nat, i: nat)
    requires n > 0 && IsCipher(c) && RoundAtPayment(n, c, keys, x, r, subset, L) && i < L
    ensures !(r.keys[i].m != [] && r.d1[i].m != [] && r.d2[i].m != [])
    ensures r.keys[i].m != [] <==> i in subset
    ensures i in subset ==> (r.d1[i].m == [] <==> r.d2[i].m != [])
    ensures i !in subset <==> r.d1[i].m != [] && r.d2[i].m != []
  {
    assert At(i);
    RootCipherDecrypts(c, keys[i], x[i]);
    if i !in subset {
      var r1, r2 := HiddenRoots(n, c, keys[i], x[i], r.keys[i].m, r.d1[i].m, r.d2[i].m);
    }
  }

  lemma HiddenRoots(n: nat, c: Cipher, key: seq<byte>, x: int, keySeen: seq<byte>, m1: seq<byte>, m2: seq<byte>) returns (r1: int, r2: int)
    requires n > 0 && IsCipher(c) && |key| == AES_LENGTH && IndexAtPayment(n, c, key, x, keySeen, m1, m2, false)
    ensures HonestRoots(n, x, r1, r2) && m1 == RootCipher(c, key, r1) && m2 == RootCipher(c, key, r2)
    ensures m1 != [] && m2 != []
  {
    r1, r2 :| HonestRoots(n, x, r1, r2) && m1 == RootCipher(c, key, r1) && m2 == RootCipher(c, key, r2);
    RootCipherDecrypts(c, key, r1);
    RootCipherDecrypts(c, key, r2);
  }

  predicate SplitsInto(a: Attempt, p: int, q: int) {
    a == Found(p, q) || a == Found(q, p)
  }

  lemma IndexAttempt(p: nat, q: nat, n: nat, c: Cipher, key: seq<byte>, x: int, keySeen: seq<byte>, m1: seq<byte>, m2: seq<byte>)
    requires Prime(p) && Prime(q) && p != q && n > 0 && n == p * q && n % 2 == 1 && IsCipher(c)
    requires |key| == AES_LENGTH && IndexAtPayment(n, c, key, x, keySeen, m1, m2, false)
    ensures Gcd(Abs(x), n) == 1 ==> SplitsInto(TryPair(c, n, key, m1, m2), p, q)
    ensures Gcd(Abs(x), n) != 1 ==> TryPair(c, n, key, m1, m2) == Miss
  {
    var r1, r2 := HiddenRoots(n, c, key, x, keySeen, m1, m2);
    if Gcd(x, n) == 1 {
      CoprimeAttempt(p, q, n, c, key, x, r1, r2);
    } else {
      SharedFactorAttempt(p, q, n, c, key, x, r1, r2);
    }
  }

  lemma CoprimeAttempt(p: nat, q: nat, n: nat, c: Cipher, key: seq<byte>, x: int, r1: int, r2: int)
    requires Prime(p) && Prime(q) && p != q && n > 0 && n == p * q && n % 2 == 1 && IsCipher(c)
    requires |key| == AES_LENGTH && HonestRoots(n, x, r1, r2) && Gcd(x, n) == 1
    ensures SplitsInto(TryPair(c, n, key, RootCipher(c, key, r1), RootCipher(c, key, r2)), p, q)
  {
    HonestRootsFactor(p, q, n, x, r1, r2);
    EitherOrder(p, q, n, c, key, r1, r2);
  }

  lemma EitherOrder(p: nat, q: nat, n: nat, c: Cipher, key: seq<byte>, r1: int, r2: int)
    requires n == p * q && IsCipher(c) && |key| == AES_LENGTH && r1 >= 0 && r2 >= 0
    requires Split(n, r1, r2) == (p, q) || Split(n, r1, r2) == (q, p)
    ensures SplitsInto(TryPair(c, n, key, RootCipher(c, key, r1), RootCipher(c, key, r2)), p, q)
  {
    assert q * p == n;
    if Split(n, r1, r2) == (p, q) {
      FoundFor(n, c, key, r1, r2, p, q);
    } else {
      FoundFor(n, c, key, r1, r2, q, p);
    }
  }

  lemma FoundFor(n: nat, c: Cipher, key: seq<byte>, r1: int, r2: int, g: int, h: int)
    requires IsCipher(c) && |key| == AES_LENGTH && r1 >= 0 && r2 >= 0 && Split(n, r1, r2) == (g, h) && g * h == n
    ensures TryPair(c, n, key, RootCipher(c, key, r1), RootCipher(c, key, r2)) == Found(g, h)
  {
    PairAttempt(n, c, key, r1, r2);
  }

  lemma SharedFactorAttempt(p: nat, q: nat, n: nat, c: Cipher, key: seq<byte>, x: int, r1: int, r2: int)
    requires Prime(p) && Prime(q) && p != q && n > 0 && n == p * q && n % 2 == 1 && IsCipher(c)
    requires |key| == AES_LENGTH && HonestRoots(n, x, r1, r2) && Gcd(x, n) != 1
    ensures TryPair(c, n, key, RootCipher(c, key, r1), RootCipher(c, key, r2)) == Miss
  {
    HonestRootsFactor(p, q, n, x, r1, r2);
    PairAttempt(n, c, key, r1, r2);
  }

  /** With the instance's keys, an index is skipped inside the subset; outside it yields the primes
      when the buyer's value is coprime to n, and nothing otherwise. */
  lemma HonestAttempt(p: nat, q: nat, n: nat, c: Cipher, keys: seq<seq<byte>>, x: seq<int>, r: Receivers, subset: seq<int>, L: nat, i: nat)
    requires Prime(p) && Prime(q) && p != q && n > 0 && n == p * q && n % 2 == 1 && IsCipher(c)
    requires RoundAtPayment(n, c, keys, x, r, subset, L) && i < L
    ensures i in subset ==> TryPair(c, n, keys[i], r.d1[i].m, r.d2[i].m) == Skip
    ensures i !in subset && Gcd(x[i], n) == 1 ==> SplitsInto(TryPair(c, n, keys[i], r.d1[i].m, r.d2[i].m), p, q)
    ensures i !in subset && Gcd(x[i], n) != 1 ==> TryPair(c, n, keys[i], r.d1[i].m, r.d2[i].m) == Miss
  {
    assert At(i);
    if i !in subset {
      IndexAttempt(p, q, n, c, keys[i], x[i], r.keys[i].m, r.d1[i].m, r.d2[i].m);
    }
  }

  lemma PairAttempt(n: nat, c: Cipher, key: seq<byte>, r1: int, r2: int)
    requires IsCipher(c) && |key| == AES_LENGTH && r1 >= 0 && r2 >= 0
    ensures TryPair(c, n, key, RootCipher(c, key, r1), RootCipher(c, key, r2)) ==
      var (g, h) := Split(n, r1, r2); if g * h == n then Found(g, h) else Miss
  {
    RootCipherDecrypts(c, key, r1);
    RootCipherDecrypts(c, key, r2);
  }
}
