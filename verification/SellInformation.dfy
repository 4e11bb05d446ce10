/**
 main/sell_information.cpp and .h: the second phase of the protocol, in which the seller commits to
 the roots of the buyer's squares and opens what the buyer may see before paying, and the buyer's
 factorisation afterwards.  T instances, of which R are kept, and L squares per kept instance.
 */
module SellInformation {
  import opened NumberTheory
  import opened Outcome
  import opened Bytes
  import opened Sorting
  import opened SquareRoot
  import opened ShaCommitment
  import opened CutAndChoose
  import opened SignatureKey
  import SharedSignature

  // ---------------------------------------------------------------- encryption of the roots

  /** common/aes.cpp, with decryption throwing on bad padding. */
  datatype Cipher = Cipher(enc: (seq<byte>, seq<byte>) -> seq<byte>, dec: (seq<byte>, seq<byte>) -> Result<seq<byte>>)

  const AES_LENGTH := 32

  ghost predicate IsCipher(c: Cipher) {
    forall k, m :: c.enc(k, m) != [] && c.dec(k, c.enc(k, m)) == Ok(m)
  }

  function Encrypt(c: Cipher, key: seq<byte>, m: seq<byte>): Result<seq<byte>> {
    if |key| != AES_LENGTH then Err("Invalid length") else Ok(c.enc(key, m))
  }

  function Decrypt(c: Cipher, key: seq<byte>, m: seq<byte>): Result<seq<byte>> {
    if |key| != AES_LENGTH then Err("exception") else c.dec(key, m)
  }

  /** The ciphertext of a root; to_bytes encodes the magnitude. */
  function RootCipher(c: Cipher, key: seq<byte>, root: int): seq<byte> {
    c.enc(key, ToBytes(Abs(root)))
  }

  lemma RootCipherDecrypts(c: Cipher, key: seq<byte>, root: int)
    requires IsCipher(c) && |key| == AES_LENGTH && root >= 0
    ensures RootCipher(c, key, root) != []
    ensures Decrypt(c, key, RootCipher(c, key, root)) == Ok(ToBytes(root)) && Decode(ToBytes(root)) == root
  {
    ToBytesRoundTrip(root);
  }

  // ---------------------------------------------------------------- the seller

  class Seller<P> {
    const n: nat
    const squareRoot: SquareRoot
    var y: seq<seq<int>>
    var r1: seq<seq<int>>
    var r2: seq<seq<int>>
    var c1: seq<seq<seq<byte>>>
    var c2: seq<seq<seq<byte>>>
    var d1: seq<seq<Sender>>
    var d2: seq<seq<Sender>>
    var singleSellers: seq<SingleSeller<P>>

    /** R arrays of each kind. */
    ghost predicate Shaped(R: nat)
      reads this
    {
      |y| == R && |r1| == R && |r2| == R && |c1| == R && |c2| == R && |d1| == R && |d2| == R && n > 0 && squareRoot.n == n && squareRoot.q > 0
    }

    constructor (p: nat, q: nat, msr: RootFinder, R: nat)
      requires p > 0 && q > 0
      ensures Shaped(R) && n == p * q && squareRoot == Create(p, q, msr) && singleSellers == []
    {
      MulPositive(p, q);
      n, squareRoot := p * q, Create(p, q, msr);
      y, r1, r2 := seq(R, _ => []), seq(R, _ => []), seq(R, _ => []);
      c1, c2 := seq(R, _ => []), seq(R, _ => []);
      d1, d2 := seq(R, _ => []), seq(R, _ => []);
      singleSellers := [];
    }

    method AcceptSquares(j: nat, row: seq<int>)
      requires j < |y|
      modifies this`y
      ensures y == old(y)[j := row]
    {
      y := y[j := row];
    }

    /** For every square the two smallest roots, in an order drawn at random. */
    method FindRoots(ghost R: nat, j: nat, swaps: seq<bool>)
      requires Shaped(R) && j < R && |swaps| == |y[j]| && Valid(squareRoot)
      modifies this`r1, this`r2
      ensures |r1| == |r2| == R && r1 == old(r1)[j := r1[j]] && r2 == old(r2)[j := r2[j]]
      ensures FoundRow(squareRoot, y[j], swaps, r1[j], r2[j])
    {
      var row1, row2 := FindRow(squareRoot, y[j], swaps);
      r1, r2 := r1[j := row1], r2[j := row2];
    }

    method EncryptRoots(ghost R: nat, j: nat, c: Cipher) returns (res: Result<()>)
      requires Shaped(R) && j < R && j < |singleSellers| && |r1[j]| == |r2[j]| == |singleSellers[j].keysCommits|
      modifies this`c1, this`c2
      ensures Shaped(R)
      ensures res.Ok? <==> forall i :: 0 <= i < |r1[j]| ==> |singleSellers[j].keysCommits[i].m| == AES_LENGTH
      ensures res.Ok? ==> |c1[j]| == |c2[j]| == |r1[j]| && forall i :: 0 <= i < |r1[j]| ==>
        && c1[j][i] == RootCipher(c, singleSellers[j].keysCommits[i].m, r1[j][i]) == c.enc(singleSellers[j].keysCommits[i].m, ToBytes(Abs(r1[j][i])))
        && c2[j][i] == RootCipher(c, singleSellers[j].keysCommits[i].m, r2[j][i]) == c.enc(singleSellers[j].keysCommits[i].m, ToBytes(Abs(r2[j][i])))
    {
      var row1: seq<seq<byte>>, row2: seq<seq<byte>> := [], [];
      var keys := singleSellers[j].keysCommits;
      for i := 0 to |r1[j]|
        invariant |row1| == |row2| == i
        invariant forall k :: 0 <= k < i ==> |keys[k].m| == AES_LENGTH
        invariant forall k :: 0 <= k < i ==> row1[k] == RootCipher(c, keys[k].m, r1[j][k]) && row2[k] == RootCipher(c, keys[k].m, r2[j][k])
      {
        var first :- Encrypt(c, keys[i].m, ToBytes(Abs(r1[j][i])));
        var second := Encrypt(c, keys[i].m, ToBytes(Abs(r2[j][i]))).value;
        row1, row2 := row1 + [first], row2 + [second];
      }
      c1, c2 := c1[j := row1], c2[j := row2];
      return Ok(());
    }

    method SetupCommit(ghost R: nat, j: nat)
      requires Shaped(R) && j < R && |c1[j]| == |c2[j]|
      modifies this`d1, this`d2
      ensures Shaped(R) && |d1[j]| == |d2[j]| == |c1[j]|
      ensures d1 == old(d1)[j := d1[j]] && d2 == old(d2)[j := d2[j]]
      ensures forall i :: 0 <= i < |c1[j]| ==> d1[j][i].m == c1[j][i] && d2[j][i].m == c2[j][i]
    {
      var row1: seq<Sender>, row2: seq<Sender> := [], [];
      for i := 0 to |c1[j]|
        invariant |row1| == |row2| == i
        invariant forall k :: 0 <= k < i ==> row1[k].m == c1[j][k] && row2[k].m == c2[j][k]
      {
        row1, row2 := row1 + [Sender(c1[j][i], [], [])], row2 + [Sender(c2[j][i], [], [])];
      }
      d1, d2 := d1[j := row1], d2[j := row2];
    }

    /** Which of the two commitments opens to the buyer's value: 2 wins over 1, and 5 stands for neither. */
    method AcceptSubset(j: nat, indices: seq<int>, values: seq<int>) returns (res: Result<seq<nat>>)
      requires n > 0 && j < |y| && j < |r1| && j < |r2| && |y[j]| == |r1[j]| == |r2[j]|
      requires |indices| == |values| && InRange(indices, |y[j]|)
      ensures res.Ok? <==> forall i :: 0 <= i < |indices| ==>
        assert indices[i] in indices; values[i] <= n / 2 && (values[i] * values[i]) % n == y[j][indices[i]]
      ensures res.Ok? ==> |res.value| == |indices| && forall i :: 0 <= i < |indices| ==>
        assert indices[i] in indices;
        res.value[i] == (if values[i] == r2[j][indices[i]] then 2 else if values[i] == r1[j][indices[i]] then 1 else 5)
    {
      var out: seq<nat> := [];
      for i := 0 to |indices|
        invariant |out| == i
        invariant forall k :: 0 <= k < i ==>
          assert indices[k] in indices; values[k] <= n / 2 && (values[k] * values[k]) % n == y[j][indices[k]]
        invariant forall k :: 0 <= k < i ==>
          assert indices[k] in indices;
          out[k] == (if values[k] == r2[j][indices[k]] then 2 else if values[k] == r1[j][indices[k]] then 1 else 5)
      {
        assert indices[i] in indices;
        var ind, val := indices[i], values[i];
        if val > n / 2 {
          return Err("xi > n/2");
        }
        if (val * val) % n != y[j][ind] {
          return Err("xi is not a square root of yi");
        }
        var which := 5;
        if val == r1[j][ind] {
          which := 1;
        }
        if val == r2[j][ind] {
          which := 2;
        }
        out := out + [which];
      }
      return Ok(out);
    }
  }

  /** What findRoots stores for the square y: its small pair, the larger root first if the coin says
      so, and -1 twice when y has no root. */
  ghost predicate FoundRoots(sr: SquareRoot, y: int, swap: bool, r1: int, r2: int)
    requires sr.p > 0 && sr.q > 0 && sr.n > 0
  {
    if IsSquare(sr, y) then SmallPair(sr.n, y, r1, r2) && (if swap then r2 <= r1 else r1 <= r2) else r1 == r2 == -1
  }

  /** Always true; facts about a row are stated for the indices that a proof names with it. */
  predicate At(i: int) {
    true
  }

  ghost predicate FoundRow(sr: SquareRoot, y: seq<int>, swaps: seq<bool>, r1: seq<int>, r2: seq<int>)
    requires sr.p > 0 && sr.q > 0 && sr.n > 0 && |y| == |swaps|
  {
    && |r1| == |r2| == |y|
    && forall i {:trigger At(i)} :: 0 <= i < |y| && At(i) ==> FoundRoots(sr, y[i], swaps[i], r1[i], r2[i])
  }

  method ChooseRoots(sr: SquareRoot, y: int, swap: bool) returns (r1: int, r2: int)
    requires Valid(sr) && sr.n > 0
    ensures FoundRoots(sr, y, swap, r1, r2)
  {
    FirstTwoRoots(sr, y);
    var roots := AllSquareRoots(sr, y);
    r1, r2 := roots[0], roots[1];
    assert roots[..][0] == r1 && roots[..][1] == r2;
    if swap {
      SwapPair(sr.n, y, r1, r2);
      r1, r2 := r2, r1;
    }
  }

  lemma SwapPair(n: nat, y: int, r1: int, r2: int)
    requires n > 0
    ensures SmallPair(n, y, r1, r2) ==> SmallPair(n, y, r2, r1)
  {
  }

  method FindRow(sr: SquareRoot, y: seq<int>, swaps: seq<bool>) returns (row1: seq<int>, row2: seq<int>)
    requires Valid(sr) && sr.n > 0 && |y| == |swaps|
    ensures FoundRow(sr, y, swaps, row1, row2)
  {
    row1, row2 := [], [];
    for i := 0 to |y|
      invariant |row1| == |row2| == i
      invariant forall k {:trigger At(k)} :: 0 <= k < i && At(k) ==> FoundRoots(sr, y[k], swaps[k], row1[k], row2[k])
    {
      var first, second := ChooseRoots(sr, y[i], swaps[i]);
      row1, row2 := row1 + [first], row2 + [second];
    }
  }

  /** For every x in [0, n/2], coprime to n or not, the seller finds x itself. */
  lemma ChosenRoots(sr: SquareRoot, x: int, swap: bool, r1: int, r2: int)
    requires Valid(sr) && sr.n > 0 && 0 <= x <= sr.n / 2 && FoundRoots(sr, (x * x) % sr.n, swap, r1, r2)
    ensures HonestRoots(sr.n, x, r1, r2)
  {
    ChosenRootIsFound(sr, x);
    PairOfSquare(sr, x, r1, r2);
  }

  // ---------------------------------------------------------------- the buyer

  function Iota(n: nat): (s: seq<int>)
    ensures |s| == n && forall k :: 0 <= k < n ==> s[k] == k
  {
    seq(n, k => k)
  }

  lemma ShuffleIsDistinct(shuffle: seq<int>, n: nat)
    requires multiset(shuffle) == multiset(Iota(n))
    ensures |shuffle| == n && Distinct(shuffle) && InRange(shuffle, n)
  {
    assert |shuffle| == |multiset(shuffle)| == |multiset(Iota(n))| == n;
    assert Members(shuffle) == Members(Iota(n)) by {
      forall x ensures x in shuffle <==> x in Iota(n) {
        assert x in shuffle <==> x in multiset(shuffle);
        assert x in Iota(n) <==> x in multiset(Iota(n));
      }
    }
    DistinctIffFull(Iota(n));
    DistinctIffFull(shuffle);
    assert forall x :: x in shuffle ==> x in Members(Iota(n));
  }

  class Buyer<P> {
    const n: nat
    var x: seq<seq<int>>
    var y: seq<seq<int>>
    var indices: seq<seq<int>>
    var signatures: seq<seq<byte>>
    var d1: seq<seq<Receiver>>
    var d2: seq<seq<Receiver>>
    var singleBuyers: seq<SingleBuyer<P>>
    var p: int
    var q: int

    ghost predicate Shaped(R: nat)
      reads this
    {
      |x| == R && |y| == R && |indices| == R && |d1| == R && |d2| == R && n > 0
    }

    constructor (n: nat, R: nat, L: nat)
      requires n > 0
      ensures Shaped(R) && this.n == n && singleBuyers == []
      ensures forall j :: 0 <= j < R ==> d1[j] == d2[j] == FreshRow(L)
    {
      this.n := n;
      x, y, indices := seq(R, _ => []), seq(R, _ => []), seq(R, _ => []);
      signatures, singleBuyers := [], [];
      d1, d2 := seq(R, _ => FreshRow(L)), seq(R, _ => FreshRow(L));
      p, q := 0, 0;
    }

    method GenSquares(ghost R: nat, j: nat, draws: seq<int>)
      requires Shaped(R) && j < R
      modifies this`x, this`y
      ensures Shaped(R) && x == old(x)[j := draws] && |y[j]| == |draws|
      ensures forall i :: 0 <= i < |draws| ==> y[j][i] == (draws[i] * draws[i]) % n
      ensures forall k :: 0 <= k < R && k != j ==> y[k] == old(y[k])
    {
      var row: seq<int> := [];
      for i := 0 to |draws|
        invariant |row| == i && forall k :: 0 <= k < i ==> row[k] == (draws[k] * draws[k]) % n
      {
        row := row + [(draws[i] * draws[i]) % n];
      }
      x, y := x[j := draws], y[j := row];
    }

    /** `shuffle` is what the shuffle makes of 0 .. L-1. */
    method PickSubset(ghost R: nat, j: nat, L: nat, shuffle: seq<int>)
      requires Shaped(R) && j < R && multiset(shuffle) == multiset(Iota(L))
      modifies this`indices
      ensures |shuffle| == L && indices == old(indices)[j := shuffle[..L / 2]]
      ensures Shaped(R) && |indices[j]| == L / 2 && Distinct(indices[j]) && InRange(indices[j], L)
      ensures forall k :: 0 <= k < R && k != j ==> indices[k] == old(indices[k])
    {
      ShuffleIsDistinct(shuffle, L);
      assert forall i :: 0 <= i < L / 2 ==> shuffle[..L / 2][i] in shuffle;
      indices := indices[j := shuffle[..L / 2]];
    }

    method GetSubsetValues(j: nat) returns (values: seq<int>)
      requires j < |x| && j < |indices| && InRange(indices[j], |x[j]|)
      ensures |values| == |indices[j]|
      ensures forall i :: 0 <= i < |values| ==> assert indices[j][i] in indices[j]; values[i] == x[j][indices[j][i]]
    {
      values := [];
      for i := 0 to |indices[j]|
        invariant |values| == i
        invariant forall k :: 0 <= k < i ==> assert indices[j][k] in indices[j]; values[k] == x[j][indices[j][k]]
      {
        assert indices[j][i] in indices[j];
        values := values + [x[j][indices[j][i]]];
      }
    }

    ghost predicate HasRows(R: nat, L: nat)
      reads this
    {
      |signatures| == R && |d1| == R && |d2| == R && forall j :: 0 <= j < R ==> |d1[j]| == |d2[j]| == L
    }

    /** The outcome of index i of instance j, from the signatures and openings the buyer holds. */
    ghost function AttemptAt(sha: Hash, c: Cipher, R: nat, L: nat, j: int, i: int): Attempt
      requires HasRows(R, L) && 0 <= j < R && 0 <= i < L
      reads this
    {
      TryPair(c, n, Keys(sha, signatures[j], L)[i], d1[j][i].m, d2[j][i].m)
    }

    /** Every index that comes before (j0, i0) was skipped or missed. */
    ghost predicate QuietBefore(sha: Hash, c: Cipher, R: nat, L: nat, j0: int, i0: int)
      requires HasRows(R, L)
      reads this
    {
      forall j, i {:trigger At(j), At(i)} :: 0 <= j < R && 0 <= i < L && (j < j0 || (j == j0 && i < i0)) && At(j) && At(i) ==>
        AttemptAt(sha, c, R, L, j, i) in QUIET
    }

    ghost predicate RowQuiet(sha: Hash, c: Cipher, R: nat, L: nat, j: int, i0: int)
      requires HasRows(R, L) && 0 <= j < R && i0 <= L
      reads this
    {
      forall k {:trigger At(k)} :: 0 <= k < i0 && At(k) ==> AttemptAt(sha, c, R, L, j, k) in QUIET
    }

    lemma QuietRow(sha: Hash, c: Cipher, R: nat, L: nat, j: int, i: int)
      requires HasRows(R, L) && 0 <= j < R && 0 <= i <= L
      requires QuietBefore(sha, c, R, L, j, 0) && RowQuiet(sha, c, R, L, j, i)
      ensures QuietBefore(sha, c, R, L, j, i) && (i == L ==> QuietBefore(sha, c, R, L, j + 1, 0))
    {
    }

    method Factorise(sha: Hash, c: Cipher, R: nat, L: nat) returns (res: Result<()>, ghost j0: int, ghost i0: int)
      requires HasRows(R, L)
      modifies this`p, this`q
      ensures 0 <= j0 <= R && 0 <= i0 <= L && QuietBefore(sha, c, R, L, j0, i0)
      ensures res.Ok? ==> j0 < R && i0 < L && AttemptAt(sha, c, R, L, j0, i0) == Found(p, q)
      ensures res.Err? ==> p == old(p) && q == old(q)
      ensures res.Err? ==> j0 == R || (i0 < L && AttemptAt(sha, c, R, L, j0, i0).Throw?)
    {
      var keys := AllKeys(sha, signatures, L);
      for j := 0 to R
        invariant p == old(p) && q == old(q) && QuietBefore(sha, c, R, L, j, 0)
      {
        var a, i := ScanRow(sha, c, R, L, j, keys[j]);
        QuietRow(sha, c, R, L, j, i);
        match a
        case Skip =>
        case Miss =>
        case Throw(e) =>
          return Err(e), j, i;
        case Found(g, h) =>
          p, q := g, h;
          return Ok(()), j, i;
      }
      return Err("Factorization failed!"), R, 0;
    }

    /** The inner loop: stops at the first index that throws or splits n. */
    method ScanRow(ghost sha: Hash, c: Cipher, ghost R: nat, L: nat, j: nat, keys: seq<seq<byte>>) returns (a: Attempt, i: nat)
      requires HasRows(R, L) && j < R && keys == Keys(sha, signatures[j], L)
      ensures i <= L && RowQuiet(sha, c, R, L, j, i)
      ensures (a == Miss && i == L) || (i < L && (a.Throw? || a.Found?) && a == AttemptAt(sha, c, R, L, j, i))
    {
      i := 0;
      while i < L
        invariant 0 <= i <= L
        invariant RowQuiet(sha, c, R, L, j, i)
      {
        a := TryPair(c, n, keys[i], d1[j][i].m, d2[j][i].m);
        if a.Throw? || a.Found? {
          return;
        }
        i := i + 1;
      }
      a := Miss;
    }

    /** Buyer::get_signature, given whether the wait for the seller's transaction succeeds, and the byte
        arrays of the signatures found in it.  `finished` is the flag it sets last. */
    method GetSignature(sha: Hash, c: Cipher, R: nat, L: nat, seen: bool, found: seq<(seq<byte>, seq<byte>)>)
      returns (res: Result<()>, finished: bool, ghost j0: int, ghost i0: int)
      requires |found| == R && |d1| == R && |d2| == R && forall j :: 0 <= j < R ==> |d1[j]| == |d2[j]| == L
      modifies this`signatures, this`p, this`q
      ensures finished <==> res.Ok?
      ensures res.Err? ==> p == old(p) && q == old(q)
      ensures !seen ==> res.Err? && signatures == old(signatures)
      ensures seen ==> HasRows(R, L)
      ensures seen ==> forall j :: 0 <= j < R ==> signatures[j] == SharedSignature.EncodeSignature(Decode(found[j].0), Decode(found[j].1))
      ensures seen ==> 0 <= j0 <= R && 0 <= i0 <= L && QuietBefore(sha, c, R, L, j0, i0)
      ensures res.Ok? ==> j0 < R && i0 < L && AttemptAt(sha, c, R, L, j0, i0) == Found(p, q)
      ensures seen && res.Err? ==> j0 == R || (i0 < L && AttemptAt(sha, c, R, L, j0, i0).Throw?)
    {
      finished, j0, i0 := false, R, 0;
      if !seen {
        res := Err("wait for transaction by output failed");
        return;
      }
      var row: seq<seq<byte>> := [];
      for j := 0 to R
        invariant |row| == j && forall k :: 0 <= k < j ==> row[k] == SharedSignature.EncodeSignature(Decode(found[k].0), Decode(found[k].1))
      {
        row := row + [SharedSignature.EncodeSignature(Decode(found[j].0), Decode(found[j].1))];
      }
      signatures := row;
      res, j0, i0 := Factorise(sha, c, R, L);
      finished := res.Ok?;
    }
  }

  // ---------------------------------------------------------------- factorisation

  /** What one index contributes to Buyer::factorise. */
  datatype Attempt = Skip | Throw(error: string) | Miss | Found(p: int, q: int)

  method AllKeys(sha: Hash, signatures: seq<seq<byte>>, L: nat) returns (keys: seq<seq<seq<byte>>>)
    ensures |keys| == |signatures| && forall j :: 0 <= j < |keys| ==> keys[j] == Keys(sha, signatures[j], L)
  {
    keys := [];
    for j := 0 to |signatures|
      invariant |keys| == j && forall k :: 0 <= k < j ==> keys[k] == Keys(sha, signatures[k], L)
    {
      var row := GenKeys(sha, signatures[j], L);
      keys := keys + [row];
    }
  }

  const QUIET := {Skip, Miss}

  /** The decryption of a shown ciphertext under a 32-byte key, if there is one. */
  predicate Decrypts(c: Cipher, key: seq<byte>, m: seq<byte>) {
    |key| == AES_LENGTH && c.dec(key, m).Ok?
  }

  function TryPair(c: Cipher, n: nat, key: seq<byte>, m1: seq<byte>, m2: seq<byte>): Attempt {
    if m1 == [] || m2 == [] then Skip else
      match (Decrypt(c, key, m1), Decrypt(c, key, m2))
      case (Err(e), _) => Throw(e)
      case (_, Err(e)) => Throw(e)
      case (Ok(b1), Ok(b2)) =>
        var (p, q) := Split(n, Decode(b1), Decode(b2));
        if p * q == n then Found(p, q) else Miss
  }

  /** An index is skipped exactly when one of its ciphertexts is closed, throws exactly when one of them
      does not decrypt, and yields only factors of n. */
  lemma AttemptOutcome(c: Cipher, n: nat, key: seq<byte>, m1: seq<byte>, m2: seq<byte>)
    ensures var a := TryPair(c, n, key, m1, m2);
      && (a == Skip <==> m1 == [] || m2 == [])
      && (a.Throw? <==> m1 != [] && m2 != [] && !(Decrypts(c, key, m1) && Decrypts(c, key, m2)))
      && (a.Found? ==> a.p * a.q == n)
  {
  }

  function FreshRow(L: nat): (r: seq<Receiver>)
    ensures |r| == L && forall i :: 0 <= i < L ==> r[i].m == []
  {
    seq(L, _ => FRESH_RECEIVER)
  }

  /** Buyer::verifyRoot: the opened ciphertext has to decrypt to the value the buyer squared. */
  function VerifyRoot(c: Cipher, key: seq<byte>, x: int, m: seq<byte>): (r: Result<()>)
    ensures r.Ok? <==> |key| == AES_LENGTH && c.dec(key, m).Ok? && Decode(c.dec(key, m).value) == x
  {
    var bytes :- Decrypt(c, key, m);
    if Decode(bytes) != x then Err("verifyRoot failed") else Ok(())
  }
}
