/**
 common/square_root.cpp: the four square roots modulo n = pq from the roots modulo p and q, and
 what the two small ones reveal about the factors.  ModularSquareRoot is the argument `msr`.
 */
module SquareRoot {
  import opened NumberTheory
  import opened Outcome
  import opened Sorting
  import opened Paillier

  predicate IsRoot(x: int, a: int, m: int)
    requires m > 0
  {
    Cong(x * x, a, m)
  }

  ghost predicate HasRoot(a: int, m: int)
    requires m > 0
  {
    exists x :: IsRoot(x, a, m)
  }

  type RootFinder = (int, int) -> int

  /** ModularSquareRoot returns a root in [0, p) whenever there is one. */
  ghost predicate FindsRoots(msr: RootFinder) {
    forall a, p :: Prime(p) && HasRoot(a, p) ==> 0 <= msr(a, p) < p && IsRoot(msr(a, p), a, p)
  }

  datatype SquareRoot = SquareRoot(p: nat, q: nat, n: nat, u: int, msr: RootFinder)

  function Create(p: nat, q: nat, msr: RootFinder): SquareRoot
    requires q > 0
  {
    SquareRoot(p, q, p * q, InverseMod(p, q), msr)
  }

  /** A distinct odd pair of primes and a correct root finder. */
  ghost predicate Valid(sr: SquareRoot) {
    && Prime(sr.p) && Prime(sr.q) && sr.p != sr.q && sr.p > 2 && sr.q > 2
    && FindsRoots(sr.msr) && sr == Create(sr.p, sr.q, sr.msr)
  }

  function Crt(xp: int, p: int, xq: int, q: int, u: int): int
    requires q > 0
  {
    p * ((u * (xq - xp)) % q) + xp
  }

  function Signed(x: int, p: int, sign: int): int {
    if sign == -1 then p - x else x
  }

  function Candidate(sr: SquareRoot, a: int, signX: int, signY: int): int
    requires sr.q > 0
  {
    Crt(Signed(sr.msr(a, sr.p), sr.p, signX), sr.p, Signed(sr.msr(a, sr.q), sr.q, signY), sr.q, sr.u)
  }

  function Root(sr: SquareRoot, a: int, signX: int, signY: int): Result<int>
    requires sr.q > 0 && sr.n > 0
  {
    if signY != -1 && signY != 1 then Err("exception")
    else if signX != -1 && signX != 1 then Err("exception")
    else
      var root := Candidate(sr, a, signX, signY);
      if (root * root) % sr.n != a then Ok(-1) else Ok(root)
  }

  // ---------------------------------------------------------------- one candidate

  lemma CrtResidues(xp: int, p: nat, xq: int, q: nat, u: int)
    requires p > 0 && q > 0 && Cong(p * u, 1, q)
    ensures Cong(Crt(xp, p, xq, q, u), xp, p) && Cong(Crt(xp, p, xq, q, u), xq, q)
  {
    var d := xq - xp;
    var t := (u * d) % q;
    CongIntro(p * t + xp, xp, t, p);
    CongMod(u * d, q);
    CongMul(p, p, t, u * d, q);
    CongMul(p * u, 1, d, d, q);
    assert p * (u * d) == (p * u) * d;
    CongAdd(p * t, d, xp, xp, q);
  }

  lemma CrtRange(xp: int, p: nat, xq: int, q: nat, u: int)
    requires p > 0 && q > 0 && 0 <= xp <= p
    ensures xp <= Crt(xp, p, xq, q, u) <= p * (q - 1) + xp && p * (q - 1) + xp <= p * q
  {
    var t := (u * (xq - xp)) % q;
    assert 0 <= t <= q - 1;
    MulMonotone(p, t, p, q - 1);
    assert p * (q - 1) == p * q - p;
  }

  lemma InverseU(sr: SquareRoot)
    requires Valid(sr)
    ensures Cong(sr.p * sr.u, 1, sr.q) && sr.n > 0 && sr.n % 2 == 1 && Gcd(sr.p, sr.q) == 1
  {
    DistinctPrimesCoprime(sr.p, sr.q);
    InverseModIsInverse(sr.p, sr.q);
    OddPrime(sr.p);
    OddPrime(sr.q);
    CongMul(sr.p, 1, sr.q, 1, 2);
  }

  lemma SignedSquare(x: int, p: nat, sign: int)
    requires p > 0
    ensures Cong(Signed(x, p, sign) * Signed(x, p, sign), x * x, p)
    ensures Cong(Signed(x, p, sign), if sign == -1 then -x else x, p)
  {
    CongIntro(p - x, -x, 1, p);
    CongMul(p - x, -x, p - x, -x, p);
    assert (-x) * (-x) == x * x;
  }

  /** What a has to be for the roots to exist: a residue modulo n that is a square modulo both primes. */
  ghost predicate IsSquare(sr: SquareRoot, a: int)
    requires sr.p > 0 && sr.q > 0
  {
    0 <= a < sr.n && HasRoot(a, sr.p) && HasRoot(a, sr.q)
  }

  lemma CandidateIsRoot(sr: SquareRoot, a: int, signX: int, signY: int)
    requires Valid(sr) && IsSquare(sr, a)
    ensures var x, xp, xq := Candidate(sr, a, signX, signY), sr.msr(a, sr.p), sr.msr(a, sr.q);
      && 0 <= x <= sr.n && (x * x) % sr.n == a
      && Cong(x, if signX == -1 then -xp else xp, sr.p)
      && Cong(x, if signY == -1 then -xq else xq, sr.q)
  {
    InverseU(sr);
    var p, q, xp, xq := sr.p, sr.q, sr.msr(a, sr.p), sr.msr(a, sr.q);
    var yp, yq := Signed(xp, p, signX), Signed(xq, q, signY);
    var x := Candidate(sr, a, signX, signY);
    CrtResidues(yp, p, yq, q, sr.u);
    CrtRange(yp, p, yq, q, sr.u);
    SignedSquare(xp, p, signX);
    SignedSquare(xq, q, signY);
    CongMul(x, yp, x, yp, p);
    CongMul(x, yq, x, yq, q);
    CongProduct(x * x, a, p, q);
    SmallMod(a, sr.n);
  }

  /** square_root succeeds, for any signs, exactly on the squares modulo n. */
  lemma RootExact(sr: SquareRoot, a: int, signX: int, signY: int)
    requires Valid(sr) && (signX == 1 || signX == -1) && (signY == 1 || signY == -1)
    ensures sr.n > 0
    ensures 0 <= a < sr.n && HasRoot(a, sr.n) ==>
      Root(sr, a, signX, signY).Ok? && Root(sr, a, signX, signY).value >= 0 && IsRoot(Root(sr, a, signX, signY).value, a, sr.n)
    ensures !(0 <= a < sr.n && HasRoot(a, sr.n)) ==> Root(sr, a, signX, signY) == Ok(-1)
  {
    InverseU(sr);
    if 0 <= a < sr.n && HasRoot(a, sr.n) {
      SquareModFactors(sr, a);
      CandidateIsRoot(sr, a, signX, signY);
      SmallMod(a, sr.n);
    } else {
      var x := Candidate(sr, a, signX, signY);
      CongMod(x * x, sr.n);
      if (x * x) % sr.n == a { assert IsRoot(x, a, sr.n); }
    }
  }

  lemma SquareModFactors(sr: SquareRoot, a: int)
    requires Valid(sr) && sr.n > 0 && 0 <= a < sr.n && HasRoot(a, sr.n)
    ensures IsSquare(sr, a)
  {
    var x :| IsRoot(x, a, sr.n);
    CongFactor(x * x, a, sr.p, sr.q);
    assert IsRoot(x, a, sr.p) && IsRoot(x, a, sr.q);
  }

  // ---------------------------------------------------------------- the four roots together

  // Flipping both signs negates the root: the two add up to n, exactly.
  lemma OppositeCandidates(sr: SquareRoot, a: int, signX: int, signY: int)
    requires Valid(sr) && IsSquare(sr, a) && (signX == 1 || signX == -1) && (signY == 1 || signY == -1)
    ensures Candidate(sr, a, signX, signY) + Candidate(sr, a, -signX, -signY) == sr.n
  {
    InverseU(sr);
    var p, q := sr.p, sr.q;
    var xp, xq := sr.msr(a, p), sr.msr(a, q);
    var x, y := Candidate(sr, a, signX, signY), Candidate(sr, a, -signX, -signY);
    CandidateIsRoot(sr, a, signX, signY);
    CandidateIsRoot(sr, a, -signX, -signY);
    CongAdd(x, if signX == -1 then -xp else xp, y, if -signX == -1 then -xp else xp, p);
    CongAdd(x, if signY == -1 then -xq else xq, y, if -signY == -1 then -xq else xq, q);
    CongProduct(x + y, 0, p, q);
    CrtRange(Signed(xp, p, signX), p, Signed(xq, q, signY), q, sr.u);
    CrtRange(Signed(xp, p, -signX), p, Signed(xq, q, -signY), q, sr.u);
    OnlyMultiple(x + y, p, q);
  }

  lemma OnlyMultiple(x: int, p: nat, q: nat)
    requires p > 0 && q > 0 && p * q > 0 && Cong(x, 0, p * q) && p <= x <= 2 * (p * (q - 1)) + p
    ensures x == p * q
  {
    SmallMod(0, p * q);
    var k := DividesElim(p * q, x);
    assert 2 * (p * (q - 1)) + p == 2 * (p * q) - p;
    FactorBelow(p * q, k, 2);
    FactorBelow(p * q, 0, k);
  }

  function Low(x: int, n: int): int {
    if x <= n - x then x else n - x
  }

  /** The two roots in [0, n/2], smaller first. */
  function SmallRoots(sr: SquareRoot, a: int): (int, int)
    requires sr.q > 0
  {
    var x, y := Low(Candidate(sr, a, 1, 1), sr.n), Low(Candidate(sr, a, 1, -1), sr.n);
    if x <= y then (x, y) else (y, x)
  }

  function RootList(sr: SquareRoot, a: int): seq<int>
    requires sr.q > 0 && sr.n > 0
  {
    [Root(sr, a, -1, -1).value, Root(sr, a, 1, -1).value, Root(sr, a, -1, 1).value, Root(sr, a, 1, 1).value]
  }

  function RootsInOrder(sr: SquareRoot, a: int): seq<int>
    requires sr.q > 0 && sr.n > 0
  {
    Sort(RootList(sr, a))
  }

  lemma SmallRootsRange(sr: SquareRoot, a: int)
    requires Valid(sr) && IsSquare(sr, a)
    ensures var (e1, e2) := SmallRoots(sr, a); sr.n > 0 && 0 <= e1 <= e2 <= sr.n / 2
  {
    InverseU(sr);
    CandidateIsRoot(sr, a, 1, 1);
    CandidateIsRoot(sr, a, 1, -1);
    LowRange(Candidate(sr, a, 1, 1), sr.n);
    LowRange(Candidate(sr, a, 1, -1), sr.n);
  }

  lemma LowRange(x: int, n: int)
    requires 0 <= x <= n
    ensures 0 <= Low(x, n) <= n / 2
  {
  }

  /** all_square_roots: the sorted roots are e1 <= e2 <= n/2 < n-e2 <= n-e1. */
  lemma RootsAreMirrored(sr: SquareRoot, a: int)
    requires Valid(sr) && IsSquare(sr, a)
    ensures sr.n > 0 && sr.n % 2 == 1
    ensures var (e1, e2) := SmallRoots(sr, a);
      0 <= e1 <= e2 <= sr.n / 2 && IsFour(RootsInOrder(sr, a), e1, e2, sr.n - e2, sr.n - e1)
  {
    SmallRootsRange(sr, a);
    FourRoots(sr, a);
    var x, y := Candidate(sr, a, 1, 1), Candidate(sr, a, 1, -1);
    if Low(x, sr.n) <= Low(y, sr.n) {
      MirroredSortXFirst(RootList(sr, a), x, y, sr.n);
    } else {
      MirroredSortYFirst(RootList(sr, a), x, y, sr.n);
    }
  }

  lemma FourRoots(sr: SquareRoot, a: int)
    requires Valid(sr) && IsSquare(sr, a)
    ensures var n, x, y := sr.n, Candidate(sr, a, 1, 1), Candidate(sr, a, 1, -1);
      && n > 0 && n % 2 == 1 && 0 <= x <= n && 0 <= y <= n
      && IsFour(RootList(sr, a), n - x, y, n - y, x)
  {
    InverseU(sr);
    CandidateIsRoot(sr, a, 1, 1);
    CandidateIsRoot(sr, a, 1, -1);
    CandidateIsRoot(sr, a, -1, 1);
    CandidateIsRoot(sr, a, -1, -1);
    OppositeCandidates(sr, a, 1, 1);
    OppositeCandidates(sr, a, 1, -1);
  }

  lemma MirroredPair(x: int, n: int)
    ensures multiset{n - x, x} == multiset{Low(x, n), n - Low(x, n)} == multiset{x, n - x}
  {
  }

  lemma LowOrder(x: int, y: int, n: int)
    requires n % 2 == 1 && Low(x, n) <= Low(y, n)
    ensures Low(x, n) <= Low(y, n) <= n - Low(y, n) <= n - Low(x, n)
  {
  }

  // The inner and the outer pair of a sorted list of four, whichever pair of the list they come from.
  lemma SortPairs(s: seq<int>, a: int, b: int, c: int, d: int, e: int, f: int, g: int, h: int)
    requires IsFour(s, a, b, c, d) && e <= f <= g <= h
    requires (multiset{a, d} == multiset{e, h} && multiset{b, c} == multiset{f, g})
          || (multiset{a, d} == multiset{f, g} && multiset{b, c} == multiset{e, h})
    ensures IsFour(Sort(s), e, f, g, h)
  {
    MultisetSwap(multiset{e, h}, multiset{f, g});
    SortFour(s, a, b, c, d, e, f, g, h);
  }

  lemma MultisetSwap(a: multiset<int>, b: multiset<int>)
    ensures a + b == b + a
  {
  }

  lemma MirroredSortXFirst(s: seq<int>, x: int, y: int, n: int)
    requires n % 2 == 1 && IsFour(s, n - x, y, n - y, x) && Low(x, n) <= Low(y, n)
    ensures IsFour(Sort(s), Low(x, n), Low(y, n), n - Low(y, n), n - Low(x, n))
  {
    MirroredPair(x, n);
    MirroredPair(y, n);
    LowOrder(x, y, n);
    SortPairs(s, n - x, y, n - y, x, Low(x, n), Low(y, n), n - Low(y, n), n - Low(x, n));
  }

  lemma MirroredSortYFirst(s: seq<int>, x: int, y: int, n: int)
    requires n % 2 == 1 && IsFour(s, n - x, y, n - y, x) && Low(y, n) <= Low(x, n)
    ensures IsFour(Sort(s), Low(y, n), Low(x, n), n - Low(x, n), n - Low(y, n))
  {
    MirroredPair(x, n);
    MirroredPair(y, n);
    LowOrder(y, x, n);
    SortPairs(s, n - x, y, n - y, x, Low(y, n), Low(x, n), n - Low(x, n), n - Low(y, n));
  }

  // Either small root squares to a.
  lemma SmallRootsAreRoots(sr: SquareRoot, a: int)
    requires Valid(sr) && IsSquare(sr, a)
    ensures var (e1, e2) := SmallRoots(sr, a);
      sr.n > 0 && (e1 * e1) % sr.n == a && (e2 * e2) % sr.n == a
  {
    InverseU(sr);
    CandidateIsRoot(sr, a, 1, 1);
    CandidateIsRoot(sr, a, 1, -1);
    NegatedSquare(Candidate(sr, a, 1, 1), sr.n);
    NegatedSquare(Candidate(sr, a, 1, -1), sr.n);
  }

  lemma NegatedSquare(x: int, n: nat)
    requires n > 0
    ensures Cong((n - x) * (n - x), x * x, n)
  {
    CongIntro(n - x, -x, 1, n);
    CongMul(n - x, -x, n - x, -x, n);
    assert (-x) * (-x) == x * x;
  }

  // A square root modulo a prime is one of the two signed ones.
  lemma RootUpToSign(p: nat, x: int, r: int) returns (sign: int)
    requires Prime(p) && Cong(x * x, r * r, p)
    ensures (sign == 1 || sign == -1) && Cong(x, if sign == -1 then -r else r, p)
  {
    CongDivides(x * x, r * r, p);
    assert x * x - r * r == (x - r) * (x + r);
    EuclidsLemma(p, x - r, x + r);
    CongDivides(x, r, p);
    CongDivides(x, -r, p);
    sign := if Divides(p, x - r) then 1 else -1;
  }

  /** Whichever x in [0, n/2] the buyer squared, the honest seller finds it, coprime to n or not. */
  lemma ChosenRootIsFound(sr: SquareRoot, x: int)
    requires Valid(sr) && 0 <= x <= sr.n / 2
    ensures sr.n > 0 && IsSquare(sr, (x * x) % sr.n)
    ensures x == SmallRoots(sr, (x * x) % sr.n).0 || x == SmallRoots(sr, (x * x) % sr.n).1
  {
    InverseU(sr);
    var p, q, n := sr.p, sr.q, sr.n;
    var a := (x * x) % n;
    CongMod(x * x, n);
    CongFactor(x * x, a, p, q);
    assert IsRoot(x, a, p) && IsRoot(x, a, q);
    var signX := RootUpToSign(p, x, sr.msr(a, p));
    var signY := RootUpToSign(q, x, sr.msr(a, q));
    var y := Candidate(sr, a, signX, signY);
    CandidateIsRoot(sr, a, signX, signY);
    CongProduct(x, y, p, q);
    CongruentUpTo(x, y, n);
    OppositeCandidates(sr, a, 1, 1);
    OppositeCandidates(sr, a, 1, -1);
  }

  // Residues in [0, n] are congruent only when equal or the two ends.
  lemma CongruentUpTo(x: int, y: int, n: nat)
    requires n > 0 && 0 <= x <= n && 0 <= y <= n
    ensures Cong(x, y, n) <==> x == y || (x == 0 && y == n) || (x == n && y == 0)
  {
    DivModUnique(n, 1, 0, n);
    SmallMod(0, n);
    if x < n { SmallMod(x, n); }
    if y < n { SmallMod(y, n); }
  }

  // ---------------------------------------------------------------- when the small roots differ

  lemma TwiceDivides(p: nat, x: int)
    requires Prime(p) && p > 2
    ensures Cong(x, -x, p) <==> Divides(p, x)
  {
    CongDivides(x, -x, p);
    assert x - (-x) == 2 * x;
    if Divides(p, 2 * x) {
      EuclidsLemma(p, 2, x);
      SmallMod(2, p);
    }
    if Divides(p, x) { DividesMul(p, x, 2); }
  }

  lemma DividesSquare(p: nat, x: int, a: int)
    requires Prime(p) && IsRoot(x, a, p)
    ensures Divides(p, x) <==> Divides(p, a)
  {
    PrimeDividesProduct(p, x, x);
  }

  /** The two small roots coincide exactly when the square shares a factor with n. */
  lemma SmallRootsCoincide(sr: SquareRoot, a: int)
    requires Valid(sr) && IsSquare(sr, a)
    ensures SmallRoots(sr, a).0 == SmallRoots(sr, a).1 <==> Divides(sr.p, a) || Divides(sr.q, a)
  {
    InverseU(sr);
    var p, q, n := sr.p, sr.q, sr.n;
    var xp, xq := sr.msr(a, p), sr.msr(a, q);
    var x, y, y' := Candidate(sr, a, 1, 1), Candidate(sr, a, 1, -1), Candidate(sr, a, -1, 1);
    CandidateIsRoot(sr, a, 1, 1);
    CandidateIsRoot(sr, a, 1, -1);
    CandidateIsRoot(sr, a, -1, 1);
    OppositeCandidates(sr, a, 1, -1);
    TwiceDivides(p, xp);
    TwiceDivides(q, xq);
    DividesSquare(p, xp, a);
    DividesSquare(q, xq, a);
    CongruentUpTo(x, y, n);
    CongruentUpTo(x, y', n);
    CongBoth(x, y, p, q);
    CongBoth(x, y', p, q);
  }

  lemma CongBoth(x: int, y: int, p: nat, q: nat)
    requires p > 0 && q > 0 && Gcd(p, q) == 1 && p * q > 0
    ensures Cong(x, y, p * q) <==> Cong(x, y, p) && Cong(x, y, q)
  {
    if Cong(x, y, p * q) { CongFactor(x, y, p, q); }
    if Cong(x, y, p) && Cong(x, y, q) { CongProduct(x, y, p, q); }
  }

  lemma CoprimeCoincide(sr: SquareRoot, a: int)
    requires Valid(sr) && IsSquare(sr, a) && sr.n > 0
    ensures SmallRoots(sr, a).0 == SmallRoots(sr, a).1 <==> Gcd(a, sr.n) != 1
  {
    SmallRootsCoincide(sr, a);
    CoprimeToProduct(sr.p, sr.q, a);
  }

  lemma SmallRootsDistinct(sr: SquareRoot, a: int)
    requires Valid(sr) && IsSquare(sr, a) && sr.n > 0 && Gcd(a, sr.n) == 1
    ensures var (e1, e2) := SmallRoots(sr, a);
      && 0 <= e1 < e2 <= sr.n / 2 < sr.n - e2 < sr.n - e1 <= sr.n
      && !Cong(e1, e2, sr.n) && !Cong(e1, -e2, sr.n)
  {
    var (e1, e2) := SmallRoots(sr, a);
    SmallRootsRange(sr, a);
    CoprimeCoincide(sr, a);
    InverseU(sr);
    SmallRootsApart(e1, e2, sr.n);
    MirrorRange(e1, e2, sr.n);
  }

  /** For a square coprime to n: four distinct roots, exactly the first two of them at most n/2,
      and those two neither equal nor negatives of each other. */
  lemma FourDistinctRoots(sr: SquareRoot, a: int)
    requires Valid(sr) && IsSquare(sr, a) && sr.n > 0 && Gcd(a, sr.n) == 1
    ensures var (e1, e2) := SmallRoots(sr, a);
      && IsFour(RootsInOrder(sr, a), e1, e2, sr.n - e2, sr.n - e1)
      && 0 <= e1 < e2 <= sr.n / 2 < sr.n - e2 < sr.n - e1 <= sr.n
      && !Cong(e1, e2, sr.n) && !Cong(e1, -e2, sr.n)
  {
    RootsAreMirrored(sr, a);
    SmallRootsDistinct(sr, a);
  }

  lemma MirrorRange(e1: int, e2: int, n: int)
    requires 0 <= e1 < e2 <= n / 2 && n % 2 == 1
    ensures e2 <= n / 2 < n - e2 < n - e1 <= n
  {
  }

  lemma SmallRootsApart(e1: int, e2: int, n: nat)
    requires 0 <= e1 <= n / 2 && 0 <= e2 <= n / 2 && e1 != e2 && n % 2 == 1
    ensures !Cong(e1, e2, n) && !Cong(e1, -e2, n)
  {
    CongruentUpTo(e1, e2, n);
    CongruentUpTo(e1, n - e2, n);
    CongIntro(n - e2, -e2, 1, n);
  }

  method AllSquareRoots(sr: SquareRoot, a: int) returns (res: array<int>)
    requires Valid(sr) && sr.n > 0
    ensures fresh(res) && res.Length == 4 && res[..] == RootsInOrder(sr, a)
  {
    res := new int[4];
    var r1 := Root(sr, a, -1, -1).value;
    var r2 := Root(sr, a, 1, -1).value;
    var r3 := Root(sr, a, -1, 1).value;
    var r4 := Root(sr, a, 1, 1).value;
    res[0] := r1;
    res[1] := r2;
    res[2] := r3;
    res[3] := r4;
    assert res[..] == [r1, r2, r3, r4];
    SortInPlace(res);
  }

  // ---------------------------------------------------------------- factoring from two roots

  lemma GcdWithProduct(p: nat, q: nat, n: nat, x: nat)
    requires Prime(p) && Prime(q) && p != q && n > 0 && n == p * q
    ensures Gcd(x, n) == (if Divides(p, x) then p else 1) * (if Divides(q, x) then q else 1)
  {
    CoprimeToProduct(p, q, x);
    DividesIntro(p, q);
    DividesIntro(q, p);
    DistinctPrimesCoprime(p, q);
    GcdDivides(x, n);
    var g := Gcd(x, n);
    if Divides(p, x) && Divides(q, x) {
      CoprimeProductDivides(p, q, x);
      DividesIntro(n, 1);
      CommonDivisorDividesGcd(n, x, n);
      DividesLe(g, n);
      DividesLe(n, g);
    } else if Divides(p, x) {
      CommonDivisorDividesGcd(p, x, n);
      DivisorOfProduct(p, q, g);
      DividesTransIfNot(q, g, x);
    } else if Divides(q, x) {
      CommonDivisorDividesGcd(q, x, n);
      assert q * p == n;
      DivisorOfProduct(q, p, g);
      DividesTransIfNot(p, g, x);
    }
  }

  lemma DividesTransIfNot(q: nat, g: nat, x: int)
    requires q > 0 && g > 0 && Divides(g, x) && !Divides(q, x)
    ensures !Divides(q, g)
  {
    if Divides(q, g) { DividesTrans(q, g, x); }
  }

  // A divisor of pq that p divides is p or pq.
  lemma DivisorOfProduct(p: nat, q: nat, g: nat)
    requires p > 0 && Prime(q) && g > 0 && p * q > 0 && Divides(g, p * q) && Divides(p, g)
    ensures g == p || Divides(q, g)
  {
    var k := DividesElim(p, g);
    PositiveFactor(p, k);
    var l := DividesElim(g, p * q);
    CancelFactor(p, q, k, l);
    DividesIntro(k, l);
    DividesLe(k, q);
    if k == q { DividesIntro(q, p); }
  }

  lemma CancelFactor(p: int, q: int, k: int, l: int)
    requires p > 0 && p * q == (p * k) * l
    ensures q == k * l
  {
    assert (p * k) * l == p * (k * l);
    CancelLeft(p, q, k * l);
  }

  lemma CancelLeft(p: int, a: int, b: int)
    requires p > 0 && p * a == p * b
    ensures a == b
  {
  }

  function Abs(x: int): nat {
    if x < 0 then -x else x
  }

  /** The two GCDs of Buyer::factorise; Crypto++'s GCD ignores the sign of its arguments. */
  function Split(n: nat, r1: int, r2: int): (int, int) {
    (Gcd(Abs(n + r1 - r2), n), Gcd(Abs(r1 + r2), n))
  }

  function Share(p: int, divides: bool): int {
    if divides then p else 1
  }

  lemma DividesAbs(d: nat, x: int)
    requires d > 0
    ensures Divides(d, Abs(x)) <==> Divides(d, x)
  {
    if Divides(d, x) { DividesMul(d, x, -1); }
    if Divides(d, -x) { DividesMul(d, -x, -1); }
  }

  // Modulo one factor of n, n itself drops out.
  lemma SplitModPrime(p: nat, k: nat, n: nat, r1: int, r2: int)
    requires p > 0 && n == k * p
    ensures Divides(p, Abs(n + r1 - r2)) <==> Cong(r1, r2, p)
    ensures Divides(p, Abs(r1 + r2)) <==> Cong(r1, -r2, p)
  {
    DividesAbs(p, n + r1 - r2);
    DividesAbs(p, r1 + r2);
    CongIntro(n + r1 - r2, r1 - r2, k, p);
    CongDivides(r1, r2, p);
    DividesSum(p, r1, r2);
  }

  lemma DividesSum(p: nat, r1: int, r2: int)
    requires p > 0
    ensures Divides(p, r1 + r2) <==> Cong(r1, -r2, p)
  {
    CongDivides(r1, -r2, p);
  }

  // Each GCD collects the primes modulo which the roots agree, up to the sign it looks at.
  lemma SplitValues(p: nat, q: nat, n: nat, r1: int, r2: int)
    requires Prime(p) && Prime(q) && p != q && n == p * q
    ensures Split(n, r1, r2).0 == Share(p, Cong(r1, r2, p)) * Share(q, Cong(r1, r2, q))
    ensures Split(n, r1, r2).1 == Share(p, Cong(r1, -r2, p)) * Share(q, Cong(r1, -r2, q))
  {
    MulPositive(p, q);
    assert n == q * p;
    SplitModPrime(p, q, n, r1, r2);
    SplitModPrime(q, p, n, r1, r2);
    GcdWithProduct(p, q, n, Abs(n + r1 - r2));
    GcdWithProduct(p, q, n, Abs(r1 + r2));
  }

  lemma AgreeUpToSign(p: nat, x: int, r: int)
    requires Prime(p) && Cong(x * x, r * r, p)
    ensures Cong(x, r, p) || Cong(x, -r, p)
  {
    var sign := RootUpToSign(p, x, r);
  }

  /** Two roots of the same square that are not equal up to sign split n into its primes. */
  lemma DifferentRootsSplit(p: nat, q: nat, n: nat, r1: int, r2: int)
    requires Prime(p) && Prime(q) && p != q && n > 0 && n == p * q
    requires Cong(r1 * r1, r2 * r2, n) && !Cong(r1, r2, n) && !Cong(r1, -r2, n)
    ensures Split(n, r1, r2) == (p, q) || Split(n, r1, r2) == (q, p)
  {
    DistinctPrimesCoprime(p, q);
    CongBoth(r1, r2, p, q);
    CongBoth(r1, -r2, p, q);
    CongFactor(r1 * r1, r2 * r2, p, q);
    AgreeUpToSign(p, r1, r2);
    AgreeUpToSign(q, r1, r2);
    SplitValues(p, q, n, r1, r2);
  }

  // x is 1, p or p^2, and y is 1, q or q^2: only p and q multiply to pq.
  lemma OnlyOneEach(p: nat, q: nat, x: nat, y: nat)
    requires p > 1 && q > 1 && p != q && (x == 1 || x == p || x == p * p) && (y == 1 || y == q || y == q * q)
    requires x * y == p * q
    ensures x == p && y == q
  {
    if x == p {
      CancelLeft(p, y, q);
    } else if x == 1 {
      NotTheProduct(p, q, y);
    } else {
      assert (p * p) * y == p * (p * y);
      CancelLeft(p, p * y, q);
      SquareFactor(p, q, y);
    }
  }

  lemma NotTheProduct(p: nat, q: nat, y: nat)
    requires p > 1 && q > 1 && p != q && (y == 1 || y == q || y == q * q)
    ensures y != p * q
  {
    ProductExceeds(p, q);
    if q * q == p * q { CancelLeft(q, q, p); }
  }

  lemma SquareFactor(p: nat, q: nat, y: nat)
    requires p > 1 && q > 1 && p != q && (y == 1 || y == q || y == q * q)
    ensures p * y != q
  {
    ProductExceeds(p, q);
    if y == q * q {
      ProductExceeds(q, q);
      MulMonotone(1, y, p, y);
    }
  }

  lemma ShareProduct(p: nat, d: bool, e: bool)
    ensures var x := Share(p, d) * Share(p, e);
      (d != e ==> x == p) && (d && e ==> x == p * p) && (!d && !e ==> x == 1)
  {
  }

  lemma ProductByPrime(p: nat, q: nat, a: bool, b: bool, c: bool, d: bool)
    requires p > 1 && q > 1 && p != q
    ensures (Share(p, a) * Share(q, c)) * (Share(p, b) * Share(q, d)) == p * q <==> a != b && c != d
  {
    MulSwap(Share(p, a), Share(q, c), Share(p, b), Share(q, d));
    ShareProduct(p, a, b);
    ShareProduct(q, c, d);
    var x, y := Share(p, a) * Share(p, b), Share(q, c) * Share(q, d);
    if x * y == p * q {
      OnlyOneEach(p, q, x, y);
      SquareDiffers(p);
      SquareDiffers(q);
    }
  }

  lemma SquareDiffers(p: nat)
    requires p > 1
    ensures p * p != p && p != 1
  {
  }

  /** The product test accepts r1 and r2 exactly when each prime sees them equal up to exactly one
      sign.  The accepted pair is the factorisation unless r1 = +-r2 modulo n, and then it is n*1. */
  lemma AcceptedSplits(p: nat, q: nat, n: nat, r1: int, r2: int)
    requires Prime(p) && Prime(q) && p != q && n > 0 && n == p * q
    ensures var (g, h) := Split(n, r1, r2);
      && (g * h == n <==> Cong(r1, r2, p) != Cong(r1, -r2, p) && Cong(r1, r2, q) != Cong(r1, -r2, q))
      && (g * h == n ==> ((g == n && h == 1) <==> Cong(r1, r2, n)))
      && (g * h == n ==> ((g == 1 && h == n) <==> Cong(r1, -r2, n)))
      && (g * h == n && !Cong(r1, r2, n) && !Cong(r1, -r2, n) ==> (g == p && h == q) || (g == q && h == p))
  {
    SplitValues(p, q, n, r1, r2);
    ProductByPrime(p, q, Cong(r1, r2, p), Cong(r1, -r2, p), Cong(r1, r2, q), Cong(r1, -r2, q));
    DistinctPrimesCoprime(p, q);
    CongBoth(r1, r2, p, q);
    CongBoth(r1, -r2, p, q);
    ProductExceeds(p, q);
  }

  lemma ProductExceeds(p: nat, q: nat)
    requires p > 1 && q > 1
    ensures p * q > p && p * q > q
  {
  }

  /** Equal roots coprime to an odd n are accepted with the trivial split, so a genuine
      factorisation depends on the seller's roots being honest. */
  lemma TrivialSplitAccepted(n: nat)
    requires n > 2 && n % 2 == 1
    ensures Split(n, 1, 1) == (n, 1) && Split(n, 1, 1).0 * Split(n, 1, 1).1 == n
  {
    DivModUnique(n, 1, 0, n);
    assert Gcd(n, n) == Gcd(n, n % n) == n;
    SmallMod(2, n);
    assert Gcd(2, n) == Gcd(n, 2) == Gcd(2, 1) == Gcd(1, 0) == 1;
  }

  // ---------------------------------------------------------------- what the small roots mean

  /** r1 and r2 are all the roots of a in [0, n/2], in some order; there is only one of them exactly
      when a shares a factor with n.  This does not mention how they are found. */
  ghost predicate SmallPair(n: nat, a: int, r1: int, r2: int)
    requires n > 0
  {
    && a >= 0 && 0 <= r1 <= n / 2 && 0 <= r2 <= n / 2 && IsRoot(r1, a, n) && IsRoot(r2, a, n)
    && (forall x :: 0 <= x <= n / 2 && IsRoot(x, a, n) ==> x == r1 || x == r2)
    && (r1 == r2 <==> Gcd(a, n) != 1)
  }

  lemma SmallRootsArePair(sr: SquareRoot, a: int)
    requires Valid(sr) && IsSquare(sr, a)
    ensures sr.n > 0 && SmallPair(sr.n, a, SmallRoots(sr, a).0, SmallRoots(sr, a).1)
  {
    SmallRootsRange(sr, a);
    SmallRootsAreRoots(sr, a);
    CoprimeCoincide(sr, a);
    SmallMod(a, sr.n);
    forall x | 0 <= x <= sr.n / 2 && IsRoot(x, a, sr.n)
      ensures x == SmallRoots(sr, a).0 || x == SmallRoots(sr, a).1
    {
      ChosenRootIsFound(sr, x);
    }
  }

  /** The first two entries of all_square_roots are the small pair, smaller first; when a is not a
      square modulo n all four are -1. */
  lemma FirstTwoRoots(sr: SquareRoot, a: int)
    requires Valid(sr)
    ensures sr.n > 0 && |RootsInOrder(sr, a)| == 4
    ensures IsSquare(sr, a) ==> RootsInOrder(sr, a)[0] <= RootsInOrder(sr, a)[1]
    ensures IsSquare(sr, a) ==> SmallPair(sr.n, a, RootsInOrder(sr, a)[0], RootsInOrder(sr, a)[1])
    ensures !IsSquare(sr, a) ==> RootsInOrder(sr, a)[0] == RootsInOrder(sr, a)[1] == -1
  {
    InverseU(sr);
    if IsSquare(sr, a) {
      RootsAreMirrored(sr, a);
      SmallRootsArePair(sr, a);
    } else {
      NoRoots(sr, a);
      AllEqualSorted(RootList(sr, a), -1);
    }
  }

  lemma NoRoots(sr: SquareRoot, a: int)
    requires Valid(sr) && sr.n > 0 && !IsSquare(sr, a)
    ensures IsFour(RootList(sr, a), -1, -1, -1, -1)
  {
    if 0 <= a < sr.n && HasRoot(a, sr.n) { SquareModFactors(sr, a); }
    RootExact(sr, a, 1, 1);
    RootExact(sr, a, 1, -1);
    RootExact(sr, a, -1, 1);
    RootExact(sr, a, -1, -1);
  }

  lemma AllEqualSorted(s: seq<int>, x: int)
    requires IsFour(s, x, x, x, x)
    ensures IsFour(Sort(s), x, x, x, x)
  {
    SortFour(s, x, x, x, x, x, x, x, x);
  }

  /** r1 and r2 are the buyer's x and the seller's alternative to it: roots of x*x in [0, n/2], one of
      them x, and different exactly when x is coprime to n. */
  predicate HonestRoots(n: nat, x: int, r1: int, r2: int)
    requires n > 0
  {
    && x >= 0 && 0 <= r1 <= n / 2 && 0 <= r2 <= n / 2 && IsRoot(r1, x * x, n) && IsRoot(r2, x * x, n)
    && (x == r1 || x == r2)
    && (r1 == r2 <==> Gcd(x, n) != 1)
  }

  lemma PairOfSquare(sr: SquareRoot, x: int, r1: int, r2: int)
    requires Valid(sr) && sr.n > 0 && 0 <= x <= sr.n / 2 && SmallPair(sr.n, (x * x) % sr.n, r1, r2)
    ensures HonestRoots(sr.n, x, r1, r2)
  {
    CongMod(x * x, sr.n);
    assert IsRoot(x, (x * x) % sr.n, sr.n);
    CoprimeSquare(sr, x);
    CoprimeToProduct(sr.p, sr.q, (x * x) % sr.n);
  }

  /** The factors read off honest roots of x^2: the primes when gcd(x, n) = 1, and otherwise a pair
      whose product is not n, so that the product test rejects it. */
  lemma HonestRootsFactor(p: nat, q: nat, n: nat, x: int, r1: int, r2: int)
    requires Prime(p) && Prime(q) && p != q && n > 0 && n == p * q && n % 2 == 1 && HonestRoots(n, x, r1, r2)
    ensures Gcd(x, n) == 1 ==> Split(n, r1, r2) == (p, q) || Split(n, r1, r2) == (q, p)
    ensures Gcd(x, n) != 1 ==> Split(n, r1, r2).0 * Split(n, r1, r2).1 != n
  {
    if Gcd(x, n) == 1 {
      SmallRootsApart(r1, r2, n);
      DifferentRootsSplit(p, q, n, r1, r2);
    } else {
      EqualRootsRejected(p, q, x);
    }
  }

  // Twice the same root, of a number that shares a factor with n: the GCDs multiply to more than n.
  lemma EqualRootsRejected(p: nat, q: nat, x: nat)
    requires Prime(p) && Prime(q) && p != q && p * q > 0 && Gcd(x, p * q) != 1
    ensures Split(p * q, x, x).0 * Split(p * q, x, x).1 != p * q
  {
    var n := p * q;
    GcdWithProduct(p, q, n, n);
    GcdWithProduct(p, q, n, 2 * x);
    DividesIntro(p, q);
    DividesIntro(q, p);
    CoprimeToProduct(p, q, x);
    if Divides(p, x) { DividesMul(p, x, 2); } else { DividesMul(q, x, 2); }
    CoprimeToProduct(p, q, 2 * x);
    GcdDivides(2 * x, n);
    TrivialProduct(n, Gcd(2 * x, n));
  }

  lemma TrivialProduct(n: nat, g: nat)
    requires n > 0 && g > 1
    ensures n * g != n
  {
  }

  lemma CoprimeSquare(sr: SquareRoot, x: int)
    requires Valid(sr) && sr.n > 0 && x >= 0
    ensures Gcd(x, sr.n) == 1 <==> !(Divides(sr.p, (x * x) % sr.n) || Divides(sr.q, (x * x) % sr.n))
  {
    var a := (x * x) % sr.n;
    CoprimeToProduct(sr.p, sr.q, x);
    CongMod(x * x, sr.n);
    CongFactor(x * x, a, sr.p, sr.q);
    DividesSquare(sr.p, x, a);
    DividesSquare(sr.q, x, a);
  }
}
