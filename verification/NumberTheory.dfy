/**
 The arithmetic the protocol rests on: congruences, powers, the Euclidean algorithm with its
 Bezout coefficients, inverses, primes, Fermat's little theorem, and gluing congruences modulo
 two coprime moduli.  `/` and `%` are Euclidean, as Crypto++'s `Integer` division is: the
 remainder is never negative.
 */
module NumberTheory {
  import opened Sorting

  // ---------------------------------------------------------------- division and congruence

  // The only multiple of m strictly between -m and m is 0.
  lemma SmallMultiple(k: int, m: int)
    requires -m < k * m < m
    ensures k == 0
  {
  }

  // The rearrangements the proofs below need, kept apart from divisions and remainders.
  lemma MulSwap(a: int, b: int, x: int, y: int)
    ensures (a * b) * (x * y) == (a * x) * (b * y)
  {
    calc {
      (a * b) * (x * y);
      a * (b * (x * y));
      a * (x * (b * y));
      (a * x) * (b * y);
    }
  }

  lemma CommonFactor(g: int, k: int, l: int, x: int, y: int)
    ensures x * (g * k) + y * (g * l) == g * (x * k + y * l)
  {
    assert x * (g * k) == g * (x * k);
    assert y * (g * l) == g * (y * l);
  }

  lemma DivModUnique(a: int, q: int, r: int, m: int)
    requires 0 <= r < m
    requires a == q * m + r
    ensures a / m == q && a % m == r
  {
    SmallMultiple(q - a / m, m);
  }

  predicate Divides(d: int, a: int)
    requires d > 0
  {
    a % d == 0
  }

  predicate Cong(a: int, b: int, m: int)
    requires m > 0
  {
    a % m == b % m
  }

  lemma DividesIntro(d: int, k: int)
    requires d > 0
    ensures Divides(d, d * k) && Divides(d, k * d) && (d * k) / d == k
  {
    DivModUnique(d * k, k, 0, d);
  }

  lemma DividesElim(d: int, a: int) returns (k: int)
    requires d > 0 && Divides(d, a)
    ensures a == d * k && k == a / d
  {
    k := a / d;
  }

  lemma CongIntro(a: int, b: int, k: int, m: int)
    requires m > 0
    requires a == b + k * m
    ensures Cong(a, b, m)
  {
    var q, r := b / m, b % m;
    assert a == (q + k) * m + r;
    DivModUnique(a, q + k, r, m);
  }

  lemma CongElim(a: int, b: int, m: int) returns (k: int)
    requires m > 0 && Cong(a, b, m)
    ensures a == b + k * m
  {
    k := a / m - b / m;
    assert k * m == (a / m) * m - (b / m) * m;
  }

  lemma CongDivides(a: int, b: int, m: int)
    requires m > 0
    ensures Cong(a, b, m) <==> Divides(m, a - b)
  {
    if Cong(a, b, m) {
      var k := CongElim(a, b, m);
      DividesIntro(m, k);
    }
    if Divides(m, a - b) {
      var k := DividesElim(m, a - b);
      CongIntro(a, b, k, m);
    }
  }

  lemma CongMod(a: int, m: int)
    requires m > 0
    ensures Cong(a % m, a, m) && 0 <= a % m < m
  {
    CongIntro(a % m, a, -(a / m), m);
  }

  lemma CongAdd(a: int, b: int, c: int, d: int, m: int)
    requires m > 0 && Cong(a, b, m) && Cong(c, d, m)
    ensures Cong(a + c, b + d, m) && Cong(a - c, b - d, m)
  {
    var k := CongElim(a, b, m);
    var l := CongElim(c, d, m);
    CongIntro(a + c, b + d, k + l, m);
    CongIntro(a - c, b - d, k - l, m);
  }

  lemma MulExpand(b: int, k: int, d: int, l: int, m: int)
    ensures (b + k * m) * (d + l * m) == b * d + (b * l + k * d + k * m * l) * m
  {
    var x, y := k * m, l * m;
    assert (b + x) * (d + y) == b * d + b * y + x * d + x * y;
    assert b * y == (b * l) * m;
    assert x * d == (k * d) * m;
    assert x * y == (k * m * l) * m;
  }

  lemma CongMul(a: int, b: int, c: int, d: int, m: int)
    requires m > 0 && Cong(a, b, m) && Cong(c, d, m)
    ensures Cong(a * c, b * d, m)
  {
    var k := CongElim(a, b, m);
    var l := CongElim(c, d, m);
    MulExpand(b, k, d, l, m);
    CongIntro(a * c, b * d, b * l + k * d + k * m * l, m);
  }

  lemma SmallMod(a: int, m: int)
    requires 0 <= a < m
    ensures a % m == a && a / m == 0
  {
    DivModUnique(a, 0, a, m);
  }

  // Two congruent residues are equal.
  lemma CongSmall(a: int, b: int, m: int)
    requires m > 0 && Cong(a, b, m) && 0 <= a < m && 0 <= b < m
    ensures a == b
  {
    SmallMod(a, m);
    SmallMod(b, m);
  }

  // A congruence modulo a product holds modulo each factor.
  lemma CongFactor(a: int, b: int, p: int, q: int)
    requires p > 0 && q > 0 && p * q > 0 && Cong(a, b, p * q)
    ensures Cong(a, b, p) && Cong(a, b, q)
  {
    var k := CongElim(a, b, p * q);
    assert k * (p * q) == (k * q) * p == (k * p) * q;
    CongIntro(a, b, k * q, p);
    CongIntro(a, b, k * p, q);
  }

  lemma DividesMul(d: int, a: int, b: int)
    requires d > 0 && Divides(d, a)
    ensures Divides(d, a * b) && Divides(d, b * a)
  {
    var k := DividesElim(d, a);
    assert a * b == d * (k * b);
    DividesIntro(d, k * b);
  }

  lemma DividesTrans(d: int, e: int, a: int)
    requires d > 0 && e > 0 && Divides(d, e) && Divides(e, a)
    ensures Divides(d, a)
  {
    var k := DividesElim(e, a);
    DividesMul(d, e, k);
  }

  lemma PositiveFactor(d: int, k: int)
    requires d > 0 && d * k > 0
    ensures k >= 1 && d <= d * k
  {
  }

  lemma MulPositive(a: int, b: int)
    requires a > 0 && b > 0
    ensures a * b > 0
  {
  }

  lemma MulMonotone(a: int, b: int, c: int, d: int)
    requires 0 <= a <= c && 0 <= b <= d
    ensures 0 <= a * b <= c * d
  {
    assert a * b <= a * d;
    assert a * d <= c * d;
  }

  lemma FactorBelow(p: int, k: int, m: int)
    requires p > 0 && p * k < p * m
    ensures k < m
  {
  }

  lemma DividesLe(d: int, a: int)
    requires d > 0 && a > 0 && Divides(d, a)
    ensures d <= a
  {
    var k := DividesElim(d, a);
    PositiveFactor(d, k);
  }

  // ---------------------------------------------------------------- powers

  function Pow(b: int, e: nat): int
  {
    if e == 0 then 1 else b * Pow(b, e - 1)
  }

  /** a_exp_b_mod_c of Crypto++. */
  function ModPow(b: int, e: nat, m: int): int
    requires m > 0
  {
    Pow(b, e) % m
  }

  lemma {:induction false} PowAdd(b: int, e: nat, f: nat)
    ensures Pow(b, e + f) == Pow(b, e) * Pow(b, f)
  {
    if e == 0 {
    } else {
      PowAdd(b, e - 1, f);
      assert Pow(b, e + f) == b * (Pow(b, e - 1) * Pow(b, f));
    }
  }

  lemma {:induction false} PowMul(b: int, e: nat, f: nat)
    ensures e * f >= 0 && Pow(Pow(b, e), f) == Pow(b, e * f)
  {
    if f == 0 {
      assert e * f == 0;
    } else {
      PowMul(b, e, f - 1);
      assert e * f == e + e * (f - 1);
      PowAdd(b, e, e * (f - 1));
    }
  }

  lemma {:induction false} PowDistributes(a: int, b: int, e: nat)
    ensures Pow(a * b, e) == Pow(a, e) * Pow(b, e)
  {
    if e == 0 {
    } else {
      PowDistributes(a, b, e - 1);
      MulSwap(a, b, Pow(a, e - 1), Pow(b, e - 1));
    }
  }

  lemma {:induction false} PowOne(e: nat)
    ensures Pow(1, e) == 1
  {
    if e > 0 { PowOne(e - 1); }
  }

  lemma {:induction false} PowPositive(b: int, e: nat)
    requires b > 0
    ensures Pow(b, e) > 0
  {
    if e > 0 { PowPositive(b, e - 1); }
  }

  lemma {:induction false} PowMonotone(b: int, e: nat, f: nat)
    requires b > 0 && e <= f
    ensures 0 < Pow(b, e) <= Pow(b, f)
  {
    PowAdd(b, e, f - e);
    PowPositive(b, e);
    PowPositive(b, f - e);
    var x, y := Pow(b, e), Pow(b, f - e);
    assert x * y >= x;
  }

  lemma {:induction false} PowCong(a: int, b: int, e: nat, m: int)
    requires m > 0 && Cong(a, b, m)
    ensures Cong(Pow(a, e), Pow(b, e), m)
  {
    if e > 0 {
      PowCong(a, b, e - 1, m);
      CongMul(a, b, Pow(a, e - 1), Pow(b, e - 1), m);
    }
  }

  lemma DividesPow(d: int, a: int, e: nat)
    requires d > 0 && Divides(d, a) && e > 0
    ensures Divides(d, Pow(a, e))
  {
    DividesMul(d, a, Pow(a, e - 1));
  }

  // ---------------------------------------------------------------- gcd and inverses

  /** Crypto++'s GCD on non-negative arguments: the Euclidean algorithm. */
  function Gcd(a: nat, b: nat): nat
    decreases b
  {
    if b == 0 then a else Gcd(b, a % b)
  }

  /** Coefficients x, y with x*a + y*b == Gcd(a, b). */
  function Bezout(a: nat, b: nat): (xy: (int, int))
    decreases b
    ensures xy.0 * a + xy.1 * b == Gcd(a, b)
  {
    if b == 0 then (1, 0) else
      var (x, y) := Bezout(b, a % b);
      BezoutStep(a, b, x, y);
      (y, x - (a / b) * y)
  }

  lemma BezoutStep(a: nat, b: nat, x: int, y: int)
    requires b > 0
    ensures y * a + (x - (a / b) * y) * b == x * b + y * (a % b)
  {
    assert a == (a / b) * b + a % b;
    assert y * a == y * ((a / b) * b) + y * (a % b);
    assert ((a / b) * y) * b == y * ((a / b) * b);
  }

  lemma {:induction false} GcdDivides(a: nat, b: nat)
    requires a > 0 || b > 0
    ensures Gcd(a, b) > 0 && Divides(Gcd(a, b), a) && Divides(Gcd(a, b), b)
    decreases b
  {
    if b == 0 {
      DividesIntro(a, 1);
    } else {
      GcdDivides(b, a % b);
      var g := Gcd(b, a % b);
      DividesMul(g, b, a / b);
      var k := DividesElim(g, (a / b) * b);
      var l := DividesElim(g, a % b);
      assert a == g * (k + l);
      DividesIntro(g, k + l);
    }
  }

  lemma CommonDivisorDividesGcd(d: int, a: nat, b: nat)
    requires d > 0 && Divides(d, a) && Divides(d, b)
    ensures Divides(d, Gcd(a, b))
  {
    var (x, y) := Bezout(a, b);
    var k := DividesElim(d, a);
    var l := DividesElim(d, b);
    CommonFactor(d, k, l, x, y);
    DividesIntro(d, x * k + y * l);
  }

  // A combination equal to 1 forces the gcd to be 1.
  lemma CombinationOneIsCoprime(a: nat, b: nat, x: int, y: int)
    requires x * a + y * b == 1
    ensures Gcd(a, b) == 1
  {
    assert a > 0 || b > 0;
    GcdDivides(a, b);
    var g := Gcd(a, b);
    var k := DividesElim(g, a);
    var l := DividesElim(g, b);
    CommonFactor(g, k, l, x, y);
    PositiveFactor(g, x * k + y * l);
  }

  lemma BezoutInverts(a: int, m: nat)
    requires m > 0 && Gcd(a % m, m) == 1
    ensures Cong(a * Bezout(a % m, m).0, 1, m)
  {
    var (x, y) := Bezout(a % m, m);
    CongIntro(x * (a % m), 1, -y, m);
    CongMod(a, m);
    CongMul(a % m, a, x, x, m);
  }

  // If d is coprime to a and divides a*b, it divides b.
  lemma CoprimeCancel(d: nat, a: int, b: int)
    requires d > 0 && Gcd(a % d, d) == 1 && Divides(d, a * b)
    ensures Divides(d, b)
  {
    BezoutInverts(a, d);
    var x := Bezout(a % d, d).0;
    CongMul(a * x, 1, b, b, d);
    assert (a * x) * b == (a * b) * x;
    DividesMul(d, a * b, x);
  }

  /** Crypto++'s InverseMod: the inverse in [0, m), or 0 when there is none. */
  function InverseMod(a: int, m: nat): (i: int)
    requires m > 0
    ensures 0 <= i < m
  {
    if Gcd(a % m, m) == 1 then Bezout(a % m, m).0 % m else 0
  }

  lemma InverseModIsInverse(a: int, m: nat)
    requires m > 0 && Gcd(a % m, m) == 1
    ensures Cong(a * InverseMod(a, m), 1, m)
  {
    BezoutInverts(a, m);
    var x := Bezout(a % m, m).0;
    CongMod(x, m);
    CongMul(a, a, x % m, x, m);
  }

  // ---------------------------------------------------------------- primes

  ghost predicate Prime(p: int)
  {
    p >= 2 && forall d :: 2 <= d < p ==> !Divides(d, p)
  }

  lemma PrimeGcd(p: int, a: nat)
    requires Prime(p)
    ensures Gcd(a, p) == (if Divides(p, a) then p else 1)
  {
    GcdDivides(a, p);
    var g := Gcd(a, p);
    DividesLe(g, p);
    if Divides(p, a) {
      DividesIntro(p, 1);
      CommonDivisorDividesGcd(p, a, p);
      DividesLe(p, g);
    }
  }

  lemma PrimeModGcd(p: int, a: int)
    requires Prime(p) && !Divides(p, a)
    ensures Gcd(a % p, p) == 1
  {
    CongMod(a, p);
    PrimeGcd(p, a % p);
  }

  lemma EuclidsLemma(p: int, a: int, b: int)
    requires Prime(p) && Divides(p, a * b)
    ensures Divides(p, a) || Divides(p, b)
  {
    if !Divides(p, a) {
      PrimeModGcd(p, a);
      CoprimeCancel(p, a, b);
    }
  }

  lemma {:induction false} PrimeDividesPow(p: int, a: int, e: nat)
    requires Prime(p) && Divides(p, Pow(a, e))
    ensures e > 0 && Divides(p, a)
  {
    if e == 0 {
      SmallMod(1, p);
    } else {
      EuclidsLemma(p, a, Pow(a, e - 1));
      if !Divides(p, a) { PrimeDividesPow(p, a, e - 1); }
    }
  }

  // A non-zero factor can be cancelled modulo a prime.
  lemma CancelModPrime(p: int, a: int, x: int, y: int)
    requires Prime(p) && !Divides(p, a) && Cong(a * x, a * y, p)
    ensures Cong(x, y, p)
  {
    CongDivides(a * x, a * y, p);
    assert a * x - a * y == a * (x - y);
    EuclidsLemma(p, a, x - y);
    CongDivides(x, y, p);
  }

  lemma DistinctPrimesCoprime(p: int, q: int)
    requires Prime(p) && Prime(q) && p != q
    ensures Gcd(p, q) == 1 && Gcd(p % q, q) == 1
  {
    if Divides(q, p) {
      DividesLe(q, p);
      assert false;
    }
    PrimeGcd(q, p);
    PrimeModGcd(q, p);
  }

  lemma CoprimeProductDivides(p: nat, q: nat, x: int)
    requires p > 0 && q > 0 && Gcd(p, q) == 1
    requires Divides(p, x) && Divides(q, x)
    ensures p * q > 0 && Divides(p * q, x)
  {
    var (a, b) := Bezout(p, q);
    var k := DividesElim(p, x);
    var l := DividesElim(q, x);
    GlueQuotients(p, q, x, a, b, k, l);
    DividesIntro(p * q, a * l + b * k);
  }

  lemma GlueQuotients(p: int, q: int, x: int, a: int, b: int, k: int, l: int)
    requires a * p + b * q == 1 && x == p * k && x == q * l
    ensures x == (p * q) * (a * l + b * k)
  {
    MulSwap(a, p, l, q);
    MulSwap(b, q, k, p);
    assert x == (a * p + b * q) * x == (a * p) * (l * q) + (b * q) * (k * p);
    assert (a * l) * (p * q) + (b * k) * (q * p) == (p * q) * (a * l + b * k);
  }

  // Congruences modulo coprime moduli glue together.
  lemma CongProduct(a: int, b: int, p: nat, q: nat)
    requires p > 0 && q > 0 && Gcd(p, q) == 1
    requires Cong(a, b, p) && Cong(a, b, q)
    ensures p * q > 0 && Cong(a, b, p * q)
  {
    CongDivides(a, b, p);
    CongDivides(a, b, q);
    CoprimeProductDivides(p, q, a - b);
    CongDivides(a, b, p * q);
  }

  // ---------------------------------------------------------------- Fermat's little theorem

  function Factorial(n: nat): nat
  {
    if n == 0 then 1 else n * Factorial(n - 1)
  }

  function Product(s: seq<int>): int
  {
    if s == [] then 1 else s[0] * Product(s[1..])
  }

  lemma {:induction false} ProductConcat(s: seq<int>, t: seq<int>)
    ensures Product(s + t) == Product(s) * Product(t)
  {
    if s == [] {
      assert s + t == t;
    } else {
      ProductConcat(s[1..], t);
      assert (s + t)[1..] == s[1..] + t;
      assert s[0] * (Product(s[1..]) * Product(t)) == (s[0] * Product(s[1..])) * Product(t);
    }
  }

  lemma {:induction false} DistinctLength(s: seq<int>, n: nat)
    requires Distinct(s) && forall i :: 0 <= i < |s| ==> 1 <= s[i] <= n
    ensures |s| <= n
  {
    if s != [] {
      assert 1 <= s[0] <= n;
      if i :| 0 <= i < |s| && s[i] == n {
        DistinctLength(s[..i] + s[i + 1..], n - 1);
      } else {
        DistinctLength(s, n - 1);
      }
    }
  }

  // A permutation of 1..n, listed in any order, multiplies to n!.
  lemma {:induction false} ProductOfPermutation(s: seq<int>)
    requires Distinct(s) && forall i :: 0 <= i < |s| ==> 1 <= s[i] <= |s|
    ensures Product(s) == Factorial(|s|)
  {
    var n := |s|;
    if n > 0 {
      var i := IndexOfLargest(s);
      var t := s[..i] + s[i + 1..];
      ProductOfPermutation(t);
      ProductRemove(s, i);
    }
  }

  lemma IndexOfLargest(s: seq<int>) returns (i: nat)
    requires s != [] && Distinct(s) && forall i :: 0 <= i < |s| ==> 1 <= s[i] <= |s|
    ensures i < |s| && s[i] == |s|
  {
    if forall i :: 0 <= i < |s| ==> s[i] != |s| {
      DistinctLength(s, |s| - 1);
    }
    i :| 0 <= i < |s| && s[i] == |s|;
  }

  lemma ProductRemove(s: seq<int>, i: nat)
    requires i < |s|
    ensures Product(s) == s[i] * Product(s[..i] + s[i + 1..])
  {
    ProductConcat(s[..i], s[i + 1..]);
    ProductConcat(s[..i], s[i..]);
    assert s == s[..i] + s[i..];
    assert s[i..][1..] == s[i + 1..];
    MulSwap(1, Product(s[..i]), s[i], Product(s[i + 1..]));
  }

  function Multiples(a: int, n: nat, p: int): (s: seq<int>)
    requires p > 0
    ensures |s| == n && forall i :: 0 <= i < n ==> s[i] == (a * (i + 1)) % p
  {
    if n == 0 then [] else Multiples(a, n - 1, p) + [(a * n) % p]
  }

  lemma {:induction false} ProductOfMultiples(a: int, n: nat, p: int)
    requires p > 0
    ensures Cong(Product(Multiples(a, n, p)), Pow(a, n) * Factorial(n), p)
  {
    if n > 0 {
      ProductOfMultiples(a, n - 1, p);
      var s := Multiples(a, n - 1, p);
      var m := (a * n) % p;
      ProductConcat(s, [m]);
      assert Product([m]) == m * Product([]);
      CongMod(a * n, p);
      CongMul(Product(s), Pow(a, n - 1) * Factorial(n - 1), m, a * n, p);
      MulSwap(a, n, Pow(a, n - 1), Factorial(n - 1));
    }
  }

  lemma MultiplesPermute(a: int, p: int)
    requires Prime(p) && !Divides(p, a)
    ensures var s := Multiples(a, p - 1, p); Distinct(s) && forall i :: 0 <= i < |s| ==> 1 <= s[i] <= |s|
  {
    var s := Multiples(a, p - 1, p);
    forall i | 0 <= i < |s| ensures 1 <= s[i] <= |s| {
      CongMod(a * (i + 1), p);
      if s[i] == 0 {
        EuclidsLemma(p, a, i + 1);
        SmallMod(i + 1, p);
      }
    }
    forall i, j | 0 <= i < j < |s| ensures s[i] != s[j] {
      if s[i] == s[j] {
        CancelModPrime(p, a, i + 1, j + 1);
        CongSmall(i + 1, j + 1, p);
      }
    }
  }

  lemma {:induction false} PrimeNotInFactorial(p: int, n: nat)
    requires Prime(p) && n < p
    ensures !Divides(p, Factorial(n))
  {
    if n == 0 {
      SmallMod(1, p);
    } else {
      PrimeNotInFactorial(p, n - 1);
      SmallMod(n, p);
      if Divides(p, n * Factorial(n - 1)) { EuclidsLemma(p, n, Factorial(n - 1)); }
    }
  }

  lemma FermatsLittleTheorem(p: int, a: int)
    requires Prime(p) && !Divides(p, a)
    ensures Cong(Pow(a, p - 1), 1, p)
  {
    var s := Multiples(a, p - 1, p);
    MultiplesPermute(a, p);
    ProductOfPermutation(s);
    ProductOfMultiples(a, p - 1, p);
    PrimeNotInFactorial(p, p - 1);
    CancelToOne(p, Factorial(p - 1), Pow(a, p - 1));
  }

  lemma CancelToOne(p: int, f: int, x: int)
    requires Prime(p) && !Divides(p, f) && Cong(f, x * f, p)
    ensures Cong(x, 1, p)
  {
    assert f * 1 == f && f * x == x * f;
    CancelModPrime(p, f, x, 1);
  }

  // a^(k*(p-1)) is 1 modulo p.
  lemma FermatMultiple(p: int, a: int, k: nat)
    requires Prime(p) && !Divides(p, a)
    ensures k * (p - 1) >= 0 && (p - 1) * k >= 0
    ensures Cong(Pow(a, k * (p - 1)), 1, p) && Cong(Pow(a, (p - 1) * k), 1, p)
  {
    FermatsLittleTheorem(p, a);
    PowMul(a, p - 1, k);
    PowCong(Pow(a, p - 1), 1, k, p);
    PowOne(k);
    assert (p - 1) * k == k * (p - 1);
  }

  // ---------------------------------------------------------------- bit lengths

  /** Crypto++'s BitCount. */
  function BitCount(n: nat): nat
  {
    if n == 0 then 0 else 1 + BitCount(n / 2)
  }

  lemma {:induction false} BitCountBounds(n: nat)
    ensures n < Pow(2, BitCount(n))
    ensures n > 0 ==> Pow(2, BitCount(n) - 1) <= n
  {
    if n > 0 {
      BitCountBounds(n / 2);
    }
  }
}
