/**
 The Paillier cryptosystem of shared_signature/paillier.cpp.  Random draws are arguments: the two
 primes of key generation, and the blinding factor r of each encryption, which the code draws
 from the closed range [1, n] without testing that it is coprime to n.
 */
module Paillier {
  import opened NumberTheory
  import opened Outcome

  datatype Key = Key(p: int, q: int, n: nat, n2: nat, y: nat, g: nat, u: int, phi: nat) {

    predicate WellFormed() {
      n2 == n * n && (p != -1 && q != -1 ==> p > 0 && q > 0)
    }
  }

  function Generate(p: nat, q: nat): Key
    requires p >= 1 && q >= 1
  {
    var n := p * q;
    var phi := (p - 1) * (q - 1);
    assert n > 0;
    Key(p, q, n, n * n, phi, n + 1, InverseMod(phi, n), phi)
  }

  /** The public-key-only constructor; the fields it leaves alone are zero. */
  function Client(n: nat, g: nat): Key {
    Key(-1, -1, n, n * n, 0, g, 0, 0)
  }

  function L(n: nat, x: int): int
    requires n > 0
  {
    (x - 1) / n
  }

  function Enc(k: Key, m: int, r: nat): Result<int>
    requires k.WellFormed()
  {
    if k.n == 0 then Err("not initialized")
    else if m >= k.n || m < 0 then Err("m >= n || m < 0 ")
    else Ok((ModPow(k.g, m, k.n2) * ModPow(r, k.n, k.n2)) % k.n2)
  }

  function Dec(k: Key, c: int): Result<int>
    requires k.WellFormed()
  {
    if k.n == 0 then Err("not initialized")
    else if k.p == -1 || k.q == -1 then Err("client can not decrypt data")
    else if c <= 0 || c >= k.n2 then Err("c <= 0 || c >= n2")
    else if c % k.p == 0 || c % k.q == 0 then Err("c % p == 0 || c % q == 0")
    else Ok((L(k.n, ModPow(c, k.y, k.n2)) * k.u) % k.n)
  }

  /** The arguments each operation refuses. */
  lemma RefusedArguments(k: Key, m: int, r: nat, c: int)
    requires k.WellFormed()
    ensures Enc(k, m, r).Ok? <==> k.n != 0 && 0 <= m < k.n
    ensures Dec(k, c).Ok? <==> k.n != 0 && k.p != -1 && k.q != -1 && 0 < c < k.n2 && !Divides(k.p, c) && !Divides(k.q, c)
  {
  }

  /** What the key generator needs of its two primes for decryption to be defined. */
  ghost predicate GoodPrimes(p: int, q: int) {
    Prime(p) && Prime(q) && p != q && !Divides(p, q - 1) && !Divides(q, p - 1)
  }

  // ---------------------------------------------------------------- key generation

  lemma NextPrimeStep(p: int, q: int, b: int)
    requires Prime(p) && Prime(q) && p != q && b >= 3
    requires b <= p <= 2 * b && b <= q <= 2 * b
    ensures !Divides(p, q - 1)
  {
    OddPrime(p);
    OddPrime(q);
    if Divides(p, q - 1) {
      var k := DividesElim(p, q - 1);
      PositiveFactor(p, k);
      FactorBelow(p, k, 2);
    }
  }

  lemma OddPrime(p: int)
    requires Prime(p) && p > 2
    ensures p % 2 == 1
  {
    assert !Divides(2, p);
  }

  lemma CoprimeToProduct(p: int, q: int, r: nat)
    requires Prime(p) && Prime(q) && p * q > 0
    ensures Gcd(r, p * q) == 1 <==> !Divides(p, r) && !Divides(q, r)
  {
    var n := p * q;
    DividesIntro(p, q);
    DividesIntro(q, p);
    if Divides(p, r) {
      CommonDivisorDividesGcd(p, r, n);
      if Gcd(r, n) == 1 { DividesLe(p, 1); }
    }
    if Divides(q, r) {
      CommonDivisorDividesGcd(q, r, n);
      if Gcd(r, n) == 1 { DividesLe(q, 1); }
    }
    if !Divides(p, r) && !Divides(q, r) {
      PrimeGcd(p, r);
      PrimeGcd(q, r);
      var (a, b) := Bezout(r, p);
      var (c, d) := Bezout(r, q);
      ProductOfCombinations(r, p, q, a, b, c, d);
      CombinationOneIsCoprime(r, n, a * c * r + a * d * q + b * p * c, b * d);
    }
  }

  lemma ProductOfCombinations(r: int, p: int, q: int, a: int, b: int, c: int, d: int)
    requires a * r + b * p == 1 && c * r + d * q == 1
    ensures (a * c * r + a * d * q + b * p * c) * r + (b * d) * (p * q) == 1
  {
    calc {
      1;
      (a * r + b * p) * (c * r + d * q);
      (a * r) * (c * r) + (a * r) * (d * q) + (b * p) * (c * r) + (b * p) * (d * q);
      { MulSwap(b, p, d, q); }
      (a * c * r) * r + (a * d * q) * r + (b * p * c) * r + (b * d) * (p * q);
    }
  }

  // gcd(phi, N) = 1, so the inverse u that decryption multiplies by exists.
  lemma PhiCoprime(p: int, q: int)
    requires GoodPrimes(p, q)
    ensures (p - 1) * (q - 1) >= 0 && p * q > 1
    ensures Gcd(((p - 1) * (q - 1)) % (p * q), p * q) == 1
  {
    var phi, n := (p - 1) * (q - 1), p * q;
    MulMonotone(p, 2, p, q);
    MulPositive(p - 1, q - 1);
    assert n == q * p && phi == (q - 1) * (p - 1);
    PrimeFactorOfPhi(p, q, phi, n);
    PrimeFactorOfPhi(q, p, phi, n);
    CongMod(phi, n);
    CoprimeToProduct(p, q, phi % n);
  }

  lemma PrimeFactorOfPhi(p: int, q: int, phi: int, n: int)
    requires GoodPrimes(p, q) && phi == (p - 1) * (q - 1) && n == p * q && n > 0
    ensures !Divides(p, phi % n)
  {
    if Divides(p, phi % n) {
      CongMod(phi, n);
      CongFactor(phi % n, phi, p, q);
      EuclidsLemma(p, p - 1, q - 1);
      SmallMod(p - 1, p);
    }
  }

  /** Primes drawn from [2^b, 2^(b+1)] with b = 2*BitCount(n) + 3 give N > 2n^4 and an invertible phi. */
  lemma KeyLengthSuffices(n: nat, p: int, q: int)
    requires n >= 1 && Prime(p) && Prime(q) && p != q
    requires var b := 2 * BitCount(n) + 3;
             Pow(2, b) <= p <= Pow(2, b + 1) && Pow(2, b) <= q <= Pow(2, b + 1)
    ensures p * q > 2 * n * n * n * n
    ensures GoodPrimes(p, q)
    ensures Cong(((p - 1) * (q - 1)) * Generate(p, q).u, 1, p * q)
  {
    var b := 2 * BitCount(n) + 3;
    var c := Pow(2, BitCount(n));
    BitCountBounds(n);
    KeyRange(BitCount(n));
    PowPositive(2, BitCount(n));
    assert c * c >= 1;
    NextPrimeStep(p, q, Pow(2, b));
    NextPrimeStep(q, p, Pow(2, b));
    FourthPowerBound(n, c, p, q);
    PhiCoprime(p, q);
    InverseModIsInverse((p - 1) * (q - 1), p * q);
  }

  lemma KeyRange(k: nat)
    ensures Pow(2, 2 * k + 3) == 8 * (Pow(2, k) * Pow(2, k))
    ensures Pow(2, 2 * k + 4) == 2 * Pow(2, 2 * k + 3)
  {
    PowAdd(2, k, k);
    PowAdd(2, 2 * k, 3);
    assert Pow(2, 3) == 8;
  }

  lemma FourthPowerBound(n: int, c: int, p: int, q: int)
    requires 1 <= n < c && p >= 8 * (c * c) && q >= 8 * (c * c)
    ensures p * q > 2 * n * n * n * n
  {
    var m := n * n;
    assert 1 <= m <= c * c;
    assert p >= 8 * m && q >= 8 * m;
    assert p * q >= (8 * m) * (8 * m) == 64 * (m * m);
    assert m * m >= 1;
    assert 2 * n * n * n * n == 2 * (m * m);
  }

  // ---------------------------------------------------------------- decryption

  // (1 + kN)^e is 1 + ekN modulo N^2: every higher term of the expansion vanishes.
  lemma {:induction false} OnePlusPow(k: int, e: nat, n: nat)
    requires n > 0
    ensures n * n > 0 && Cong(Pow(1 + k * n, e), 1 + e * k * n, n * n)
  {
    if e > 0 {
      OnePlusPow(k, e - 1, n);
      CongMul(1 + k * n, 1 + k * n, Pow(1 + k * n, e - 1), 1 + (e - 1) * k * n, n * n);
      OnePlusStep(k, e, n);
      CongIntro((1 + k * n) * (1 + (e - 1) * k * n), 1 + e * k * n, (e - 1) * k * k, n * n);
    } else {
      assert e * k * n == 0;
    }
  }

  lemma OnePlusStep(k: int, e: int, n: int)
    ensures (1 + k * n) * (1 + (e - 1) * k * n) == 1 + e * k * n + ((e - 1) * k * k) * (n * n)
  {
    var f := (e - 1) * k;
    assert e * k * n == k * n + f * n;
    assert (k * n) * (f * n) == (f * k) * (n * n) by { MulSwap(k, n, f, n); }
    assert (1 + k * n) * (1 + f * n) == 1 + k * n + f * n + (k * n) * (f * n);
  }

  // Euler's theorem modulo N = pq for a base that neither prime divides.
  lemma EulerPq(p: int, q: int, r: int)
    requires Prime(p) && Prime(q) && p != q && !Divides(p, r) && !Divides(q, r)
    ensures (p - 1) * (q - 1) >= 0 && p * q > 0
    ensures Cong(Pow(r, (p - 1) * (q - 1)), 1, p * q)
  {
    FermatMultiple(p, r, q - 1);
    FermatMultiple(q, r, p - 1);
    DistinctPrimesCoprime(p, q);
    CongProduct(Pow(r, (p - 1) * (q - 1)), 1, p, q);
  }

  // The blinding factor vanishes: r^(N*phi) is 1 modulo N^2.
  lemma BlindingVanishes(p: int, q: int, n: nat, phi: nat, r: int)
    requires Prime(p) && Prime(q) && p != q && !Divides(p, r) && !Divides(q, r)
    requires n == p * q && phi == (p - 1) * (q - 1)
    ensures n * n > 0 && Cong(Pow(Pow(r, n), phi), 1, n * n)
  {
    EulerPq(p, q, r);
    var k := CongElim(Pow(r, phi), 1, n);
    PowMul(r, n, phi);
    PowMul(r, phi, n);
    assert n * phi == phi * n;
    OnePlusPow(k, n, n);
    assert n * k * n == k * (n * n);
    CongIntro(1 + n * k * n, 1, k, n * n);
  }

  // c is an encryption of m under blinding r, up to N^2.
  predicate Encrypts(n: nat, c: int, m: nat, r: int)
    requires n > 0
  {
    assert n * n > 0;
    Cong(c, Pow(n + 1, m) * Pow(r, n), n * n)
  }

  lemma PowerOfCiphertext(p: int, q: int, n: nat, phi: nat, c: int, m: nat, r: int)
    requires Prime(p) && Prime(q) && p != q && !Divides(p, r) && !Divides(q, r)
    requires n == p * q && phi == (p - 1) * (q - 1) && n > 0 && Encrypts(n, c, m, r)
    ensures n * n > 0 && m * phi >= 0 && Cong(Pow(c, phi), 1 + (m * phi) * n, n * n)
  {
    var n2 := n * n;
    BlindingVanishes(p, q, n, phi, r);
    PowCong(c, Pow(n + 1, m) * Pow(r, n), phi, n2);
    PowDistributes(Pow(n + 1, m), Pow(r, n), phi);
    PowMul(n + 1, m, phi);
    OnePlusPow(1, m * phi, n);
    assert 1 + 1 * n == n + 1 && 1 + (m * phi) * 1 * n == 1 + (m * phi) * n;
    CongMul(Pow(n + 1, m * phi), 1 + (m * phi) * n, Pow(Pow(r, n), phi), 1, n2);
  }

  // The residue modulo N^2 of 1 + xN is 1 + (x mod N)N, and L reads x mod N off it.
  lemma LReadsExponent(n: nat, c: int, x: int)
    requires n > 1 && n * n > 0 && Cong(c, 1 + x * n, n * n)
    ensures L(n, c % (n * n)) == x % n
  {
    var a, b := x / n, x % n;
    ResidueOfOnePlus(n, a, b);
    assert x * n == (a * n + b) * n;
    DivModUnique(1 + x * n, a, 1 + b * n, n * n);
    DividesIntro(n, b);
  }

  lemma ResidueOfOnePlus(n: int, a: int, b: int)
    requires n > 1 && 0 <= b < n
    ensures 0 <= 1 + b * n < n * n
    ensures (a * n + b) * n == a * (n * n) + b * n
  {
    MulMonotone(b, n, n - 1, n);
    assert (n - 1) * n == n * n - n;
  }

  // Multiplying by the inverse of phi recovers the plaintext.
  lemma Unblind(n: nat, phi: int, m: int, u: int)
    requires n > 0 && Cong(phi * u, 1, n)
    ensures Cong(((m * phi) % n) * u, m, n)
  {
    CongMod(m * phi, n);
    CongMul((m * phi) % n, m * phi, u, u, n);
    CongMul(m, m, phi * u, 1, n);
    assert (m * phi) * u == m * (phi * u);
  }

  lemma DecryptValid(k: Key, p: int, q: int, c: int, m: nat, r: int)
    requires GoodPrimes(p, q) && k == Generate(p, q) && k.n > 0
    requires Encrypts(k.n, c, m, r) && 0 <= c < k.n2
    requires !Divides(p, r) && !Divides(q, r)
    ensures Dec(k, c) == Ok(m % k.n)
  {
    var n, phi := k.n, k.phi;
    PhiCoprime(p, q);
    CiphertextFactor(p, q, c, m, r);
    assert q * p == n;
    CiphertextFactor(q, p, c, m, r);
    PowerOfCiphertext(p, q, n, phi, c, m, r);
    LReadsExponent(n, Pow(c, phi), m * phi);
    InverseModIsInverse(phi, n);
    Unblind(n, phi, m, k.u);
    if c == 0 { DividesIntro(p, 0); }
  }

  lemma DecryptInvalid(k: Key, p: int, q: int, c: int, m: nat, r: int)
    requires GoodPrimes(p, q) && k == Generate(p, q) && k.n > 0
    requires Encrypts(k.n, c, m, r)
    requires Divides(p, r) || Divides(q, r)
    ensures Dec(k, c).Err?
  {
    CiphertextFactor(p, q, c, m, r);
    assert q * p == p * q;
    CiphertextFactor(q, p, c, m, r);
  }

  // Modulo a prime of the key only the blinding of a ciphertext remains.
  lemma CiphertextResidue(p: int, q: int, n: nat, c: int, m: nat, r: int)
    requires p > 0 && q > 0 && n > 0 && n == p * q && Encrypts(n, c, m, r)
    ensures Cong(c, Pow(r, n), p)
  {
    assert n * n == p * (q * n);
    CongFactor(c, Pow(n + 1, m) * Pow(r, n), p, q * n);
    CongIntro(n + 1, 1, q, p);
    PowCong(n + 1, 1, m, p);
    PowOne(m);
    CongMul(Pow(n + 1, m), 1, Pow(r, n), Pow(r, n), p);
  }

  // A prime of the key divides a ciphertext exactly when it divides the blinding factor.
  lemma CiphertextFactor(p: int, q: int, c: int, m: nat, r: int)
    requires Prime(p) && Prime(q) && p * q > 0 && Encrypts(p * q, c, m, r)
    ensures Divides(p, c) <==> Divides(p, r)
  {
    CiphertextResidue(p, q, p * q, c, m, r);
    PrimeDividesPower(p, r, p * q);
  }

  // ---------------------------------------------------------------- homomorphic expressions

  /** What a party can build from ciphertexts: products modulo n2 and powers by a plain exponent. */
  datatype Cipher =
    | Fresh(m: nat, r: nat)
    | Combine(left: Cipher, right: Cipher)
    | Scale(inner: Cipher, t: nat)

  function Eval(k: Key, e: Cipher): int
    requires k.n2 > 0
  {
    match e
    case Fresh(m, r) => (ModPow(k.g, m, k.n2) * ModPow(r, k.n, k.n2)) % k.n2
    case Combine(a, b) => (Eval(k, a) * Eval(k, b)) % k.n2
    case Scale(a, t) => ModPow(Eval(k, a), t, k.n2)
  }

  /** The linear combination of plaintexts the expression stands for, over the integers. */
  function Plain(e: Cipher): nat {
    match e
    case Fresh(m, _) => m
    case Combine(a, b) => Plain(a) + Plain(b)
    case Scale(a, t) => t * Plain(a)
  }

  function Blinding(e: Cipher): int {
    match e
    case Fresh(_, r) => r
    case Combine(a, b) => Blinding(a) * Blinding(b)
    case Scale(a, t) => Pow(Blinding(a), t)
  }

  /** No draw that matters shares a factor with n: a caller can test this on the draws alone. */
  predicate Intact(e: Cipher, n: nat) {
    match e
    case Fresh(_, r) => Gcd(r, n) == 1
    case Combine(a, b) => Intact(a, n) && Intact(b, n)
    case Scale(a, t) => t == 0 || Intact(a, n)
  }

  lemma {:induction false} IntactBlinding(e: Cipher, p: int, q: int)
    requires Prime(p) && Prime(q) && p * q > 0
    ensures Intact(e, p * q) <==> !Divides(p, Blinding(e)) && !Divides(q, Blinding(e))
  {
    match e
    case Fresh(_, r) =>
      CoprimeToProduct(p, q, r);
    case Combine(a, b) =>
      IntactBlinding(a, p, q);
      IntactBlinding(b, p, q);
      PrimeDividesProduct(p, Blinding(a), Blinding(b));
      PrimeDividesProduct(q, Blinding(a), Blinding(b));
    case Scale(a, t) =>
      IntactBlinding(a, p, q);
      PrimeDividesPower(p, Blinding(a), t);
      PrimeDividesPower(q, Blinding(a), t);
  }

  lemma PrimeDividesProduct(p: int, a: int, b: int)
    requires Prime(p)
    ensures Divides(p, a * b) <==> Divides(p, a) || Divides(p, b)
  {
    if Divides(p, a * b) { EuclidsLemma(p, a, b); }
    if Divides(p, a) { DividesMul(p, a, b); }
    if Divides(p, b) { DividesMul(p, b, a); }
  }

  lemma PrimeDividesPower(p: int, a: int, t: nat)
    requires Prime(p)
    ensures Divides(p, Pow(a, t)) <==> t > 0 && Divides(p, a)
  {
    if Divides(p, Pow(a, t)) { PrimeDividesPow(p, a, t); }
    if t > 0 && Divides(p, a) { DividesPow(p, a, t); }
  }

  lemma {:induction false} EvalEncrypts(k: Key, e: Cipher)
    requires k.n > 0 && k.n2 == k.n * k.n && k.n2 > 0 && k.g == k.n + 1
    ensures 0 <= Eval(k, e) < k.n2 && Encrypts(k.n, Eval(k, e), Plain(e), Blinding(e))
  {
    var n, n2 := k.n, k.n2;
    match e
    case Fresh(m, r) =>
      CongMod(Pow(n + 1, m), n2);
      CongMod(Pow(r, n), n2);
      CongMul(ModPow(n + 1, m, n2), Pow(n + 1, m), ModPow(r, n, n2), Pow(r, n), n2);
      CongMod(ModPow(n + 1, m, n2) * ModPow(r, n, n2), n2);
    case Combine(a, b) =>
      EvalEncrypts(k, a);
      EvalEncrypts(k, b);
      CongMul(Eval(k, a), Pow(n + 1, Plain(a)) * Pow(Blinding(a), n), Eval(k, b), Pow(n + 1, Plain(b)) * Pow(Blinding(b), n), n2);
      CongMod(Eval(k, a) * Eval(k, b), n2);
      MulSwap(Pow(n + 1, Plain(a)), Pow(Blinding(a), n), Pow(n + 1, Plain(b)), Pow(Blinding(b), n));
      PowAdd(n + 1, Plain(a), Plain(b));
      PowDistributes(Blinding(a), Blinding(b), n);
    case Scale(a, t) =>
      EvalEncrypts(k, a);
      PowCong(Eval(k, a), Pow(n + 1, Plain(a)) * Pow(Blinding(a), n), t, n2);
      CongMod(Pow(Eval(k, a), t), n2);
      PowDistributes(Pow(n + 1, Plain(a)), Pow(Blinding(a), n), t);
      PowMul(n + 1, Plain(a), t);
      PowMul(Blinding(a), n, t);
      PowMul(Blinding(a), t, n);
      assert Plain(a) * t == t * Plain(a) && n * t == t * n;
  }

  /** Decrypting any homomorphic expression yields its linear combination modulo n, exactly when
      the draws it depends on are coprime to n; otherwise decryption throws. */
  lemma HomomorphicDecryption(k: Key, p: int, q: int, e: Cipher)
    requires GoodPrimes(p, q) && k == Generate(p, q)
    ensures k.n > 1 && k.n2 > 0
    ensures Intact(e, k.n) ==> Dec(k, Eval(k, e)) == Ok(Plain(e) % k.n)
    ensures !Intact(e, k.n) ==> Dec(k, Eval(k, e)).Err?
  {
    PhiCoprime(p, q);
    EvalEncrypts(k, e);
    IntactBlinding(e, p, q);
    var c := Eval(k, e);
    if Intact(e, k.n) {
      DecryptValid(k, p, q, c, Plain(e), Blinding(e));
    } else {
      DecryptInvalid(k, p, q, c, Plain(e), Blinding(e));
    }
  }

  /** A single encryption, by either party: dec(enc(m)) == m if and only if gcd(r, n) == 1. */
  lemma DecEnc(k: Key, p: int, q: int, m: nat, r: nat)
    requires GoodPrimes(p, q) && k == Generate(p, q) && m < k.n
    ensures Enc(Client(k.n, k.g), m, r) == Enc(k, m, r) && Enc(k, m, r).Ok?
    ensures Gcd(r, k.n) == 1 <==> Dec(k, Enc(k, m, r).value) == Ok(m)
  {
    HomomorphicDecryption(k, p, q, Fresh(m, r));
    SmallMod(m, k.n);
  }

  /** The draw r = n, which the closed range allows, makes every encryption undecipherable. */
  lemma BlindingByModulus(k: Key, p: int, q: int, m: nat)
    requires GoodPrimes(p, q) && k == Generate(p, q) && m < k.n
    ensures 1 <= k.n && Enc(k, m, k.n).Ok? && Dec(k, Enc(k, m, k.n).value).Err?
  {
    HomomorphicDecryption(k, p, q, Fresh(m, k.n));
    DividesIntro(k.n, 1);
    CommonDivisorDividesGcd(k.n, k.n, k.n);
    if Gcd(k.n, k.n) == 1 { DividesLe(k.n, 1); }
  }
}
