/**
 shared_signature/shared_sig.cpp: two parties S and B hold multiplicative shares of an ECDSA key and
 of each nonce.  B computes a half-signature under S's Paillier key; S decrypts, divides by its
 nonce share, normalises to low s and verifies.  Random draws are arguments.
 */
module SharedSignature {
  import opened NumberTheory
  import opened Outcome
  import opened Bytes
  import opened Curve
  import opened Paillier

  // ---------------------------------------------------------------- verification

  function HashToInt(m: seq<byte>, count: nat): Result<nat>
    requires count <= 32
  {
    if |m| != 32 then Err("m_len != sha digest size") else Ok(Decode(m[..count]))
  }

  function Verify<P(==)>(c: Curve<P>, Q: P, m: seq<byte>, r: int, s: int): Result<bool>
    requires c.n > 0 && MinEncodedSize(c.n) <= 32
  {
    var z :- HashToInt(m, MinEncodedSize(c.n));
    if Q == c.identity then Ok(false)
    else if c.mul(c.n, Q) != c.identity then Ok(false)
    else if r <= 0 || r >= c.n then Ok(false)
    else if s <= 0 || s >= c.n then Ok(false)
    else
      var w := InverseMod(s, c.n);
      var u1 := (z * w) % c.n;
      var u2 := (r * w) % c.n;
      var P2 := c.add(c.mul(u1, c.G), c.mul(u2, Q));
      Ok(c.x(P2) == r)
  }

  /** What verification checks: it throws exactly for a message that is no digest, and accepts only a
      point of order n that is not the identity, components in [1, n-1], and a matching x-coordinate. */
  lemma VerifyChecks<P>(c: Curve<P>, Q: P, m: seq<byte>, r: int, s: int)
    requires c.n > 0 && MinEncodedSize(c.n) <= 32
    ensures Verify(c, Q, m, r, s).Err? <==> |m| != 32
    ensures Verify(c, Q, m, r, s) == Ok(true) <==>
      && |m| == 32 && Q != c.identity && c.mul(c.n, Q) == c.identity && 1 <= r <= c.n - 1 && 1 <= s <= c.n - 1
      && var z, w := Decode(m[..MinEncodedSize(c.n)]), InverseMod(s, c.n);
         c.x(c.add(c.mul((z * w) % c.n, c.G), c.mul((r * w) % c.n, Q))) == r
  {
  }

  function EncodeSignature(r: nat, s: nat): seq<byte> {
    Encode(r, 32) + Encode(s, 32)
  }

  // The combination verification forms is the nonce, when s*k = z + r*d modulo n.
  lemma NonceArithmetic(n: nat, d: int, k: int, z: int, r: int, s: int, w: int)
    requires n > 0 && Cong(s * w, 1, n) && Cong(s * k, z + r * d, n)
    ensures Cong((z * w) % n + ((r * w) % n) * d, k, n)
  {
    CongMod(z * w, n);
    CongMod(r * w, n);
    CongMul((r * w) % n, r * w, d, d, n);
    CongAdd((z * w) % n, z * w, ((r * w) % n) * d, (r * w) * d, n);
    assert z * w + (r * w) * d == w * (z + r * d);
    CongMul(w, w, s * k, z + r * d, n);
    CongMul(s * w, 1, k, k, n);
    assert w * (s * k) == (s * w) * k;
  }

  lemma NonceRecovered<P>(c: Curve<P>, d: int, k: int, z: int, r: int, s: int)
    requires IsCurve(c) && 0 < s < c.n && Cong(s * k, z + r * d, c.n)
    ensures var w := InverseMod(s, c.n);
      c.add(c.mul((z * w) % c.n, c.G), c.mul((r * w) % c.n, c.mul(d, c.G))) == c.mul(k, c.G)
  {
    var w := InverseMod(s, c.n);
    SmallMod(s, c.n);
    PrimeModGcd(c.n, s);
    InverseModIsInverse(s, c.n);
    NonceArithmetic(c.n, d, k, z, r, s, w);
    var u1, u2 := (z * w) % c.n, (r * w) % c.n;
    MulLaw(c, u2, d);
    AddLaw(c, u1, u2 * d);
    OrderLaw(c, u1 + u2 * d, k);
  }

  lemma PublicKeyChecks<P>(c: Curve<P>, d: int)
    requires IsCurve(c) && !Divides(c.n, d)
    ensures c.mul(d, c.G) != c.identity && c.mul(c.n, c.mul(d, c.G)) == c.identity
  {
    SmallMod(0, c.n);
    DividesIntro(c.n, d);
    MulLaw(c, c.n, d);
    OrderLaw(c, c.n * d, 0);
    OrderLaw(c, d, 0);
  }

  lemma XRecovered<P>(c: Curve<P>, d: int, k: int, z: int, r: int, s: int)
    requires IsCurve(c) && 0 < s < c.n && (Cong(s * k, z + r * d, c.n) || Cong(s * (-k), z + r * d, c.n))
    ensures var w := InverseMod(s, c.n);
      c.x(c.add(c.mul((z * w) % c.n, c.G), c.mul((r * w) % c.n, c.mul(d, c.G)))) == c.x(c.mul(k, c.G))
  {
    if Cong(s * k, z + r * d, c.n) {
      NonceRecovered(c, d, k, z, r, s);
    } else {
      NonceRecovered(c, d, -k, z, r, s);
      NegationLaw(c, k);
    }
  }

  /** ECDSA correctness: a signature with s*k = +-(z + r*d) passes exactly when r is the
      x-coordinate of k*G, unreduced. */
  lemma VerifyAccepts<P>(c: Curve<P>, d: int, k: int, m: seq<byte>, r: int, s: int)
    requires IsCurve(c) && |m| == 32 && !Divides(c.n, d) && 0 < r < c.n && 0 < s < c.n
    requires var z := Decode(m[..MinEncodedSize(c.n)]);
      Cong(s * k, z + r * d, c.n) || Cong(s * (-k), z + r * d, c.n)
    ensures Verify(c, c.mul(d, c.G), m, r, s) == Ok(c.x(c.mul(k, c.G)) == r)
  {
    PublicKeyChecks(c, d);
    XRecovered(c, d, k, Decode(m[..MinEncodedSize(c.n)]), r, s);
  }

  // ---------------------------------------------------------------- the protocol's messages

  /** The draws of one signing run: the nonce shares, and the blinding of the three encryptions
      and of the half-signature. */
  datatype Draws = Draws(ks: int, kb: int, blindS: nat, blind1: nat, u: nat, blind2: nat)

  predicate DrawsInRange(n: int, N: int, d: Draws) {
    && 1 <= d.ks <= n - 1 && 1 <= d.kb <= n - 1
    && 1 <= d.blindS <= N && 1 <= d.blind1 <= N && 1 <= d.blind2 <= N
    && 0 <= d.u <= n * n - 1
  }

  /** B::cont_sig: the value r and the half-signature cb, encrypted under S's key. */
  function HalfSignature<P(==)>(c: Curve<P>, key: Key, db: int, Ks: P, cs: int, m: seq<byte>, d: Draws): Result<(int, int)>
    requires c.n > 0 && MinEncodedSize(c.n) <= 32 && key.WellFormed() && key.n > 0
  {
    assert key.n2 > 0;
    var K := c.mul(d.kb, Ks);
    var r := c.x(K) % c.n;
    if r == 0 then Err("r == 0") else
      var hi :- HashToInt(m, MinEncodedSize(c.n));
      var kbInv := InverseMod(d.kb, c.n);
      var c1 :- Enc(key, (kbInv * hi) % c.n, d.blind1);
      var t := (((kbInv * r) % c.n) * db) % c.n;
      var c2 := (c1 * ModPow(cs, t, key.n2)) % key.n2;
      var c3 :- Enc(key, d.u * c.n, d.blind2);
      Ok((r, (c2 * c3) % key.n2))
  }

  function LowS(s: int, n: int): int {
    if s > n - s then n - s else s
  }

  /** S::finish_sig: the new value of the field s, and whether the method returns or throws. */
  function Finish<P(==)>(c: Curve<P>, key: Key, ks: int, Q: P, m: seq<byte>, r: int, cb: int, s: int): (int, Result<()>)
    requires c.n > 0 && MinEncodedSize(c.n) <= 32 && key.WellFormed()
  {
    match Dec(key, cb)
    case Err(e) => (s, Err(e))
    case Ok(plain) =>
      var s2 := plain % c.n;
      var s0 := (InverseMod(ks, c.n) * s2) % c.n;
      if s0 == 0 then (0, Err("ERR s==0 restart protocol")) else
        var low := LowS(s0, c.n);
        if m == [] then (low, Err("Data is empty!")) else
          match Verify(c, Q, m, r, low)
          case Err(e) => (low, Err(e))
          case Ok(good) => (low, if good then Ok(()) else Err("Invalid signature generated!"))
  }

  // ---------------------------------------------------------------- correctness of the half-signature

  /** The homomorphic expression B builds. */
  function HalfExpr(a: nat, t: nat, ds: nat, w: nat, d: Draws): Cipher {
    Combine(Combine(Fresh(a, d.blind1), Scale(Fresh(ds, d.blindS), t)), Fresh(w, d.blind2))
  }

  lemma HalfExprEval(key: Key, a: nat, t: nat, ds: nat, w: nat, d: Draws)
    requires key.n2 > 0 && key.WellFormed() && a < key.n && ds < key.n && w < key.n
    ensures Enc(key, a, d.blind1).Ok? && Enc(key, ds, d.blindS).Ok? && Enc(key, w, d.blind2).Ok?
    ensures Eval(key, HalfExpr(a, t, ds, w, d)) ==
      (((Enc(key, a, d.blind1).value * ModPow(Enc(key, ds, d.blindS).value, t, key.n2)) % key.n2) * Enc(key, w, d.blind2).value) % key.n2
  {
    var scaled := Scale(Fresh(ds, d.blindS), t);
    assert Eval(key, scaled) == ModPow(Enc(key, ds, d.blindS).value, t, key.n2);
    assert Eval(key, Combine(Fresh(a, d.blind1), scaled)) == (Enc(key, a, d.blind1).value * Eval(key, scaled)) % key.n2;
  }

  lemma HalfExprPlain(n: nat, a: nat, t: nat, ds: nat, w: nat, d: Draws)
    ensures Plain(HalfExpr(a, t, ds, w, d)) == a + t * ds + w
    ensures Intact(HalfExpr(a, t, ds, w, d), n) <==>
      Gcd(d.blind1, n) == 1 && (t == 0 || Gcd(d.blindS, n) == 1) && Gcd(d.blind2, n) == 1
  {
    var scaled := Scale(Fresh(ds, d.blindS), t);
    assert Plain(scaled) == t * ds;
    assert Intact(scaled, n) <==> t == 0 || Gcd(d.blindS, n) == 1;
    var left := Combine(Fresh(a, d.blind1), scaled);
    assert Plain(left) == a + t * ds;
    assert Intact(left, n) <==> Gcd(d.blind1, n) == 1 && Intact(scaled, n);
  }

  /** The plaintext of the half-signature is an integer below 2n^4: no reduction modulo N happens. */
  lemma HalfSignatureFits(n: int, a: int, t: int, ds: int, u: int)
    requires n >= 2 && 0 <= a < n && 0 <= t < n && 0 <= ds < n && 0 <= u <= n * n - 1
    ensures 0 <= u * n && 0 <= t * ds && a + t * ds + u * n < 2 * n * n * n * n
  {
    var n2 := n * n;
    MulMonotone(t, ds, n, n);
    MulMonotone(u, n, n2 - 1, n);
    CubeBound(n, n2);
  }

  lemma CubeBound(n: int, n2: int)
    requires n >= 2 && n2 == n * n
    ensures n + n2 + (n2 - 1) * n <= 2 * n * n * n * n
  {
    var n3 := n2 * n;
    assert (n2 - 1) * n == n3 - n;
    assert n2 <= n3;
    assert n3 <= n3 * n;
    assert 2 * n * n * n * n == 2 * (n3 * n);
  }

  lemma HalfArithmetic(n: nat, kb: int, kbInv: int, z: int, r: int, ds: int, db: int, u: int)
    requires n > 0 && Cong(kb * kbInv, 1, n)
    ensures var a := (kbInv * z) % n; var t := (((kbInv * r) % n) * db) % n;
      Cong((a + t * ds + u * n) * kb, z + r * (ds * db), n)
  {
    var a, t0 := (kbInv * z) % n, (kbInv * r) % n;
    var t := (t0 * db) % n;
    CongMod(kbInv * z, n);
    CongMod(kbInv * r, n);
    CongMod(t0 * db, n);
    CongMul(t0, kbInv * r, db, db, n);
    CongMul(t, (kbInv * r) * db, ds, ds, n);
    CongAdd(a, kbInv * z, t * ds, ((kbInv * r) * db) * ds, n);
    CongIntro(a + t * ds + u * n, a + t * ds, u, n);
    HalfFactorisation(kbInv, z, r, ds, db);
    CongMul(a + t * ds + u * n, kbInv * (z + r * (ds * db)), kb, kb, n);
    CongMul(kb * kbInv, 1, z + r * (ds * db), z + r * (ds * db), n);
    assert (kbInv * (z + r * (ds * db))) * kb == (kb * kbInv) * (z + r * (ds * db));
  }

  lemma HalfFactorisation(i: int, z: int, r: int, ds: int, db: int)
    ensures i * z + ((i * r) * db) * ds == i * (z + r * (ds * db))
  {
    assert ((i * r) * db) * ds == (i * r) * (db * ds) == i * (r * (ds * db));
  }

  lemma FinishArithmetic(n: nat, ks: int, ksInv: int, kb: int, plain: int, v: int)
    requires n > 0 && Cong(ks * ksInv, 1, n) && Cong(plain * kb, v, n)
    ensures Cong(((ksInv * (plain % n)) % n) * (ks * kb), v, n)
  {
    var s0 := (ksInv * (plain % n)) % n;
    CongMod(plain, n);
    CongMod(ksInv * (plain % n), n);
    CongMul(ksInv, ksInv, plain % n, plain, n);
    CongMul(s0, ksInv * plain, ks * kb, ks * kb, n);
    CongMul(ks * ksInv, 1, plain * kb, plain * kb, n);
    MulSwap(ksInv, plain, ks, kb);
    assert ksInv * ks == ks * ksInv;
  }

  // s is determined modulo n by s*k = v.
  lemma SolveForS(n: nat, k: int, s: int, v: int)
    requires Prime(n) && !Divides(n, k) && 0 <= s < n && Cong(s * k, v, n)
    ensures s == (InverseMod(k, n) * v) % n
  {
    var i := InverseMod(k, n);
    PrimeModGcd(n, k);
    InverseModIsInverse(k, n);
    CongMul(i, i, s * k, v, n);
    CongMul(k * i, 1, s, s, n);
    assert i * (s * k) == (k * i) * s;
    CongMod(i * v, n);
    CongSmall(s, (i * v) % n, n);
  }

  // ---------------------------------------------------------------- one honest run

  /** What the two key shares and one signing run determine. */
  ghost predicate Setup<P>(c: Curve<P>, key: Key, ds: int, db: int, m: seq<byte>, d: Draws) {
    && IsCurve(c)
    && KeyFor(c.n, key)
    && 1 <= ds <= c.n - 1 && 1 <= db <= c.n - 1 && |m| == 32
    && DrawsInRange(c.n, key.n, d)
  }

  /** A key S can generate and B's constructor accepts. */
  ghost predicate KeyFor(n: nat, key: Key) {
    && key.p >= 1 && key.q >= 1 && GoodPrimes(key.p, key.q) && key == Generate(key.p, key.q)
    && key.n > 2 * n * n * n * n
  }

  function NonceX<P>(c: Curve<P>, d: Draws): int {
    c.x(c.mul(d.kb, c.mul(d.ks, c.G)))
  }

  function RValue<P>(c: Curve<P>, d: Draws): int
    requires c.n > 0
  {
    NonceX(c, d) % c.n
  }

  /** The textbook ECDSA value (ks*kb)^-1 * (z + r*ds*db) mod n, before choosing its sign. */
  function TextbookS<P>(c: Curve<P>, ds: int, db: int, m: seq<byte>, d: Draws): int
    requires c.n > 0 && MinEncodedSize(c.n) <= 32 && |m| == 32
  {
    var z := Decode(m[..MinEncodedSize(c.n)]);
    (InverseMod(d.ks * d.kb, c.n) * (z + RValue(c, d) * (ds * db))) % c.n
  }

  predicate BlindingCoprime(key: Key, d: Draws) {
    Gcd(d.blindS, key.n) == 1 && Gcd(d.blind1, key.n) == 1 && Gcd(d.blind2, key.n) == 1
  }

  /** When a run succeeds, decided by the draws alone. */
  predicate RunSucceeds<P>(c: Curve<P>, key: Key, ds: int, db: int, m: seq<byte>, d: Draws)
    requires c.n > 0 && MinEncodedSize(c.n) <= 32 && |m| == 32
  {
    RValue(c, d) != 0 && BlindingCoprime(key, d) && TextbookS(c, ds, db, m, d) != 0 && NonceX(c, d) < c.n
  }

  /** SharedSignature::exec on values: S encrypts ds, B answers, S finishes. */
  function SignRun<P(==)>(c: Curve<P>, key: Key, ds: int, db: int, Q: P, m: seq<byte>, d: Draws): Result<(int, int)>
    requires c.n > 0 && MinEncodedSize(c.n) <= 32 && key.WellFormed() && key.n > 0
  {
    var cs :- Enc(key, ds, d.blindS);
    var half :- HalfSignature(c, Client(key.n, key.g), db, c.mul(d.ks, c.G), cs, m, d);
    var done := Finish(c, key, d.ks, Q, m, half.0, half.1, 0);
    if done.1.Err? then Err(done.1.error) else Ok((half.0, done.0))
  }

  // The two summands of the half-signature's plaintext: B's share of the hash, and its exponent t.
  function HashPart<P>(c: Curve<P>, m: seq<byte>, d: Draws): int
    requires c.n > 0 && MinEncodedSize(c.n) <= 32 && |m| == 32
  {
    (InverseMod(d.kb, c.n) * Decode(m[..MinEncodedSize(c.n)])) % c.n
  }

  function Exponent<P>(c: Curve<P>, db: int, d: Draws): int
    requires c.n > 0
  {
    (((InverseMod(d.kb, c.n) * RValue(c, d)) % c.n) * db) % c.n
  }

  lemma ShareNotDivisible(n: nat, k: int)
    requires Prime(n) && 1 <= k <= n - 1
    ensures !Divides(n, k)
    ensures Cong(k * InverseMod(k, n), 1, n)
  {
    SmallMod(k, n);
    PrimeModGcd(n, k);
    InverseModIsInverse(k, n);
  }

  lemma ProductNotDivisible(n: nat, a: int, b: int)
    requires Prime(n) && 1 <= a <= n - 1 && 1 <= b <= n - 1
    ensures !Divides(n, a * b)
  {
    ShareNotDivisible(n, a);
    ShareNotDivisible(n, b);
    if Divides(n, a * b) { EuclidsLemma(n, a, b); }
  }

  // B's exponent t is never zero, so S's encryption of ds always takes part.
  lemma ExponentNonZero(n: nat, kbInv: int, kb: int, r: int, db: int)
    requires Prime(n) && Cong(kb * kbInv, 1, n) && 0 < r < n && 1 <= db <= n - 1
    ensures (((kbInv * r) % n) * db) % n != 0
  {
    SmallMod(1, n);
    if Divides(n, kbInv) {
      DividesMul(n, kbInv, kb);
    }
    SmallMod(r, n);
    if Divides(n, kbInv * r) { EuclidsLemma(n, kbInv, r); }
    CongMod(kbInv * r, n);
    ProductNotDivisible(n, (kbInv * r) % n, db);
  }

  lemma PartsInRange<P>(c: Curve<P>, key: Key, ds: int, db: int, m: seq<byte>, d: Draws)
    requires Setup(c, key, ds, db, m, d) && RValue(c, d) != 0
    ensures 0 <= HashPart(c, m, d) < c.n && 0 < Exponent(c, db, d) < c.n && 0 < RValue(c, d) < c.n
    ensures 0 <= d.u * c.n && c.n <= key.n
    ensures HashPart(c, m, d) + Exponent(c, db, d) * ds + d.u * c.n < key.n && 0 <= Exponent(c, db, d) * ds
  {
    var n := c.n;
    ModRange(NonceX(c, d), n);
    ModRange(InverseMod(d.kb, n) * Decode(m[..MinEncodedSize(n)]), n);
    ModRange(((InverseMod(d.kb, n) * RValue(c, d)) % n) * db, n);
    ShareNotDivisible(n, d.kb);
    ExponentNonZero(n, InverseMod(d.kb, n), d.kb, RValue(c, d), db);
    HalfSignatureFits(n, HashPart(c, m, d), Exponent(c, db, d), ds, d.u);
    FourthPowerDominates(n);
  }

  lemma ModRange(a: int, n: int)
    requires n > 0
    ensures 0 <= a % n < n
  {
  }

  // B's message is the evaluation of the expression, under the public key.
  lemma HalfSignatureValue<P>(c: Curve<P>, key: Key, ds: int, db: int, m: seq<byte>, d: Draws)
    requires Setup(c, key, ds, db, m, d) && RValue(c, d) != 0
    ensures key.n2 > 0 && Enc(key, ds, d.blindS).Ok?
    ensures 0 <= HashPart(c, m, d) && 0 <= Exponent(c, db, d) && 0 <= d.u * c.n
    ensures HalfSignature(c, Client(key.n, key.g), db, c.mul(d.ks, c.G), Enc(key, ds, d.blindS).value, m, d)
         == Ok((RValue(c, d), Eval(key, HalfExpr(HashPart(c, m, d), Exponent(c, db, d), ds, d.u * c.n, d))))
  {
    PartsInRange(c, key, ds, db, m, d);
    HomomorphicDecryption(key, key.p, key.q, Fresh(0, 0));
    HalfExprEval(key, HashPart(c, m, d), Exponent(c, db, d), ds, d.u * c.n, d);
  }

  // What S decrypts: the exact integer, when every draw is coprime to N, and an exception otherwise.
  lemma HalfSignatureDecrypts<P>(c: Curve<P>, key: Key, ds: int, db: int, m: seq<byte>, d: Draws)
    requires Setup(c, key, ds, db, m, d) && RValue(c, d) != 0
    ensures Enc(key, ds, d.blindS).Ok?
    ensures var half := HalfSignature(c, Client(key.n, key.g), db, c.mul(d.ks, c.G), Enc(key, ds, d.blindS).value, m, d);
      && half.Ok? && half.value.0 == RValue(c, d)
      && (BlindingCoprime(key, d) ==> Dec(key, half.value.1) == Ok(HashPart(c, m, d) + Exponent(c, db, d) * ds + d.u * c.n))
      && (!BlindingCoprime(key, d) ==> Dec(key, half.value.1).Err?)
  {
    PartsInRange(c, key, ds, db, m, d);
    HalfSignatureValue(c, key, ds, db, m, d);
    var a, t := HashPart(c, m, d), Exponent(c, db, d);
    var e := HalfExpr(a, t, ds, d.u * c.n, d);
    HomomorphicDecryption(key, key.p, key.q, e);
    HalfExprPlain(key.n, a, t, ds, d.u * c.n, d);
    SmallMod(Plain(e), key.n);
  }

  lemma FourthPowerDominates(n: int)
    requires n >= 2
    ensures n <= 2 * n * n * n * n
  {
    var m := n * n;
    assert m >= n;
    assert m * m >= m;
    assert 2 * n * n * n * n == 2 * (m * m);
  }

  // Up to sign, s*(ks*kb) = z + r*(ds*db); the sign is the one low-s normalisation picked.
  lemma LowSKeepsEquation(n: nat, s0: int, k: int, v: int)
    requires n > 0 && 0 < s0 < n && Cong(s0 * k, v, n)
    ensures 0 < LowS(s0, n) < n && LowS(s0, n) <= n - LowS(s0, n)
    ensures Cong(LowS(s0, n) * k, v, n) || Cong(LowS(s0, n) * (-k), v, n)
  {
    if s0 > n - s0 {
      assert (n - s0) * (-k) == s0 * k + (-k) * n;
      CongIntro((n - s0) * (-k), s0 * k, -k, n);
    }
  }

  // The value S obtains before choosing the sign is the textbook one.
  lemma UnsignedS<P>(c: Curve<P>, key: Key, ds: int, db: int, m: seq<byte>, d: Draws)
    requires Setup(c, key, ds, db, m, d) && RValue(c, d) != 0
    ensures var plain := HashPart(c, m, d) + Exponent(c, db, d) * ds + d.u * c.n;
      (InverseMod(d.ks, c.n) * (plain % c.n)) % c.n == TextbookS(c, ds, db, m, d)
    ensures var z := Decode(m[..MinEncodedSize(c.n)]);
      Cong(TextbookS(c, ds, db, m, d) * (d.ks * d.kb), z + RValue(c, d) * (ds * db), c.n)
  {
    var n, z, r := c.n, Decode(m[..MinEncodedSize(c.n)]), RValue(c, d);
    var plain, v := HashPart(c, m, d) + Exponent(c, db, d) * ds + d.u * n, z + r * (ds * db);
    ShareNotDivisible(n, d.kb);
    ShareNotDivisible(n, d.ks);
    HalfArithmetic(n, d.kb, InverseMod(d.kb, n), z, r, ds, db, d.u);
    FinishArithmetic(n, d.ks, InverseMod(d.ks, n), d.kb, plain, v);
    ProductNotDivisible(n, d.ks, d.kb);
    ModRange(InverseMod(d.ks, n) * (plain % n), n);
    SolveForS(n, d.ks * d.kb, (InverseMod(d.ks, n) * (plain % n)) % n, v);
  }

  // S's own check of the result.
  lemma FinalVerify<P>(c: Curve<P>, key: Key, ds: int, db: int, m: seq<byte>, d: Draws)
    requires Setup(c, key, ds, db, m, d) && RValue(c, d) != 0 && TextbookS(c, ds, db, m, d) != 0
    ensures Verify(c, c.mul(ds * db, c.G), m, RValue(c, d), LowS(TextbookS(c, ds, db, m, d), c.n)) == Ok(NonceX(c, d) < c.n)
  {
    var n, z, s0 := c.n, Decode(m[..MinEncodedSize(c.n)]), TextbookS(c, ds, db, m, d);
    UnsignedS(c, key, ds, db, m, d);
    ModRange(NonceX(c, d), n);
    ModRange(InverseMod(d.ks * d.kb, n) * (z + RValue(c, d) * (ds * db)), n);
    LowSKeepsEquation(n, s0, d.ks * d.kb, z + RValue(c, d) * (ds * db));
    ProductNotDivisible(n, ds, db);
    VerifyAccepts(c, ds * db, d.ks * d.kb, m, RValue(c, d), LowS(s0, n));
    NonceProduct(c, d);
    XBelowOrder(NonceX(c, d), n);
  }

  lemma NonceProduct<P>(c: Curve<P>, d: Draws)
    requires IsCurve(c)
    ensures NonceX(c, d) == c.x(c.mul(d.ks * d.kb, c.G)) && NonceX(c, d) >= 0
  {
    assert d.kb * d.ks == d.ks * d.kb;
    MulLaw(c, d.kb, d.ks);
    NegationLaw(c, d.ks * d.kb);
  }

  /** For all shares, nonces, blinding and messages: the run succeeds exactly when RunSucceeds, and
      then yields r and the low-s form of the textbook ECDSA value. */
  lemma HonestSignature<P>(c: Curve<P>, key: Key, ds: int, db: int, m: seq<byte>, d: Draws)
    requires Setup(c, key, ds, db, m, d)
    ensures var run := SignRun(c, key, ds, db, c.mul(ds * db, c.G), m, d);
      && (run.Ok? <==> RunSucceeds(c, key, ds, db, m, d))
      && (run.Ok? ==> run.value == (RValue(c, d), LowS(TextbookS(c, ds, db, m, d), c.n)))
  {
    if RValue(c, d) != 0 {
      HalfSignatureDecrypts(c, key, ds, db, m, d);
      UnsignedS(c, key, ds, db, m, d);
      if TextbookS(c, ds, db, m, d) != 0 {
        FinalVerify(c, key, ds, db, m, d);
      }
    }
  }

  /** A nonce point whose x-coordinate reaches n fails the run, whatever else is drawn: the reduced r
      does not equal it. */
  lemma LargeXNeverSigns<P>(c: Curve<P>, key: Key, ds: int, db: int, m: seq<byte>, d: Draws)
    requires Setup(c, key, ds, db, m, d) && NonceX(c, d) >= c.n
    ensures SignRun(c, key, ds, db, c.mul(ds * db, c.G), m, d).Err?
  {
    HonestSignature(c, key, ds, db, m, d);
  }

  lemma XBelowOrder(x: int, n: nat)
    requires n > 0 && x >= 0
    ensures x == x % n <==> x < n
  {
    CongMod(x, n);
    if x < n { SmallMod(x, n); }
  }

  // ---------------------------------------------------------------- the two parties

  class S<P(==)> {
    const curve: Curve<P>
    const paillier: Key
    var data: seq<byte>
    var ds: int
    var ks: int
    var Qs: P
    var Qb: P
    var Q: P
    var Ks: P
    var cs: int
    var r: int
    var s: int

    ghost predicate Valid() {
      IsCurve(curve) && KeyFor(curve.n, paillier)
    }

    /** The primes are the draws of Paillier's key generation with 2*BitCount(n) + 3 bits; the
        length check that follows them in the original can never complain. */
    constructor (curve: Curve<P>, p: nat, q: nat)
      requires IsCurve(curve) && Prime(p) && Prime(q) && p != q
      requires var b := 2 * BitCount(curve.n) + 3;
               Pow(2, b) <= p <= Pow(2, b + 1) && Pow(2, b) <= q <= Pow(2, b + 1)
      ensures Valid() && this.curve == curve && paillier == Generate(p, q) && data == []
    {
      KeyLengthSuffices(curve.n, p, q);
      this.curve, paillier := curve, Generate(p, q);
      data, ds, ks, cs, r, s := [], 0, 0, 0, 0, 0;
      Qs, Qb, Q, Ks := curve.identity, curve.identity, curve.identity, curve.identity;
    }

    method SetData(m: seq<byte>)
      modifies this`data
      ensures data == m
    {
      data := m;
    }

    method StartInit(d: int)
      requires 1 <= d <= curve.n - 1
      modifies this`ds, this`Qs
      ensures ds == d && Qs == curve.mul(d, curve.G)
    {
      ds := d;
      Qs := curve.mul(ds, curve.G);
    }

    method FinishInit(Qb: P)
      modifies this`Qb, this`Q
      ensures this.Qb == Qb && Q == curve.mul(ds, Qb)
    {
      this.Qb := Qb;
      this.Q := curve.mul(ds, Qb);
    }

    method StartSig(k: int, blind: nat) returns (res: Result<()>)
      requires Valid() && 1 <= k <= curve.n - 1
      modifies this`ks, this`Ks, this`cs
      ensures ks == k && Ks == curve.mul(k, curve.G)
      ensures res.Ok? <==> Enc(paillier, ds, blind).Ok?
      ensures cs == (if res.Ok? then Enc(paillier, ds, blind).value else old(cs))
    {
      ks := k;
      Ks := curve.mul(ks, curve.G);
      cs :- Enc(paillier, ds, blind);
      return Ok(());
    }

    method FinishSig(r: int, cb: int) returns (res: Result<()>)
      requires Valid()
      modifies this`r, this`s
      ensures this.r == r && (s, res) == Finish(curve, paillier, ks, Q, data, r, cb, old(s))
    {
      this.r := r;
      var plain :- Dec(paillier, cb);
      var s2 := plain % curve.n;
      s := (InverseMod(ks, curve.n) * s2) % curve.n;
      if s == 0 {
        return Err("ERR s==0 restart protocol");
      }
      if s > curve.n - s {
        s := curve.n - s;
      }
      if data == [] {
        return Err("Data is empty!");
      }
      var good :- Verify(curve, Q, data, r, s);
      return if good then Ok(()) else Err("Invalid signature generated!");
    }
  }

  class B<P(==)> {
    const curve: Curve<P>
    const paillier: Key
    var data: seq<byte>
    var db: int
    var kb: int
    var Qs: P
    var Qb: P
    var Q: P
    var K: P
    var r: int
    var cb: int
    var openVerified: bool

    constructor (curve: Curve<P>, n: nat, g: nat)
      ensures this.curve == curve && paillier == Client(n, g)
    {
      this.curve, paillier := curve, Client(n, g);
      data, db, kb, r, cb, openVerified := [], 0, 0, 0, 0, false;
      Qs, Qb, Q, K := curve.identity, curve.identity, curve.identity, curve.identity;
    }

    method SetData(m: seq<byte>)
      modifies this`data
      ensures data == m
    {
      data := m;
    }

    method StartInit(d: int)
      requires 1 <= d <= curve.n - 1
      modifies this`db, this`Qb
      ensures db == d && Qb == curve.mul(d, curve.G)
    {
      db := d;
      Qb := curve.mul(db, curve.G);
    }

    method FinishInit(Qs: P)
      modifies this`Qs, this`Q
      ensures this.Qs == Qs && Q == curve.mul(db, Qs)
    {
      this.Qs := Qs;
      this.Q := curve.mul(db, Qs);
    }

    method ContSig(Ks: P, cs: int, m: seq<byte>, d: Draws) returns (res: Result<()>)
      requires IsCurve(curve) && paillier.n > 0 && paillier.WellFormed()
      modifies this`kb, this`K, this`r, this`cb
      ensures kb == d.kb && K == curve.mul(d.kb, Ks) && r == curve.x(K) % curve.n
      ensures var half := HalfSignature(curve, paillier, db, Ks, cs, m, d);
        && (res.Ok? <==> half.Ok?)
        && (res.Ok? ==> (r, cb) == half.value)
        && (res.Err? ==> cb == old(cb) && res.error == half.error)
    {
      kb := d.kb;
      K := curve.mul(kb, Ks);
      r := curve.x(K) % curve.n;
      if r == 0 {
        return Err("r == 0");
      }
      assert paillier.n2 > 0;
      var hi :- HashToInt(m, MinEncodedSize(curve.n));
      var c1 :- Enc(paillier, (InverseMod(kb, curve.n) * hi) % curve.n, d.blind1);
      var t := (((InverseMod(kb, curve.n) * r) % curve.n) * db) % curve.n;
      var c2 := (c1 * ModPow(cs, t, paillier.n2)) % paillier.n2;
      var c3 :- Enc(paillier, d.u * curve.n, d.blind2);
      cb := (c2 * c3) % paillier.n2;
      return Ok(());
    }
  }

  /** B's constructor, which throws when the Paillier modulus is too short. */
  method CreateB<P(==)>(curve: Curve<P>, n: nat, g: nat) returns (b: Result<B<P>>)
    ensures b.Ok? <==> n > 2 * curve.n * curve.n * curve.n * curve.n
    ensures b.Ok? ==> fresh(b.value) && b.value.curve == curve && b.value.paillier == Client(n, g)
  {
    if n <= 2 * curve.n * curve.n * curve.n * curve.n {
      return Err("too short paillier");
    }
    var party := new B(curve, n, g);
    return Ok(party);
  }

  /** Both parties of one instance, after the keys are shared. */
  ghost predicate Paired<P>(s: S<P>, b: B<P>)
    reads s, b
  {
    && s.Valid() && b.curve == s.curve && b.paillier == Client(s.paillier.n, s.paillier.g)
    && 1 <= s.ds <= s.curve.n - 1 && 1 <= b.db <= s.curve.n - 1
    && s.Q == b.Q == s.curve.mul(s.ds * b.db, s.curve.G)
  }

  /** SharedSignature::init: both sides arrive at the same public key ds*db*G, so the mismatch
      exception is never thrown. */
  method Init<P(==)>(s: S<P>, b: B<P>, ds: int, db: int) returns (res: Result<()>)
    requires s.Valid() && b.curve == s.curve && b.paillier == Client(s.paillier.n, s.paillier.g)
    requires 1 <= ds <= s.curve.n - 1 && 1 <= db <= s.curve.n - 1
    modifies s`ds, s`Qs, s`Qb, s`Q, b`db, b`Qb, b`Qs, b`Q
    ensures res.Ok? && Paired(s, b) && s.ds == ds && b.db == db
  {
    s.StartInit(ds);
    b.StartInit(db);
    s.FinishInit(b.Qb);
    b.FinishInit(s.Qs);
    MulLaw(s.curve, ds, db);
    MulLaw(s.curve, db, ds);
    assert ds * db == db * ds;
    if !(s.Q == b.Q) {
      return Err("Mismatching Q");
    }
    return Ok(());
  }

  /** SharedSignature::exec: what an honest run leaves behind, for every draw. */
  method Exec<P(==)>(s: S<P>, b: B<P>, d: Draws) returns (res: Result<()>)
    requires Paired(s, b) && s.data == b.data && |s.data| == 32 && DrawsInRange(s.curve.n, s.paillier.n, d)
    modifies s`ks, s`Ks, s`cs, s`r, s`s, b`kb, b`K, b`r, b`cb
    ensures Paired(s, b)
    ensures res.Ok? <==> RunSucceeds(s.curve, s.paillier, s.ds, b.db, s.data, d)
    ensures res.Ok? ==> s.r == b.r == RValue(s.curve, d) && s.s == LowS(TextbookS(s.curve, s.ds, b.db, s.data, d), s.curve.n)
    ensures res.Ok? ==> 0 < s.r < s.curve.n && 0 < s.s <= s.curve.n - s.s
    ensures res.Ok? ==> Verify(s.curve, b.Q, b.data, s.r, s.s) == Ok(true)
  {
    HonestSignature(s.curve, s.paillier, s.ds, b.db, s.data, d);
    ghost var good := RunSucceeds(s.curve, s.paillier, s.ds, b.db, s.data, d);
    if good {
      SuccessIsVerified(s.curve, s.paillier, s.ds, b.db, s.data, d);
    }
    res := s.StartSig(d.ks, d.blindS);
    if res.Err? { return; }
    res := b.ContSig(s.Ks, s.cs, b.data, d);
    if res.Err? { return; }
    FinishIgnoresOldS(s.curve, s.paillier, s.ks, s.Q, s.data, b.r, b.cb, s.s);
    res := s.FinishSig(b.r, b.cb);
  }

  lemma SuccessIsVerified<P>(c: Curve<P>, key: Key, ds: int, db: int, m: seq<byte>, d: Draws)
    requires Setup(c, key, ds, db, m, d) && RunSucceeds(c, key, ds, db, m, d)
    ensures var r, s := RValue(c, d), LowS(TextbookS(c, ds, db, m, d), c.n);
      && 0 < r < c.n && 0 < s <= c.n - s
      && Verify(c, c.mul(ds * db, c.G), m, r, s) == Ok(true)
  {
    FinalVerify(c, key, ds, db, m, d);
    ModRange(NonceX(c, d), c.n);
    ModRange(InverseMod(d.ks * d.kb, c.n) * (Decode(m[..MinEncodedSize(c.n)]) + RValue(c, d) * (ds * db)), c.n);
  }

  lemma FinishIgnoresOldS<P>(c: Curve<P>, key: Key, ks: int, Q: P, m: seq<byte>, r: int, cb: int, s: int)
    requires c.n > 0 && MinEncodedSize(c.n) <= 32 && key.WellFormed()
    ensures Finish(c, key, ks, Q, m, r, cb, s).1 == Finish(c, key, ks, Q, m, r, cb, 0).1
    ensures Finish(c, key, ks, Q, m, r, cb, s).1.Ok? ==> Finish(c, key, ks, Q, m, r, cb, s) == Finish(c, key, ks, Q, m, r, cb, 0)
  {
  }

  /** SharedSignature::open. */
  method Open<P(==)>(s: S<P>, b: B<P>) returns (res: Result<()>)
    requires IsCurve(b.curve)
    modifies b`openVerified
    ensures var v := Verify(b.curve, b.Q, b.data, s.r, s.s);
      (res.Ok? <==> v.Ok?) && b.openVerified == (if v.Ok? then v.value else old(b.openVerified))
  {
    var result :- Verify(b.curve, b.Q, b.data, s.r, s.s);
    b.openVerified := result;
    return Ok(());
  }
}
