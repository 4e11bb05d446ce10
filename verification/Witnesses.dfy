/**
 Concrete instances of everything that the other modules assume, a run that signs, and a run that
 verify rejects although r and s are fine.  The curve is the residue group modulo 2, the Paillier
 modulus 5 * 7, and the message is zero.
 */
module Witnesses {
  import opened NumberTheory
  import opened Outcome
  import opened Bytes
  import opened Curve
  import opened Paillier
  import opened SharedSignature
  import opened SquareRoot
  import opened SignatureKey
  import opened SellInformation
  import opened Refund
  import ShaCommitment
  import TimedCommitment

  // ---------------------------------------------------------------- an environment

  lemma SmallPrimes()
    ensures Prime(2) && Prime(3) && Prime(5) && Prime(7) && Prime(11)
  {
    forall d | 2 <= d < 5 ensures !Divides(d, 5) { if d == 2 {} else if d == 3 {} else {} }
    forall d | 2 <= d < 7 ensures !Divides(d, 7) { if d < 4 { if d == 2 {} else {} } else if d == 4 {} else if d == 5 {} else {} }
    forall d | 2 <= d < 11 ensures !Divides(d, 11) {
      if d < 5 { if d == 2 {} else if d == 3 {} else {} }
      else if d < 8 { if d == 5 {} else if d == 6 {} else {} }
      else if d == 8 {} else if d == 9 {} else {}
    }
  }

  lemma ToyKey()
    ensures KeyFor(2, Generate(5, 7))
  {
    SmallPrimes();
    assert !Divides(5, 6) && !Divides(7, 4);
  }

  const TOY_CURVE := ResidueCurve(2)

  const TOY_MESSAGE: seq<byte> := seq(32, _ => 0)

  lemma ToyCurveIsCurve()
    ensures IsCurve(TOY_CURVE)
  {
    SmallPrimes();
    ResidueCurveIsCurve(2);
  }

  lemma EnvIsInhabited() returns (e: Env<int>)
    ensures IsEnv(e) && e.L == 2 && e.curve == TOY_CURVE && e.key == Generate(5, 7) && e.m == TOY_MESSAGE
  {
    SmallPrimes();
    ToyCurveIsCurve();
    ToyKey();
    e := Env(TOY_CURVE, Generate(5, 7), (seed: seq<byte>, len: nat) => seq(len, _ => 0), 7, 11, (m: seq<byte>) => seq(32, _ => 0), TOY_MESSAGE, 2, 0);
  }

  // ---------------------------------------------------------------- a signing run

  /** All shares and nonces are 1, and so are the blindings. */
  const TOY_DRAWS := Draws(1, 1, 1, 1, 0, 1)

  lemma ToySetup(c: Curve<int>)
    requires IsCurve(c) && c.n == 2
    ensures Setup(c, Generate(5, 7), 1, 1, TOY_MESSAGE, TOY_DRAWS) && BlindingCoprime(Generate(5, 7), TOY_DRAWS)
  {
    ToyKey();
    CombinationOneIsCoprime(1, 35, 1, 0);
  }

  // With nonces 1 and a zero message, s is r modulo 2 up to the inverse of 1.
  lemma ToyS(c: Curve<int>)
    requires c.n == 2 && RValue(c, TOY_DRAWS) == 1
    ensures MinEncodedSize(c.n) <= 32 && TextbookS(c, 1, 1, TOY_MESSAGE, TOY_DRAWS) == 1
  {
    assert TOY_MESSAGE[..1] == [0];
    assert Decode([0]) == 0 by { assert [0][..0] == []; }
    CombinationOneIsCoprime(1, 2, 1, 0);
    InverseModIsInverse(1, 2);
  }

  /** A run that signs. */
  lemma SomeRunSucceeds()
    ensures IsCurve(TOY_CURVE) && Setup(TOY_CURVE, Generate(5, 7), 1, 1, TOY_MESSAGE, TOY_DRAWS)
    ensures RunSucceeds(TOY_CURVE, Generate(5, 7), 1, 1, TOY_MESSAGE, TOY_DRAWS)
  {
    ToyCurveIsCurve();
    ToySetup(TOY_CURVE);
    ToyS(TOY_CURVE);
  }

  lemma ShiftedNonce()
    ensures NonceX(Shifted(TOY_CURVE), TOY_DRAWS) == 3 && RValue(Shifted(TOY_CURVE), TOY_DRAWS) == 1
  {
  }

  lemma ShiftedSetup()
    ensures var c := Shifted(TOY_CURVE);
      IsCurve(c) && Setup(c, Generate(5, 7), 1, 1, TOY_MESSAGE, TOY_DRAWS) && BlindingCoprime(Generate(5, 7), TOY_DRAWS)
  {
    ToyCurveIsCurve();
    ShiftedIsCurve(TOY_CURVE);
    ToySetup(Shifted(TOY_CURVE));
  }

  // r, s and the blindings are fine.
  lemma ShiftedRun()
    ensures var c := Shifted(TOY_CURVE);
      MinEncodedSize(c.n) <= 32 && RValue(c, TOY_DRAWS) == 1 && TextbookS(c, 1, 1, TOY_MESSAGE, TOY_DRAWS) == 1
  {
    ShiftedNonce();
    ToyS(Shifted(TOY_CURVE));
  }

  /** A run whose r and s are both fine and whose blindings are coprime (ShiftedSetup, ShiftedRun), and
      which still fails: the x-coordinate of its nonce point is 3, and verify does not reduce it modulo 2. */
  lemma VerifyRejectsLargeX()
    ensures var c, key := Shifted(TOY_CURVE), Generate(5, 7);
      && IsCurve(c) && Setup(c, key, 1, 1, TOY_MESSAGE, TOY_DRAWS) && BlindingCoprime(key, TOY_DRAWS)
      && RValue(c, TOY_DRAWS) == 1 && TextbookS(c, 1, 1, TOY_MESSAGE, TOY_DRAWS) == 1
      && SignRun(c, key, 1, 1, c.mul(1, c.G), TOY_MESSAGE, TOY_DRAWS).Err?
  {
    ShiftedSetup();
    ShiftedRun();
    ShiftedNonce();
    assert 1 * 1 == 1;
    LargeXNeverSigns(Shifted(TOY_CURVE), Generate(5, 7), 1, 1, TOY_MESSAGE, TOY_DRAWS);
  }

  // ---------------------------------------------------------------- an instance with a useless lock

  lemma ToyInstance(e: Env<int>) returns (a: SingleSeller<int>, b: SingleBuyer<int>)
    requires IsEnv(e) && e.curve == TOY_CURVE && e.key == Generate(5, 7) && e.m == TOY_MESSAGE
    ensures ExecutedInstance(e, a, b) && a.ds == 1 && b.db == 1
  {
    var d := InstanceDraws(TOY_DRAWS, 0, _ => [], []);
    var Q := e.curve.mul(1 * 1, e.curve.G);
    var a0 := SingleSeller(1, Q, 0, 0, [], ShaCommitment.Sender([], [], []));
    var b0 := SingleBuyer(1, Q, TimedCommitment.Commitment(0, 0, 0, [], 0), [], ShaCommitment.FRESH_RECEIVER, false);
    SomeRunSucceeds();
    InstanceRuns(e, d, a0, b0);
    a, b := ExecInstance(e, d, a0, b0).value.0, ExecInstance(e, d, a0, b0).value.1;
  }

  /** Opening accepts an instance although its lock holds 2 instead of the share 1, and the key forced
      from it is not the private key. */
  lemma WrongLockInstance() returns (e: Env<int>, a: SingleSeller<int>, b: SingleBuyer<int>)
    ensures IsEnv(e) && OpeningVerifies(e, a, b)
    ensures b.Q == e.curve.mul(a.ds * b.db, e.curve.G) && RefundKey(e, b).Ok?
    ensures e.curve.mul(RefundKey(e, b).value, e.curve.G) != b.Q
  {
    e := EnvIsInhabited();
    var honest;
    a, honest := ToyInstance(e);
    AnyLockPasses(e, a, honest, 0, 2);
    b := honest.(lock := LockOn(e, 0, 2));
  }

  // ---------------------------------------------------------------- library functions

  /** The first root of a modulo p from x on. */
  function FirstRoot(a: int, p: int, x: nat): int
    requires p > 0
    decreases p - x
  {
    if x >= p then -1 else if IsRoot(x, a, p) then x else FirstRoot(a, p, x + 1)
  }

  const SEARCH: RootFinder := (a: int, p: int) => if p > 0 then FirstRoot(a, p, 0) else 0

  lemma {:induction false} FirstRootFinds(a: int, p: int, x: nat, y: nat)
    requires p > 0 && x <= y < p && IsRoot(y, a, p)
    ensures 0 <= FirstRoot(a, p, x) < p && IsRoot(FirstRoot(a, p, x), a, p)
    decreases p - x
  {
    if !IsRoot(x, a, p) {
      FirstRootFinds(a, p, x + 1, y);
    }
  }

  lemma SearchFindsRoots()
    ensures FindsRoots(SEARCH)
  {
    forall a, p | Prime(p) && HasRoot(a, p) ensures 0 <= SEARCH(a, p) < p && IsRoot(SEARCH(a, p), a, p) {
      var y :| IsRoot(y, a, p);
      CongMod(y, p);
      CongMul(y % p, y, y % p, y, p);
      FirstRootFinds(a, p, 0, y % p);
    }
  }

  lemma SquareRootIsInhabited()
    ensures Valid(Create(3, 5, SEARCH))
  {
    SmallPrimes();
    SearchFindsRoots();
  }

  /** A cipher that prefixes a zero byte. */
  const PREFIX := Cipher(
    (k: seq<byte>, m: seq<byte>) => [0] + m,
    (k: seq<byte>, m: seq<byte>) => if m == [] then Err("exception") else Ok(m[1..]))

  lemma CipherIsInhabited()
    ensures IsCipher(PREFIX)
  {
    forall k: seq<byte>, m: seq<byte> ensures PREFIX.enc(k, m) != [] && PREFIX.dec(k, PREFIX.enc(k, m)) == Ok(m) {
      assert ([0] + m)[1..] == m;
    }
  }

  /** A wallet in which a signature is the public key it verifies under. */
  function Plainly(buyerKey: int): Wallet<int, int> {
    Wallet((j: nat, s: int, k: int) => s == k, (j: nat, d: int) => Times(2, d, 1), (j: nat) => buyerKey, (j: nat, sigs: seq<int>) => true)
  }

  lemma WalletIsInhabited(e: Env<int>, buyerKey: int)
    requires e.curve == TOY_CURVE
    ensures SignsCorrectly(e, Plainly(buyerKey), buyerKey)
  {
  }
}
