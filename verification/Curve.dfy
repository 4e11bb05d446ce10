/**
 The elliptic-curve group as the protocol uses it: a cyclic group of prime order n generated by G,
 with an x-coordinate that a point shares with its negation.  Curve arithmetic is library code, so
 the operations are given by a record of functions and the laws they obey.
 */
module Curve {
  import opened NumberTheory
  import opened Bytes

  datatype Curve<!P(==)> = Curve(n: nat, G: P, identity: P, mul: (int, P) -> P, add: (P, P) -> P, x: P -> int)

  ghost predicate IsCurve<P>(c: Curve<P>) {
    && Prime(c.n)
    && MinEncodedSize(c.n) <= 32
    && ScalarsMultiply(c)
    && ScalarsAdd(c)
    && OrderIsN(c)
    && XIgnoresSign(c)
  }

  /** Always true; the laws are stated for scalars that a proof names with it. */
  predicate Scalars(a: int, b: int) {
    true
  }

  ghost predicate ScalarsMultiply<P>(c: Curve<P>) {
    forall a, b {:trigger Scalars(a, b)} :: Scalars(a, b) ==> c.mul(a, c.mul(b, c.G)) == c.mul(a * b, c.G)
  }

  ghost predicate ScalarsAdd<P>(c: Curve<P>) {
    forall a, b {:trigger Scalars(a, b)} :: Scalars(a, b) ==> c.add(c.mul(a, c.G), c.mul(b, c.G)) == c.mul(a + b, c.G)
  }

  ghost predicate OrderIsN<P>(c: Curve<P>)
    requires c.n > 0
  {
    && c.mul(0, c.G) == c.identity
    && forall a, b {:trigger Scalars(a, b)} :: Scalars(a, b) ==> (c.mul(a, c.G) == c.mul(b, c.G) <==> Cong(a, b, c.n))
  }

  ghost predicate XIgnoresSign<P>(c: Curve<P>)
    requires c.n > 0
  {
    forall a, b {:trigger Scalars(a, b)} :: Scalars(a, b) ==>
      && c.x(c.mul(a, c.G)) >= 0
      && (Divides(c.n, a + b) ==> c.x(c.mul(a, c.G)) == c.x(c.mul(b, c.G)))
  }

  lemma MulLaw<P>(c: Curve<P>, a: int, b: int)
    requires IsCurve(c)
    ensures c.mul(a, c.mul(b, c.G)) == c.mul(a * b, c.G)
  {
    assert Scalars(a, b);
  }

  lemma AddLaw<P>(c: Curve<P>, a: int, b: int)
    requires IsCurve(c)
    ensures c.add(c.mul(a, c.G), c.mul(b, c.G)) == c.mul(a + b, c.G)
  {
    assert Scalars(a, b);
  }

  lemma OrderLaw<P>(c: Curve<P>, a: int, b: int)
    requires IsCurve(c)
    ensures c.mul(a, c.G) == c.mul(b, c.G) <==> Cong(a, b, c.n)
    ensures c.mul(0, c.G) == c.identity
  {
    assert Scalars(a, b);
  }

  lemma NegationLaw<P>(c: Curve<P>, a: int)
    requires IsCurve(c)
    ensures c.x(c.mul(-a, c.G)) == c.x(c.mul(a, c.G)) >= 0
  {
    assert Scalars(a, -a);
    SmallMod(0, c.n);
  }

  /** Residues modulo a prime, a point being its own discrete logarithm, satisfy the laws. */
  function ResidueCurve(n: nat): Curve<int>
    requires n > 0
  {
    Curve(n, 1, 0, (a, k) => Times(n, a, k), (k, l) => Plus(n, k, l), k => if 2 * k <= n then k else n - k)
  }

  function Times(n: nat, a: int, k: int): int
    requires n > 0
  {
    (a * k) % n
  }

  function Plus(n: nat, k: int, l: int): int
    requires n > 0
  {
    (k + l) % n
  }

  lemma TimesGenerator(n: nat, a: int)
    requires n > 0
    ensures Times(n, a, 1) == a % n && 0 <= a % n < n
  {
    CongMod(a, n);
  }

  lemma TimesTimes(n: nat, a: int, b: int)
    requires n > 0
    ensures Times(n, a, Times(n, b, 1)) == Times(n, a * b, 1)
  {
    CongMod(b, n);
    CongMul(a, a, b % n, b, n);
    TimesGenerator(n, b);
    TimesGenerator(n, a * b);
  }

  lemma PlusTimes(n: nat, a: int, b: int)
    requires n > 0
    ensures Plus(n, Times(n, a, 1), Times(n, b, 1)) == Times(n, a + b, 1)
  {
    CongMod(a, n);
    CongMod(b, n);
    CongAdd(a % n, a, b % n, b, n);
    TimesGenerator(n, a);
    TimesGenerator(n, b);
    TimesGenerator(n, a + b);
  }

  lemma Opposite(n: nat, a: int, b: int)
    requires n > 0 && Divides(n, a + b)
    ensures a % n + b % n == 0 || a % n + b % n == n
  {
    PlusTimes(n, a, b);
    TimesGenerator(n, a);
    TimesGenerator(n, b);
    TimesGenerator(n, a + b);
    var k := DividesElim(n, a % n + b % n);
    FactorBelow(n, k, 2);
    FactorBelow(n, -1, k);
  }

  lemma ResidueScalars(n: nat)
    requires n > 0
    ensures ScalarsMultiply(ResidueCurve(n)) && ScalarsAdd(ResidueCurve(n))
  {
    var c := ResidueCurve(n);
    forall a, b ensures c.mul(a, c.mul(b, c.G)) == c.mul(a * b, c.G) {
      TimesTimes(n, a, b);
    }
    forall a, b ensures c.add(c.mul(a, c.G), c.mul(b, c.G)) == c.mul(a + b, c.G) {
      PlusTimes(n, a, b);
    }
  }

  lemma ResidueOrder(n: nat)
    requires n > 0
    ensures OrderIsN(ResidueCurve(n))
  {
    var c := ResidueCurve(n);
    SmallMod(0, n);
    forall a, b ensures c.mul(a, c.G) == c.mul(b, c.G) <==> Cong(a, b, n) {
      TimesGenerator(n, a);
      TimesGenerator(n, b);
    }
  }

  lemma ResidueX(n: nat)
    requires n > 0
    ensures XIgnoresSign(ResidueCurve(n))
  {
    var c := ResidueCurve(n);
    forall a ensures c.x(c.mul(a, c.G)) >= 0 {
      TimesGenerator(n, a);
    }
    forall a, b | Divides(n, a + b) ensures c.x(c.mul(a, c.G)) == c.x(c.mul(b, c.G)) {
      TimesGenerator(n, a);
      TimesGenerator(n, b);
      Opposite(n, a, b);
    }
  }

  lemma ResidueCurveIsCurve(n: nat)
    requires Prime(n) && MinEncodedSize(n) <= 32
    ensures IsCurve(ResidueCurve(n))
  {
    ResidueScalars(n);
    ResidueOrder(n);
    ResidueX(n);
  }

  /** The same group with every x-coordinate moved up by n: the laws do not keep x below the order. */
  function Shifted<P(==)>(c: Curve<P>): Curve<P> {
    c.(x := k => c.x(k) + c.n)
  }

  lemma ShiftedIsCurve<P>(c: Curve<P>)
    requires IsCurve(c)
    ensures IsCurve(Shifted(c))
  {
  }
}
