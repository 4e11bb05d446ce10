/**
 timed_commitment/timed_commitment.cpp: a commitment the committer opens by revealing a prime and
 anybody opens by 2^K modular squarings.  The AES keystream is the argument `gen`, a function of
 the 48 seed bytes and the wanted length; the draws of the primes and of h are arguments too.
 */
module TimedCommitment {
  import opened NumberTheory
  import opened Outcome
  import opened Bytes

  type Keystream = (seq<byte>, nat) -> seq<byte>

  ghost predicate IsKeystream(gen: Keystream) {
    forall seed, len :: |gen(seed, len)| == len
  }

  datatype Commitment = Commitment(K: nat, n: nat, h: nat, S: seq<bool>, l: nat)

  /** What Commiter::gen_prime returns: a safe prime that passes the 3 mod 4 check. */
  ghost predicate SafePrime(p: int) {
    Prime(p) && Prime((p - 1) / 2) && p % 4 == 3
  }

  /** exp: square and multiply. */
  method Exp(x: int, n: nat) returns (res: int)
    ensures res == Pow(x, n)
  {
    res := 1;
    var y, e := x, n;
    while e != 0
      invariant e >= 0
      invariant res * Pow(y, e) == Pow(x, n)
    {
      SquareStep(res, y, e);
      if e % 2 == 1 {
        res := res * y;
      }
      y := y * y;
      e := e / 2;
    }
  }

  lemma SquareStep(res: int, y: int, e: nat)
    requires e > 0
    ensures res * Pow(y, e) == (if e % 2 == 1 then res * y else res) * Pow(y * y, e / 2)
  {
    var f := e / 2;
    PowDistributes(y, y, f);
    PowAdd(y, f, f);
    if e % 2 == 1 {
      assert e == 1 + (f + f);
      MulSwap(res, y, 1, Pow(y * y, f));
    } else {
      assert e == f + f;
    }
  }

  // ---------------------------------------------------------------- the keystream

  function Seed(u: nat): seq<byte> {
    seq(48, i requires 0 <= i < 48 => PowPositive(256, i); (u / Pow(256, i)) % 256)
  }

  function XorStream(gen: Keystream, u: nat, m: seq<bool>): (s: seq<bool>)
    requires IsKeystream(gen)
    ensures |s| == |m|
  {
    var t := gen(Seed(u), |m|);
    seq(|m|, i requires 0 <= i < |m| => m[i] != (t[i] % 2 == 1))
  }

  lemma XorStreamInvolution(gen: Keystream, u: nat, m: seq<bool>)
    requires IsKeystream(gen)
    ensures XorStream(gen, u, XorStream(gen, u, m)) == m
  {
  }

  /** The number a byte sequence spells with its lowest byte first. */
  function LittleEndian(b: seq<byte>): nat {
    if b == [] then 0 else
      var last := |b| - 1;
      PowPositive(256, last);
      LittleEndian(b[..last]) + b[last] * Pow(256, last)
  }

  lemma SplitTopByte(u: nat, m: nat)
    requires m > 0
    ensures u % (256 * m) == u % m + ((u / m) % 256) * m
  {
    var a, b := u / m, u % m;
    var c, d := a / 256, a % 256;
    TopByteFits(m, b, d);
    TopByteSplit(u, m, a, b, c, d);
    DivModUnique(u, c, d * m + b, 256 * m);
  }

  lemma TopByteFits(m: int, b: int, d: int)
    requires 0 <= b < m && 0 <= d < 256
    ensures 0 <= d * m + b < 256 * m
  {
    MulMonotone(d, m, 255, m);
  }

  lemma TopByteSplit(u: int, m: int, a: int, b: int, c: int, d: int)
    requires u == a * m + b && a == c * 256 + d
    ensures u == c * (256 * m) + (d * m + b)
  {
    assert (c * 256) * m == c * (256 * m);
  }

  lemma {:induction false} SeedPrefix(u: nat, k: nat)
    requires k <= 48
    ensures Pow(256, k) > 0 && LittleEndian(Seed(u)[..k]) == u % Pow(256, k)
  {
    PowPositive(256, k);
    if k > 0 {
      SeedPrefix(u, k - 1);
      assert Seed(u)[..k][..k - 1] == Seed(u)[..k - 1];
      SplitTopByte(u, Pow(256, k - 1));
    }
  }

  /** The 48 seed bytes spell the key modulo 256^48, so keys that differ there have different seeds. */
  lemma SeedSpellsKey(u: nat)
    ensures Pow(256, 48) > 0 && LittleEndian(Seed(u)) == u % Pow(256, 48)
  {
    SeedPrefix(u, 48);
    assert Seed(u)[..48] == Seed(u);
  }

  lemma SeedsDiffer(u: nat, v: nat)
    requires Pow(256, 48) > 0 && u % Pow(256, 48) != v % Pow(256, 48)
    ensures Seed(u) != Seed(v)
  {
    SeedSpellsKey(u);
    SeedSpellsKey(v);
  }

  /** S is m masked, bit for bit, with the low bits of the keystream whose seed is the low 48 bytes of u. */
  ghost predicate Masked(gen: Keystream, u: nat, m: seq<bool>, S: seq<bool>)
    requires IsKeystream(gen)
  {
    && Pow(256, 48) > 0
    && exists seed: seq<byte> ::
      && |seed| == 48 && LittleEndian(seed) == u % Pow(256, 48)
      && |S| == |m| && forall i :: 0 <= i < |m| ==> S[i] == (m[i] != (gen(seed, |m|)[i] % 2 == 1))
  }

  lemma StreamMasks(gen: Keystream, u: nat, m: seq<bool>)
    requires IsKeystream(gen)
    ensures Masked(gen, u, m, XorStream(gen, u, m))
  {
    SeedSpellsKey(u);
  }

  method PrngXor(gen: Keystream, u: nat, m: seq<bool>) returns (S: seq<bool>)
    requires IsKeystream(gen)
    ensures S == XorStream(gen, u, m)
    ensures Masked(gen, u, m, S)
  {
    var seed := new byte[48];
    var i := 0;
    while i < 48
      invariant 0 <= i <= 48
      invariant forall k :: 0 <= k < i ==> seed[k] == Seed(u)[k]
    {
      PowPositive(256, i);
      seed[i] := (u / Pow(256, i)) % 256;
      i := i + 1;
    }
    assert seed[..] == Seed(u);
    var t := gen(seed[..], |m|);
    S := [];
    i := 0;
    while i < |m|
      invariant 0 <= i <= |m| && |S| == i
      invariant forall k :: 0 <= k < i ==> S[k] == XorStream(gen, u, m)[k]
    {
      S := S + [m[i] != (t[i] % 2 == 1)];
      i := i + 1;
    }
    StreamMasks(gen, u, m);
  }

  // ---------------------------------------------------------------- the two keys

  /** create_timed_key: the exponent 2^(2^K) is first reduced modulo phi. */
  function TimedKey(n: nat, phi: nat, h: nat, K: nat): nat
    requires n > 0 && phi > 0
  {
    PowPositive(2, K);
    ModPow(h, ModPow(2, Pow(2, K), phi), n)
  }

  /** What 2^K squarings modulo n compute. */
  function SquaredKey(n: nat, h: nat, K: nat): nat
    requires n > 0
  {
    PowPositive(2, K);
    PowPositive(2, Pow(2, K));
    ModPow(h, Pow(2, Pow(2, K)), n)
  }

  lemma HalfFactor(p: int, q: int)
    requires p > 1 && q > 1 && p % 2 == 1
    ensures (p - 1) * (q - 1) > 0
    ensures (p - 1) * (q - 1) == ((p - 1) / 2) * (2 * (q - 1))
  {
    var h := (p - 1) / 2;
    assert p - 1 == h * 2;
    assert (h * 2) * (q - 1) == h * (2 * (q - 1));
  }

  // phi = 4p'q' never divides a power of two, so the reduced exponent is not zero.
  lemma PhiDividesNoPowerOfTwo(p: int, q: int, e: nat)
    requires SafePrime(p) && SafePrime(q)
    ensures (p - 1) * (q - 1) > 0 && !Divides((p - 1) * (q - 1), Pow(2, e))
  {
    var phi := (p - 1) * (q - 1);
    var p' := (p - 1) / 2;
    HalfFactor(p, q);
    if Divides(phi, Pow(2, e)) {
      DividesIntro(p', 2 * (q - 1));
      DividesTrans(p', phi, Pow(2, e));
      PrimeDividesPow(p', 2, e);
      DividesLe(p', 2);
    }
  }

  // Modulo one of the primes the exponent may be reduced modulo phi, even when h is a multiple of it.
  lemma ReduceExponent(p: int, k: nat, h: int, e: nat)
    requires Prime(p) && k > 0 && (p - 1) * k > 0 && !Divides((p - 1) * k, e)
    ensures Cong(Pow(h, e % ((p - 1) * k)), Pow(h, e), p)
  {
    var phi := (p - 1) * k;
    var a, c := e % phi, e / phi;
    CongMod(e, phi);
    if Divides(p, h) {
      SmallMod(0, phi);
      DividesPow(p, h, a);
      DividesPow(p, h, e);
    } else {
      QuotientNonNegative(e, phi);
      assert e == phi * c + a;
      PowAdd(h, phi * c, a);
      PowMul(h, phi, c);
      FermatMultiple(p, h, k);
      PowCong(Pow(h, phi), 1, c, p);
      PowOne(c);
      CongMul(Pow(h, phi * c), 1, Pow(h, a), Pow(h, a), p);
    }
  }

  lemma QuotientNonNegative(e: nat, m: nat)
    requires m > 0
    ensures e / m >= 0 && m * (e / m) >= 0
  {
  }

  /** The committer's short path and the receiver's long path derive the same key, for every h. */
  lemma KeysAgree(p: int, q: int, h: nat, K: nat)
    requires SafePrime(p) && SafePrime(q) && p != q
    ensures p * q > 0 && (p - 1) * (q - 1) > 0
    ensures TimedKey(p * q, (p - 1) * (q - 1), h, K) == SquaredKey(p * q, h, K)
  {
    PowPositive(2, K);
    var e := Pow(2, Pow(2, K));
    PowPositive(2, Pow(2, K));
    PhiDividesNoPowerOfTwo(p, q, Pow(2, K));
    var phi := (p - 1) * (q - 1);
    assert phi == (q - 1) * (p - 1);
    ReduceExponent(p, q - 1, h, e);
    ReduceExponent(q, p - 1, h, e);
    DistinctPrimesCoprime(p, q);
    CongProduct(Pow(h, e % phi), Pow(h, e), p, q);
  }

  // ---------------------------------------------------------------- commit and open

  function Committed(gen: Keystream, p: nat, q: nat, h: nat, K: nat, m: seq<bool>): Commitment
    requires IsKeystream(gen) && p > 1 && q > 1
  {
    MulPositive(p, q);
    MulPositive(p - 1, q - 1);
    Commitment(K, p * q, h, XorStream(gen, TimedKey(p * q, (p - 1) * (q - 1), h, K), m), |m|)
  }

  /** Receiver::open: the divisions by zero are Crypto++ exceptions. */
  function Opened(gen: Keystream, com: Commitment, p: int): Result<seq<bool>>
    requires IsKeystream(gen)
  {
    if p == 0 then Err("division by zero")
    else if com.n % p != 0 then Err("p does not divide n")
    else
      var phi := (p - 1) * (com.n / p - 1);
      if phi <= 0 || com.n == 0 then Err("division by zero")
      else Ok(XorStream(gen, TimedKey(com.n, phi, com.h, com.K), com.S))
  }

  function ForceOpened(gen: Keystream, com: Commitment): Result<seq<bool>>
    requires IsKeystream(gen)
  {
    if com.n == 0 then Err("division by zero")
    else Ok(XorStream(gen, SquaredKey(com.n, com.h, com.K), com.S))
  }

  /** Revealing either prime and forcing the lock both return the committed message. */
  lemma CommitmentOpens(gen: Keystream, p: nat, q: nat, h: nat, K: nat, m: seq<bool>)
    requires IsKeystream(gen) && SafePrime(p) && SafePrime(q) && p != q
    ensures var com := Committed(gen, p, q, h, K, m);
      && Opened(gen, com, p) == Ok(m)
      && Opened(gen, com, q) == Ok(m)
      && ForceOpened(gen, com) == Ok(m)
  {
    KeysAgree(p, q, h, K);
    DividesIntro(p, q);
    DividesIntro(q, p);
    SwapFactors(p, q);
    XorStreamInvolution(gen, TimedKey(p * q, (p - 1) * (q - 1), h, K), m);
  }

  /** What a commitment holds: the message masked with h^(2^(2^K)) modulo n. */
  lemma CommitmentMasks(gen: Keystream, p: nat, q: nat, h: nat, K: nat, m: seq<bool>)
    requires IsKeystream(gen) && SafePrime(p) && SafePrime(q) && p != q
    ensures var com := Committed(gen, p, q, h, K, m);
      && com.K == K && com.n == p * q > 0 && com.h == h && com.l == |m|
      && Pow(2, K) >= 0 && Pow(2, Pow(2, K)) >= 0 && Pow(h, Pow(2, Pow(2, K))) % com.n >= 0
      && Masked(gen, Pow(h, Pow(2, Pow(2, K))) % com.n, m, com.S)
  {
    KeysAgree(p, q, h, K);
    StreamMasks(gen, TimedKey(p * q, (p - 1) * (q - 1), h, K), m);
    PowPositive(2, K);
    PowPositive(2, Pow(2, K));
  }

  /** What opening with any integer yields: an exception unless p divides n and leaves a positive phi,
      and otherwise the mask of the key with the exponent reduced modulo that phi taken off. */
  lemma OpeningUnmasks(gen: Keystream, com: Commitment, p: int)
    requires IsKeystream(gen)
    ensures Opened(gen, com, p).Ok? <==> p != 0 && com.n > 0 && com.n % p == 0 && (p - 1) * (com.n / p - 1) > 0
    ensures Opened(gen, com, p).Ok? ==>
      var phi := (p - 1) * (com.n / p - 1);
      && Pow(2, com.K) >= 0 && Pow(2, Pow(2, com.K)) % phi >= 0 && Pow(com.h, Pow(2, Pow(2, com.K)) % phi) % com.n >= 0
      && Masked(gen, Pow(com.h, Pow(2, Pow(2, com.K)) % phi) % com.n, com.S, Opened(gen, com, p).value)
  {
    if Opened(gen, com, p).Ok? {
      PowPositive(2, com.K);
      StreamMasks(gen, TimedKey(com.n, (p - 1) * (com.n / p - 1), com.h, com.K), com.S);
    }
  }

  /** What forcing yields: the same mask taken off, whatever the commitment holds. */
  lemma ForcingUnmasks(gen: Keystream, com: Commitment)
    requires IsKeystream(gen) && com.n > 0
    ensures Pow(2, com.K) >= 0 && Pow(2, Pow(2, com.K)) >= 0 && Pow(com.h, Pow(2, Pow(2, com.K))) % com.n >= 0
    ensures ForceOpened(gen, com).Ok? && Masked(gen, Pow(com.h, Pow(2, Pow(2, com.K))) % com.n, com.S, ForceOpened(gen, com).value)
  {
    PowPositive(2, com.K);
    PowPositive(2, Pow(2, com.K));
    StreamMasks(gen, SquaredKey(com.n, com.h, com.K), com.S);
  }

  lemma SwapFactors(p: int, q: int)
    ensures p * q == q * p && (p - 1) * (q - 1) == (q - 1) * (p - 1)
  {
  }

  class Commiter {
    const p: nat
    const q: nat
    const n: nat
    const phi: nat
    var com: Commitment

    ghost predicate Valid()
      reads this
    {
      SafePrime(p) && SafePrime(q) && p != q && n == p * q && phi == (p - 1) * (q - 1) && n > 0 && phi > 0
    }

    constructor (p: nat, q: nat)
      requires SafePrime(p) && SafePrime(q) && p != q
      ensures Valid() && this.p == p && this.q == q
    {
      assert p * q > 0 && (p - 1) * (q - 1) > 0;
      this.p, this.q, n, phi := p, q, p * q, (p - 1) * (q - 1);
    }

    method Commit(gen: Keystream, h: nat, K: nat, m: seq<bool>) returns (c: Commitment)
      requires Valid() && IsKeystream(gen) && 2 <= h <= n - 1
      modifies this`com
      ensures Valid() && com == c == Committed(gen, p, q, h, K, m)
    {
      var u := TimedKey(n, phi, h, K);
      var S := PrngXor(gen, u, m);
      com := Commitment(K, n, h, S, |m|);
      c := com;
    }

    method Open() returns (prime: nat)
      ensures prime == p
    {
      prime := p;
    }
  }

  class Receiver {
    var com: Commitment

    constructor (com: Commitment)
      ensures this.com == com
    {
      this.com := com;
    }

    method AcceptCommitment(com: Commitment)
      modifies this
      ensures this.com == com
    {
      this.com := com;
    }

    method Open(gen: Keystream, p: int) returns (r: Result<seq<bool>>)
      requires IsKeystream(gen)
      ensures r == Opened(gen, com, p)
    {
      if p == 0 {
        return Err("division by zero");
      }
      var q, rest := com.n / p, com.n % p;
      if rest != 0 {
        return Err("p does not divide n");
      }
      var phi := (p - 1) * (q - 1);
      if phi <= 0 || com.n == 0 {
        return Err("division by zero");
      }
      var u := TimedKey(com.n, phi, com.h, com.K);
      var m := PrngXor(gen, u, com.S);
      return Ok(m);
    }

    method ForceOpen(gen: Keystream) returns (r: Result<seq<bool>>)
      requires IsKeystream(gen)
      ensures r == ForceOpened(gen, com)
    {
      if com.n == 0 {
        return Err("division by zero");
      }
      PowPositive(2, com.K);
      var n, h := com.n, com.h;
      ghost var all := Pow(2, com.K);
      var times := Pow(2, com.K);
      var u: nat := h;
      while times != 0
        invariant 0 <= times <= all
        invariant Cong(u, Pow(h, Pow2(all - times)), n)
        invariant times < all ==> 0 <= u < n
      {
        times := times - 1;
        SquaringStep(n, h, u, all - times - 1);
        u := (u * u) % n;
      }
      CongMod(Pow(h, Pow2(all)), n);
      CongSmall(u, SquaredKey(n, h, com.K), n);
      var m := PrngXor(gen, u, com.S);
      return Ok(m);
    }
  }

  function Pow2(k: nat): (x: nat)
    ensures x > 0
  {
    PowPositive(2, k);
    Pow(2, k)
  }

  lemma SquaringStep(n: nat, h: nat, u: int, k: nat)
    requires n > 0 && Cong(u, Pow(h, Pow2(k)), n)
    ensures Cong((u * u) % n, Pow(h, Pow2(k + 1)), n) && 0 <= (u * u) % n < n
  {
    CongMod(u * u, n);
    CongMul(u, Pow(h, Pow2(k)), u, Pow(h, Pow2(k)), n);
    PowAdd(h, Pow2(k), Pow2(k));
    assert Pow2(k + 1) == Pow2(k) + Pow2(k);
  }

  /** commit followed by open_commitment, and by force_open: the message comes back both ways. */
  method CommitAndOpen(gen: Keystream, c: Commiter, r: Receiver, h: nat, K: nat, m: seq<bool>)
    returns (revealed: Result<seq<bool>>, forced: Result<seq<bool>>)
    requires c.Valid() && IsKeystream(gen) && 2 <= h <= c.n - 1
    modifies c`com, r
    ensures c.Valid() && r.com == c.com == Committed(gen, c.p, c.q, h, K, m)
    ensures revealed == Ok(m) && forced == Ok(m)
  {
    var com := c.Commit(gen, h, K, m);
    r.AcceptCommitment(com);
    CommitmentOpens(gen, c.p, c.q, h, K, m);
    var p := c.Open();
    revealed := r.Open(gen, p);
    forced := r.ForceOpen(gen);
  }
}
