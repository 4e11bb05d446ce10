/**
 Encodings between integers, bytes and bits: Crypto++'s big-endian `Integer::Encode` and its
 decoding constructor, Java's `BigInteger.toByteArray`, and timed_commitment/bit_utils.cpp, which
 lists the bits of each byte least significant first.
 */
module Bytes {
  import opened NumberTheory
  import opened Outcome

  type byte = x: int | 0 <= x < 256

  // ---------------------------------------------------------------- integers and bytes

  /** Integer(data, length): big-endian. */
  function Decode(b: seq<byte>): nat
  {
    if b == [] then 0 else 256 * Decode(b[..|b| - 1]) + b[|b| - 1]
  }

  /** Integer::Encode(out, len): the low len bytes, big-endian. */
  function Encode(i: nat, len: nat): (b: seq<byte>)
    ensures |b| == len
  {
    if len == 0 then [] else Encode(i / 256, len - 1) + [i % 256]
  }

  /** Integer::MinEncodedSize: at least one byte, even for zero. */
  function MinEncodedSize(i: nat): (k: nat)
    ensures k >= 1
  {
    if i < 256 then 1 else 1 + MinEncodedSize(i / 256)
  }

  /** common::to_bytes and common::integer2string. */
  function ToBytes(i: nat): seq<byte>
  {
    Encode(i, MinEncodedSize(i))
  }

  /** Java's BigInteger.toByteArray for a non-negative value: room for a sign bit is kept. */
  function ToByteArray(i: nat): seq<byte>
  {
    Encode(i, BitCount(i) / 8 + 1)
  }

  lemma {:induction false} DecodeEncode(i: nat, len: nat)
    requires i < Pow(256, len)
    ensures Decode(Encode(i, len)) == i
  {
    if len > 0 {
      DecodeEncode(i / 256, len - 1);
      var b := Encode(i, len);
      assert b[..|b| - 1] == Encode(i / 256, len - 1);
    }
  }

  lemma {:induction false} DecodeBound(b: seq<byte>)
    ensures Decode(b) < Pow(256, |b|)
  {
    if b != [] { DecodeBound(b[..|b| - 1]); }
  }

  lemma {:induction false} EncodeDecode(b: seq<byte>)
    ensures Encode(Decode(b), |b|) == b
  {
    if b != [] {
      var front, last := b[..|b| - 1], b[|b| - 1];
      EncodeDecode(front);
      DivModUnique(Decode(b), Decode(front), last, 256);
      assert b == front + [last];
    }
  }

  lemma {:induction false} MinEncodedSizeFits(i: nat)
    ensures i < Pow(256, MinEncodedSize(i))
  {
    if i < 256 {
      assert Pow(256, 1) == 256 * Pow(256, 0);
    } else {
      MinEncodedSizeFits(i / 256);
    }
  }

  lemma {:induction false} EncodeZero(k: nat)
    requires k > 0
    ensures Encode(0, k)[0] == 0
  {
    if k > 1 { EncodeZero(k - 1); }
  }

  /** The encoding is minimal: no leading zero byte, except for zero itself. */
  lemma {:induction false} ToBytesMinimal(i: nat)
    ensures ToBytes(i) != [] && (ToBytes(i)[0] == 0 <==> i == 0) && (i == 0 ==> ToBytes(i) == [0])
  {
    if i >= 256 {
      ToBytesMinimal(i / 256);
      assert ToBytes(i) == ToBytes(i / 256) + [i % 256];
    } else {
      assert Encode(i, 0) == [] && Encode(i / 256, 0) == [];
      assert ToBytes(i) == [i % 256];
    }
  }

  /** Big-endian: the first byte weighs most. */
  lemma {:induction false} DecodeFirst(b: seq<byte>)
    requires b != []
    ensures Decode(b) == b[0] * Pow(256, |b| - 1) + Decode(b[1..])
  {
    var k := |b| - 1;
    if k > 0 {
      DecodeFirst(b[..k]);
      assert b[1..][..k - 1] == b[..k][1..];
      ShiftFirst(b[0], Pow(256, k - 1), Decode(b[..k][1..]), b[k]);
    }
  }

  lemma ShiftFirst(first: int, m: int, rest: int, last: int)
    ensures 256 * (first * m + rest) + last == first * (256 * m) + (256 * rest + last)
  {
  }

  lemma ToBytesRoundTrip(i: nat)
    ensures Decode(ToBytes(i)) == i && ToBytes(i) != []
  {
    MinEncodedSizeFits(i);
    DecodeEncode(i, MinEncodedSize(i));
  }

  lemma ToByteArrayRoundTrip(i: nat)
    ensures Decode(ToByteArray(i)) == i
  {
    var k := BitCount(i) / 8 + 1;
    BitCountBounds(i);
    PowMonotone(2, BitCount(i), 8 * k);
    PowMul(2, 8, k);
    assert Pow(2, 8) == 256;
    DecodeEncode(i, k);
  }

  lemma SevenMoreBits(k: nat)
    ensures Pow(2, 8 * k + 7) == Pow(256, k) * 128
  {
    PowAdd(2, 8 * k, 7);
    PowMul(2, 8, k);
    assert Pow(2, 8) == 256 && Pow(2, 7) == 128;
  }

  // k + 1 bytes hold n bits and a sign.
  lemma SignFits(i: nat, n: nat, k: nat)
    requires i < Pow(2, n) && n <= 8 * k + 7
    ensures i < Pow(256, k) * 128
  {
    PowMonotone(2, n, 8 * k + 7);
    SevenMoreBits(k);
  }

  // k bytes do not.
  lemma SignNeeds(i: nat, n: nat, k: nat)
    requires k > 0 && 8 * k <= n && Pow(2, n - 1) <= i
    ensures Pow(256, k - 1) * 128 <= i
  {
    PowMonotone(2, 8 * (k - 1) + 7, n - 1);
    SevenMoreBits(k - 1);
  }

  /** Java keeps room for the sign: the first byte is below 128, and no byte is wasted. */
  lemma ToByteArraySigned(i: nat)
    ensures ToByteArray(i) != [] && ToByteArray(i)[0] < 128
    ensures |ToByteArray(i)| > 1 ==> Pow(256, |ToByteArray(i)| - 2) * 128 <= i
  {
    var n, k := BitCount(i), BitCount(i) / 8;
    BitCountBounds(i);
    SignFits(i, n, k);
    FirstByteSmall(ToByteArray(i), k, i);
    if k > 0 {
      SignNeeds(i, n, k);
    }
  }

  lemma FirstByteSmall(b: seq<byte>, k: nat, i: nat)
    requires b == ToByteArray(i) && |b| == k + 1 && i < Pow(256, k) * 128
    ensures b[0] < 128
  {
    ToByteArrayRoundTrip(i);
    DecodeFirst(b);
    PowPositive(256, k);
    TopByteBelow(b[0], Pow(256, k), i);
  }

  lemma TopByteBelow(b: int, m: int, i: int)
    requires m > 0 && b * m <= i < m * 128
    ensures b < 128
  {
  }

  // ---------------------------------------------------------------- bits of one byte

  /** e & (1 << i), as a truth value. */
  predicate Bit(e: nat, i: nat)
  {
    PowPositive(2, i);
    (e / Pow(2, i)) % 2 == 1
  }

  function LowBits(e: nat, k: nat): (b: seq<bool>)
    ensures |b| == k
  {
    if k == 0 then [] else LowBits(e, k - 1) + [Bit(e, k - 1)]
  }

  function FromLowBits(b: seq<bool>): (x: nat)
    ensures x < Pow(2, |b|)
  {
    if b == [] then 0 else
      FromLowBits(b[..|b| - 1]) + (if b[|b| - 1] then Pow(2, |b| - 1) else 0)
  }

  lemma SplitTopBit(e: nat, m: nat)
    requires m > 0
    ensures e % (2 * m) == e % m + (if (e / m) % 2 == 1 then m else 0)
  {
    var a, b := e / m, e % m;
    var c, d := a / 2, a % 2;
    assert e == m * a + b && a == 2 * c + d;
    assert m * a == c * (2 * m) + m * d;
    assert m * d == (if d == 1 then m else 0);
    DivModUnique(e, c, m * d + b, 2 * m);
  }

  lemma {:induction false} AppendBit(b: seq<bool>, bit: bool)
    ensures FromLowBits(b + [bit]) == FromLowBits(b) + (if bit then Pow(2, |b|) else 0)
  {
    assert (b + [bit])[..|b|] == b;
  }

  lemma {:induction false} FromLowOfLow(e: nat, k: nat)
    ensures Pow(2, k) > 0 && FromLowBits(LowBits(e, k)) == e % Pow(2, k)
  {
    PowPositive(2, k);
    if k > 0 {
      FromLowOfLow(e, k - 1);
      var m := Pow(2, k - 1);
      assert Pow(2, k) == 2 * m;
      SplitTopBit(e, m);
      AppendBit(LowBits(e, k - 1), Bit(e, k - 1));
    }
  }

  lemma {:induction false} FromLowInjective(a: seq<bool>, b: seq<bool>)
    requires |a| == |b| && FromLowBits(a) == FromLowBits(b)
    ensures a == b
  {
    if a != [] {
      var k := |a| - 1;
      assert |a[..k]| == k && |b[..k]| == k;
      assert a[k] == b[k];
      FromLowInjective(a[..k], b[..k]);
      assert a == a[..k] + [a[k]] && b == b[..k] + [b[k]];
    }
  }

  lemma LowOfFromLow(b: seq<bool>)
    ensures LowBits(FromLowBits(b), |b|) == b
  {
    FromLowOfLow(FromLowBits(b), |b|);
    SmallMod(FromLowBits(b), Pow(2, |b|));
    FromLowInjective(LowBits(FromLowBits(b), |b|), b);
  }

  // ---------------------------------------------------------------- to_bits and from_bits

  function BitsOf(b: seq<byte>): (r: seq<bool>)
    ensures |r| == 8 * |b| && |r| % 8 == 0
  {
    if b == [] then [] else BitsOf(b[..|b| - 1]) + LowBits(b[|b| - 1], 8)
  }

  lemma {:induction false} LowBitsAt(e: nat, k: nat, j: nat)
    requires j < k
    ensures LowBits(e, k)[j] == Bit(e, j)
  {
    if j < k - 1 { LowBitsAt(e, k - 1, j); }
  }

  /** Bit 8i+j of the list is bit j of byte i, the lowest bit of a byte first. */
  lemma {:induction false} BitsAt(b: seq<byte>, i: nat, j: nat)
    requires i < |b| && j < 8
    ensures Pow(2, j) > 0 && (BitsOf(b)[8 * i + j] <==> (b[i] / Pow(2, j)) % 2 == 1)
  {
    PowPositive(2, j);
    if i == |b| - 1 {
      LowBitsAt(b[i], 8, j);
    } else {
      BitsAt(b[..|b| - 1], i, j);
    }
  }

  function ByteOf(bits: seq<bool>): byte
    requires |bits| == 8
  {
    assert Pow(2, 8) == 256;
    FromLowBits(bits)
  }

  function BytesOf(bits: seq<bool>): (r: seq<byte>)
    requires |bits| % 8 == 0
    ensures 8 * |r| == |bits|
  {
    if bits == [] then [] else BytesOf(bits[..|bits| - 8]) + [ByteOf(bits[|bits| - 8..])]
  }

  lemma {:induction false} BytesOfBitsOf(b: seq<byte>)
    ensures BytesOf(BitsOf(b)) == b
  {
    if b != [] {
      var front, last := b[..|b| - 1], b[|b| - 1];
      BytesOfBitsOf(front);
      var bits := BitsOf(b);
      assert bits[..|bits| - 8] == BitsOf(front);
      assert bits[|bits| - 8..] == LowBits(last, 8);
      FromLowOfLow(last, 8);
      assert Pow(2, 8) == 256;
      SmallMod(last, 256);
      assert b == front + [last];
    }
  }

  lemma BitsAppend(b: seq<byte>, last: byte)
    ensures BitsOf(b + [last]) == BitsOf(b) + LowBits(last, 8)
  {
    assert (b + [last])[..|b|] == b;
  }

  lemma {:induction false} BitsOfBytesOf(bits: seq<bool>)
    requires |bits| % 8 == 0
    ensures BitsOf(BytesOf(bits)) == bits
  {
    if bits != [] {
      var k := |bits| - 8;
      BitsOfBytesOf(bits[..k]);
      LowOfFromLow(bits[k..]);
      BitsAppend(BytesOf(bits[..k]), ByteOf(bits[k..]));
      assert bits == bits[..k] + bits[k..];
    }
  }

  method ToBits(cont: seq<byte>) returns (res: seq<bool>)
    ensures res == BitsOf(cont)
  {
    res := [];
    for k := 0 to |cont|
      invariant res == BitsOf(cont[..k])
    {
      var e := cont[k];
      var i := 0;
      while i < 8
        invariant 0 <= i <= 8
        invariant res == BitsOf(cont[..k]) + LowBits(e, i)
      {
        res := res + [Bit(e, i)];
        i := i + 1;
      }
      assert cont[..k + 1][..k] == cont[..k];
    }
    assert cont[..|cont|] == cont;
  }

  method FromBits(bits: seq<bool>) returns (r: Result<seq<byte>>)
    ensures r.Ok? <==> |bits| % 8 == 0
    ensures r.Ok? ==> r.value == BytesOf(bits)
  {
    var l := |bits|;
    if l % 8 != 0 {
      return Err("exception");
    }
    var res: seq<byte> := [];
    var i := 0;
    while i < l
      invariant 0 <= i <= l && i % 8 == 0
      invariant res == BytesOf(bits[..i])
    {
      var x := 0;
      var bit := 0;
      while bit < 8
        invariant 0 <= bit <= 8
        invariant x == FromLowBits(bits[i..i + bit])
      {
        assert bits[i..i + bit + 1][..bit] == bits[i..i + bit];
        if bits[i + bit] {
          x := x + Pow(2, bit);
        }
        bit := bit + 1;
      }
      assert x == ByteOf(bits[i..i + 8]);
      assert bits[..i + 8][..i] == bits[..i];
      assert bits[..i + 8][i..] == bits[i..i + 8];
      res := res + [x];
      i := i + 8;
    }
    assert bits[..l] == bits;
    return Ok(res);
  }

  /** BitUtils::integer_to_bits. */
  method IntegerToBits(i: int) returns (r: Result<seq<bool>>)
    ensures r.Ok? <==> i >= 0
    ensures r.Ok? ==> r.value == BitsOf(ToBytes(i))
  {
    if i < 0 {
      return Err("exception");
    }
    var bits := ToBits(ToBytes(i));
    return Ok(bits);
  }

  /** BitUtils::bits_to_integer. */
  function BitsToInteger(bits: seq<bool>): nat
    requires |bits| % 8 == 0
  {
    Decode(BytesOf(bits))
  }

  lemma {:induction false} BitsToIntegerDecodes(b: seq<byte>)
    ensures BitsToInteger(BitsOf(b)) == Decode(b)
  {
    BytesOfBitsOf(b);
  }

  lemma {:induction false} IntegerBitsRoundTrip(i: nat)
    ensures BitsToInteger(BitsOf(ToBytes(i))) == i
  {
    BitsToIntegerDecodes(ToBytes(i));
    ToBytesRoundTrip(i);
  }
}
