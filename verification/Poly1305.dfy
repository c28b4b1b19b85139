/** The one-time authenticator `_poly1305_mac` (section 2.5 of RFC 8439). */
module Poly1305 {
  import opened PyInts
  import opened ModArith

  /** 2^130 - 5 */
  const P: int := 0x3_ffff_ffff_ffff_ffff_ffff_ffff_ffff_fffb
  const R_MASK: nat := 0x0ffffffc_0ffffffc_0ffffffc_0fffffff
  const TWO_128: nat := 0x1_0000_0000_0000_0000_0000_0000_0000_0000

  /** The coefficients: each 16-byte block, the last one possibly shorter, with a 1 byte appended. */
  function Coefficients(message: Bytes): (cs: seq<nat>)
    decreases |message|
  {
    if message == [] then []
    else [Coefficient(message)] + Coefficients(Rest(message))
  }

  function Coefficient(message: Bytes): nat
  {
    FromLE(Slice(message, 0, 16) + [1])
  }

  function Rest(message: Bytes): (r: Bytes)
    ensures message != [] ==> |r| < |message|
  {
    if |message| <= 16 then [] else message[16..]
  }

  /** The polynomial c_1 r^n + c_2 r^(n-1) + ... + c_n r. */
  function Polynomial(cs: seq<nat>, r: nat): int
  {
    if cs == [] then 0 else cs[0] * Pow(r, |cs|) + Polynomial(cs[1..], r)
  }

  /** Horner's rule from an accumulator: the form the loop computes. */
  function Horner(acc: nat, cs: seq<nat>, r: nat): (h: nat)
    ensures cs != [] ==> h < P
    decreases |cs|
  {
    if cs == [] then acc
    else Horner(HornerRound(acc, cs[0], r), cs[1..], r)
  }

  /** `(acc + n) * r % p` */
  function HornerRound(acc: nat, n: nat, r: nat): (h: nat)
    ensures h < P
  {
    MulNonNegative(acc + n, r);
    ((acc + n) * r) % P
  }

  lemma MulNonNegative(a: nat, b: nat)
    ensures a * b >= 0
  {
  }

  /** Horner's rule evaluates the polynomial. */
  lemma {:induction false} HornerIsPolynomial(acc: nat, cs: seq<nat>, r: nat)
    ensures Cong(Horner(acc, cs, r), acc * Pow(r, |cs|) + Polynomial(cs, r), P)
    decreases |cs|
  {
    if cs == [] {
      TimesOne(acc);
      CongRefl(acc, P);
    } else {
      var next := HornerRound(acc, cs[0], r);
      HornerIsPolynomial(next, cs[1..], r);
      RoundIsPolynomial(Horner(acc, cs, r), next, acc, cs[0], r, Pow(r, |cs| - 1), Polynomial(cs[1..], r), P);
    }
  }

  lemma TimesOne(a: int)
    ensures a * 1 == a
  {
  }

  /** One round in front of a polynomial multiplies by r once more. */
  lemma RoundIsPolynomial(h: int, next: int, acc: int, c: int, r: int, t: int, rest: int, p: int)
    requires p > 0 && next == ((acc + c) * r) % p && Cong(h, next * t + rest, p)
    ensures Cong(h, acc * (r * t) + (c * (r * t) + rest), p)
  {
    var n := (acc + c) * r;
    CongMod(n, p);
    CongRefl(t, p);
    CongMul(next, n, t, t, p);
    CongRefl(rest, p);
    CongAdd(next * t, n * t, rest, rest, p);
    CongTrans(h, next * t + rest, n * t + rest, p);
    Distribute(acc, c, r, t);
  }

  lemma Distribute(a: int, c: int, r: int, t: int)
    ensures ((a + c) * r) * t == a * (r * t) + c * (r * t)
  {
  }

  /** r: the first half of the key, masked. */
  function ClampedR(key: Bytes): nat
  {
    BitAnd(FromLE(Slice(key, 0, 16)), R_MASK)
  }

  function TagValue(message: Bytes, key: Bytes): (v: nat)
    ensures v < TWO_128
  {
    (Horner(0, Coefficients(message), ClampedR(key)) + FromLE(Slice(key, 16, 32))) % TWO_128
  }

  lemma TagFits()
    ensures TWO_128 == Pow256(16)
  {
    assert Pow256(8) == 0x1_0000_0000_0000_0000;
  }

  function Mac(message: Bytes, key: Bytes): (tag: Bytes)
    ensures |tag| == 16
  {
    Tag(TagValue(message, key))
  }

  /** `v.to_bytes(16, "little")` */
  function Tag(v: nat): (tag: Bytes)
    requires v < TWO_128
    ensures |tag| == 16 && FromLE(tag) == v
  {
    TagFits();
    FromToLE(v, 16);
    ToLE(v, 16)
  }

  lemma HornerFrom(zero: nat, cs: seq<nat>, r: nat)
    requires zero == 0
    ensures Horner(zero, cs, r) == Polynomial(cs, r) % P
  {
    HornerIsPolynomial(zero, cs, r);
    TimesZero(zero, Pow(r, |cs|));
    ReducedCong(Horner(zero, cs, r), Polynomial(cs, r), P);
  }

  lemma ReducedCong(a: int, b: int, p: int)
    requires 0 <= a < p && Cong(a, b, p)
    ensures a == b % p
  {
    CongModEq(a, b, p);
  }

  lemma TimesZero(zero: int, x: int)
    requires zero == 0
    ensures zero * x == 0
  {
  }

  /** The tag is the polynomial in the clamped r modulo 2^130 - 5, plus s, modulo 2^128. */
  lemma MacIsPolynomial(message: Bytes, key: Bytes)
    ensures FromLE(Mac(message, key))
         == (Polynomial(Coefficients(message), ClampedR(key)) % P + FromLE(Slice(key, 16, 32))) % TWO_128
  {
    HornerFrom(0, Coefficients(message), ClampedR(key));
  }

  // ---------------------------------------------------------------- the clamp of r

  /** Bitwise and splits at every bit position. */
  lemma {:induction false} AndSplit(a: nat, b: nat, n: nat)
    ensures BitAnd(a, b) == BitAnd(Low(a, n), Low(b, n)) + Pow2(n) * BitAnd(Shr(a, n), Shr(b, n))
    decreases n
  {
    if n != 0 {
      AndSplit(a / 2, b / 2, n - 1);
      Assoc2(Pow2(n - 1), BitAnd(Shr(a, n), Shr(b, n)));
      AndUnfold(a, b);
      AndUnfold(Low(a, n), Low(b, n));
      LowHalves(a, n);
      LowHalves(b, n);
    }
  }

  lemma LowHalves(a: nat, n: nat)
    requires n > 0
    ensures Low(a, n) / 2 == Low(a / 2, n - 1) && Low(a, n) % 2 == a % 2 && Shr(a, n) == Shr(a / 2, n - 1)
  {
  }

  lemma AndUnfold(a: nat, b: nat)
    ensures BitAnd(a, b) == 2 * BitAnd(a / 2, b / 2) + (if a % 2 == 1 && b % 2 == 1 then 1 else 0)
  {
    if b == 0 { assert BitAnd(a / 2, 0) == 0; }
  }

  function AndBytes(k: Bytes, m: Bytes): Bytes
    requires |k| == |m|
  {
    seq(|k|, i requires 0 <= i < |k| => BitAnd(k[i], m[i]))
  }

  lemma AndBytesCons(k: Bytes, m: Bytes)
    requires |k| == |m| && k != []
    ensures FromLE(AndBytes(k, m)) == BitAnd(k[0], m[0]) + 256 * FromLE(AndBytes(k[1..], m[1..]))
  {
    assert AndBytes(k, m)[1..] == AndBytes(k[1..], m[1..]);
  }

  lemma {:induction false} AndBytewise(k: Bytes, m: Bytes)
    requires |k| == |m|
    ensures FromLE(AndBytes(k, m)) == BitAnd(FromLE(k), FromLE(m))
  {
    if k != [] {
      AndBytesCons(k, m);
      AndBytewise(k[1..], m[1..]);
      AndOnBytes(k[0], FromLE(k[1..]), m[0], FromLE(m[1..]));
    }
  }

  lemma AndOnBytes(a: Byte, s: nat, b: Byte, t: nat)
    ensures BitAnd(a + 256 * s, b + 256 * t) == BitAnd(a, b) + 256 * BitAnd(s, t)
  {
    SplitByte(a, s);
    SplitByte(b, t);
    AndAtEight(a + 256 * s, b + 256 * t);
  }

  lemma AndAtEight(x: nat, y: nat)
    ensures BitAnd(x, y) == BitAnd(Low(x, 8), Low(y, 8)) + 256 * BitAnd(Shr(x, 8), Shr(y, 8))
  {
    AndSplit(x, y, 8);
    assert Pow2(8) == 256;
  }

  lemma SplitByte(a: Byte, s: nat)
    ensures Low(a + 256 * s, 8) == a && Shr(a + 256 * s, 8) == s
  {
    ShrLow(a + 256 * s, 8);
    assert Pow2(8) == 256;
  }

  /** The mask of section 2.5 of RFC 8439: the bytes 3, 7, 11, 15 lose their top four bits and the
      bytes 4, 8, 12 their two lowest bits. */
  const R_MASK_BYTES: Bytes := seq(16, i requires 0 <= i < 16 => MaskByte(i))

  function MaskByte(i: nat): Byte
  {
    if i % 4 == 3 then 15 else if i % 4 == 0 && i > 0 then 252 else 255
  }

  lemma ClampOfR(key: Bytes)
    requires |key| >= 16
    ensures ClampedR(key) == FromLE(AndBytes(key[..16], R_MASK_BYTES))
  {
    MaskValue(R_MASK_BYTES);
    AndBytewise(key[..16], R_MASK_BYTES);
    FirstHalf(key);
  }

  lemma FirstHalf(key: Bytes)
    requires |key| >= 16
    ensures Slice(key, 0, 16) == key[..16]
  {
  }

  lemma MaskValue(m: Bytes)
    requires |m| == 16 && forall i | 0 <= i < 16 :: m[i] == MaskByte(i)
    ensures FromLE(m) == R_MASK
  {
    Word(m, 255, 255, 255, 15);
    MaskTail(m[4..], 3);
  }

  /** The mask words after the first are all alike. */
  lemma MaskTail(m: Bytes, words: nat)
    requires words <= 3 && |m| == 4 * words
    requires forall i | 0 <= i < |m| :: m[i] == (if i % 4 == 0 then 252 else if i % 4 == 3 then 15 else 255)
    ensures FromLE(m) == if words == 0 then 0 else if words == 1 then 0x0ffffffc else if words == 2
      then 0x0ffffffc_0ffffffc else 0x0ffffffc_0ffffffc_0ffffffc
  {
    if words > 0 {
      Word(m, 252, 255, 255, 15);
      MaskTail(m[4..], words - 1);
    }
  }

  lemma Word(m: Bytes, a: Byte, b: Byte, c: Byte, d: Byte)
    requires |m| >= 4 && m[0] == a && m[1] == b && m[2] == c && m[3] == d
    ensures FromLE(m) == a + 256 * b + 0x1_0000 * c + 0x100_0000 * d + 0x1_0000_0000 * FromLE(m[4..])
  {
    FromLECons(m[0], m[1..]);
    FromLECons(m[1], m[2..]);
    FromLECons(m[2], m[3..]);
    FromLECons(m[3], m[4..]);
    assert m == [m[0]] + m[1..] && m[1..] == [m[1]] + m[2..] && m[2..] == [m[2]] + m[3..] && m[3..] == [m[3]] + m[4..];
  }

  lemma FromLECons(a: Byte, t: Bytes)
    ensures FromLE([a] + t) == a + 256 * FromLE(t)
  {
    assert ([a] + t)[1..] == t;
  }

  // ---------------------------------------------------------------- message splitting

  lemma FirstBlock(a: Bytes, b: Bytes)
    requires |a| >= 16
    ensures Rest(a + b) == Rest(a) + b && Slice(a + b, 0, 16) == Slice(a, 0, 16)
  {
  }

  lemma PrependConcat(c: nat, x: seq<nat>, y: seq<nat>)
    ensures [c] + (x + y) == ([c] + x) + y
  {
  }

  /** Splitting at a 16-byte boundary splits the coefficients. */
  lemma {:induction false} CoefficientsConcat(a: Bytes, b: Bytes, blocks: nat)
    requires |a| == 16 * blocks
    ensures Coefficients(a + b) == Coefficients(a) + Coefficients(b)
    decreases blocks
  {
    if blocks == 0 {
      assert a + b == b;
      assert Coefficients(a) == [];
    } else {
      FirstBlock(a, b);
      CoefficientsConcat(Rest(a), b, blocks - 1);
      PrependConcat(Coefficient(a), Coefficients(Rest(a)), Coefficients(b));
    }
  }

  lemma {:induction false} HornerConcat(acc: nat, a: seq<nat>, b: seq<nat>, r: nat)
    ensures Horner(acc, a + b, r) == Horner(Horner(acc, a, r), b, r)
    decreases |a|
  {
    if a == [] {
      assert a + b == b;
    } else {
      MulNonNegative(acc + a[0], r);
      HornerConcat(((acc + a[0]) * r) % P, a[1..], b, r);
      assert (a + b)[1..] == a[1..] + b;
    }
  }

  /** At a 16-byte boundary, processing a concatenation is processing the parts in turn. */
  lemma ProcessInTurn(acc: nat, a: Bytes, b: Bytes, r: nat)
    requires |a| % 16 == 0
    ensures Horner(acc, Coefficients(a + b), r) == Horner(Horner(acc, Coefficients(a), r), Coefficients(b), r)
  {
    CoefficientsConcat(a, b, |a| / 16);
    HornerConcat(acc, Coefficients(a), Coefficients(b), r);
  }

  /** The loop of `_poly1305_mac`. */
  method HornerLoop(message: Bytes, r: nat) returns (acc: nat)
    ensures acc == Horner(0, Coefficients(message), r)
  {
    acc := 0;
    var index := 0;
    while index < |message|
      invariant 0 <= index
      invariant Horner(acc, Coefficients(From(message, index)), r) == Horner(0, Coefficients(message), r)
    {
      HornerStep(acc, message, index, r);
      var block := Slice(message, index, index + 16);
      var n := FromLE(block + [1]);
      acc := HornerRound(acc, n, r);
      index := index + 16;
    }
  }

  /** `_poly1305_mac` */
  method Poly1305Mac(message: Bytes, key: Bytes) returns (tag: Bytes)
    ensures tag == Mac(message, key)
  {
    var r := FromLE(Slice(key, 0, 16));
    r := BitAnd(r, R_MASK);
    var s := FromLE(Slice(key, 16, 32));
    var acc := HornerLoop(message, r);
    tag := Tag((acc + s) % TWO_128);
  }

  /** One round of the loop takes the first coefficient of what is left. */
  lemma HornerStep(acc: nat, message: Bytes, index: nat, r: nat)
    requires index < |message|
    ensures var n := FromLE(Slice(message, index, index + 16) + [1]);
      Horner(acc, Coefficients(From(message, index)), r)
        == Horner(HornerRound(acc, n, r), Coefficients(From(message, index + 16)), r)
  {
    var rest := From(message, index);
    assert Slice(message, index, index + 16) == Slice(rest, 0, 16);
    assert Rest(rest) == From(message, index + 16);
    var n := FromLE(Slice(rest, 0, 16) + [1]);
    assert Coefficients(rest)[1..] == Coefficients(Rest(rest));
  }

  ghost function From(message: Bytes, index: nat): Bytes
  {
    if |message| <= index then [] else message[index..]
  }

  // ---------------------------------------------------------------- the coefficients

  /** The i-th block of 16 bytes; the last one may be shorter. */
  function BlockOf(message: Bytes, i: nat): Bytes
    requires 16 * i <= |message|
  {
    if |message| <= 16 * i + 16 then message[16 * i..] else message[16 * i..16 * i + 16]
  }

  /** One number for each block: the block, little-endian, and a one behind it. */
  ghost predicate AreCoefficients(cs: seq<nat>, message: Bytes)
  {
    && |cs| == (|message| + 15) / 16
    && forall i: nat | i < |cs| :: cs[i] == FromLE(BlockOf(message, i)) + Pow256(|BlockOf(message, i)|)
  }

  lemma {:induction false} OneBehind(bs: Bytes)
    ensures FromLE(bs + [1]) == FromLE(bs) + Pow256(|bs|)
  {
    if bs == [] {
      assert bs + [1] == [1] && [1][1..] == [];
    } else {
      OneBehind(bs[1..]);
      assert (bs + [1])[1..] == bs[1..] + [1];
    }
  }

  lemma FirstCoefficient(message: Bytes)
    requires message != []
    ensures Coefficient(message) == FromLE(BlockOf(message, 0)) + Pow256(|BlockOf(message, 0)|)
  {
    assert Slice(message, 0, 16) == BlockOf(message, 0);
    OneBehind(BlockOf(message, 0));
  }

  lemma LaterBlock(message: Bytes, i: nat)
    requires message != [] && 16 * i <= |Rest(message)| && Rest(message) != []
    ensures BlockOf(message, i + 1) == BlockOf(Rest(message), i)
  {
  }

  lemma {:induction false} CoefficientCount(message: Bytes)
    ensures |Coefficients(message)| == (|message| + 15) / 16
    decreases |message|
  {
    if message != [] { CoefficientCount(Rest(message)); }
  }

  lemma {:induction false} CoefficientAt(message: Bytes, i: nat)
    requires 16 * i < |message|
    ensures i < |Coefficients(message)|
      && Coefficients(message)[i] == FromLE(BlockOf(message, i)) + Pow256(|BlockOf(message, i)|)
    decreases i
  {
    if i == 0 {
      FirstCoefficient(message);
    } else {
      CoefficientAt(Rest(message), i - 1);
      LaterBlock(message, i - 1);
    }
  }

  lemma CoefficientsAre(message: Bytes)
    ensures AreCoefficients(Coefficients(message), message)
  {
    var cs := Coefficients(message);
    CoefficientCount(message);
    forall i: nat | i < |cs| ensures cs[i] == FromLE(BlockOf(message, i)) + Pow256(|BlockOf(message, i)|) {
      CoefficientAt(message, i);
    }
  }

  lemma SecondHalf(key: Bytes)
    requires |key| == 32
    ensures Slice(key, 16, 32) == key[16..]
  {
  }

  lemma CoefficientsUnique(cs: seq<nat>, message: Bytes)
    requires AreCoefficients(cs, message)
    ensures cs == Coefficients(message)
  {
    CoefficientsAre(message);
  }

  lemma MacWith(message: Bytes, key: Bytes, cs: seq<nat>, r: nat, t: nat)
    requires cs == Coefficients(message) && r == ClampedR(key) && t == FromLE(Slice(key, 16, 32))
    ensures FromLE(Mac(message, key)) == (Polynomial(cs, r) % P + t) % TWO_128
  {
    MacIsPolynomial(message, key);
  }

  /** The tag, from the blocks of the message, the masked first half of the key and its second half. */
  lemma MacIs(message: Bytes, key: Bytes, cs: seq<nat>, r: nat)
    requires |key| == 32 && AreCoefficients(cs, message) && r == FromLE(AndBytes(key[..16], R_MASK_BYTES))
    ensures FromLE(Mac(message, key)) == (Polynomial(cs, r) % P + FromLE(key[16..])) % TWO_128
  {
    CoefficientsUnique(cs, message);
    ClampOfR(key);
    SecondHalf(key);
    MacWith(message, key, cs, r, FromLE(key[16..]));
  }
}
