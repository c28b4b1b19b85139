/** The two scalar clamps of the agent identity code: on bytes for X25519 and on integers for
    Ed25519. Section 5 of RFC 7748 and section 5.1.5 of RFC 8032 ask for the same thing. */
module Clamp {
  import opened PyInts
  import opened Bits

  // ---------------------------------------------------------------- single bits

  /** A mask of n ones keeps the n lowest bits. */
  lemma {:induction false} AndLowMask(a: nat, n: nat)
    ensures BitAnd(a, Pow2(n) - 1) == Low(a, n)
    decreases n
  {
    if n != 0 {
      AndLowMask(a / 2, n - 1);
      assert (Pow2(n) - 1) / 2 == Pow2(n - 1) - 1;
      if a == 0 { LowZero(n); }
    }
  }

  lemma {:induction false} LowZero(n: nat)
    ensures Low(0, n) == 0
  {
    if n != 0 { LowZero(n - 1); }
  }

  lemma {:induction false} ShrZero(n: nat)
    ensures Shr(0, n) == 0
  {
    if n != 0 { ShrZero(n - 1); }
  }

  /** Setting bit n. */
  lemma {:induction false} OrBit(a: nat, n: nat)
    ensures BitOr(a, Pow2(n)) == a + (if Shr(a, n) % 2 == 0 then Pow2(n) else 0)
    decreases n
  {
    if a == 0 {
      ShrZero(n);
    } else if n != 0 {
      OrBit(a / 2, n - 1);
    }
  }

  /** Testing bit n. */
  lemma {:induction false} AndBit(a: nat, n: nat)
    ensures BitAnd(a, Pow2(n)) == if Shr(a, n) % 2 == 0 then 0 else Pow2(n)
    decreases n
  {
    if a == 0 {
      ShrZero(n);
    } else if n != 0 {
      AndBit(a / 2, n - 1);
    }
  }

  // ---------------------------------------------------------------- the two clamps

  /** `k[0] &= 248; k[31] &= 127; k[31] |= 64` on a copy of the scalar. */
  function ClampBytes(k: Bytes): (r: Bytes)
    requires |k| == 32
    ensures |r| == 32
  {
    TopByte(k[31]);
    k[0 := BitAnd(k[0], 248)][31 := BitOr(BitAnd(k[31], 127), 64)]
  }

  /** Cutting a number to n + 1 bits and setting the last of them. */
  lemma {:induction false} SetTopBit(b: nat, n: nat)
    ensures var c := Low(b, n + 1); c + (if Shr(c, n) % 2 == 0 then Pow2(n) else 0) == Pow2(n) + Low(b, n)
    decreases n
  {
    if n == 0 {
      assert Low(b, 1) == 2 * Low(b / 2, 0) + b % 2;
    } else {
      SetTopBit(b / 2, n - 1);
    }
  }

  lemma TopByteAt(b: nat, n: nat)
    ensures BitOr(BitAnd(b, Pow2(n + 1) - 1), Pow2(n)) == Pow2(n) + Low(b, n) < Pow2(n + 1)
  {
    AndLowMask(b, n + 1);
    OrBit(Low(b, n + 1), n);
    SetTopBit(b, n);
    ShrLow(b, n);
  }

  lemma TopByte(b: Byte)
    ensures BitOr(BitAnd(b, 127), 64) == 64 + Low(b, 6) < 128
  {
    assert Pow2(6) == 64 && Pow2(7) == 128;
    TopByteAt(b, 6);
  }

  /** A mask of t bits with the n lowest ones cleared. */
  lemma {:induction false} AndTopMask(a: nat, n: nat, t: nat)
    requires n <= t && a < Pow2(t)
    ensures Pow2(t) >= Pow2(n) && BitAnd(a, Pow2(t) - Pow2(n)) == a - Low(a, n)
    decreases n
  {
    if n == 0 {
      AndLowMask(a, t);
      ShrAll(a, t);
    } else {
      AndTopMask(a / 2, n - 1, t - 1);
      assert (Pow2(t) - Pow2(n)) / 2 == Pow2(t - 1) - Pow2(n - 1);
      if a == 0 { LowZero(n); }
      if Pow2(t) == Pow2(n) { assert BitAnd(a, 0) == 0; }
    }
  }

  lemma BottomByte(b: Byte)
    ensures BitAnd(b, 248) == b - b % 8
  {
    assert Pow2(3) == 8 && Pow2(8) == 256;
    AndTopMask(b, 3, 8);
    LowThree(b, b, 0);
  }

  /** `_clamp`: `value &= ~7; value &= ~(1 << 255); value |= 1 << 254`. */
  function ClampInt(value: nat): nat
  {
    BitOr(BitAndNot(BitAndNot(value, 7), Pow2(255)), Pow2(254))
  }

  /** What both clamps compute: bit 254 set, the bits 3..253 kept, the others cleared. */
  function ClampValue(v: nat): nat
  {
    8 * (Pow2(251) + Low(Shr(v, 3), 251))
  }

  /** What sections 5 of RFC 7748 and 5.1.5 of RFC 8032 ask for: bits 0, 1, 2 and 255 cleared, bit 254 set, all others
      as they were. */
  ghost predicate IsClamped(a: nat, v: nat)
  {
    a < Pow256(32) && forall i: nat | i < 256 :: Bit(a, i) == ClampedBit(i, Bit(v, i))
  }

  function ClampedBit(i: nat, bit: nat): nat
  {
    if i < 3 || i == 255 then 0 else if i == 254 then 1 else bit
  }

  lemma ClampIntBit(v: nat, i: nat, clear: nat, raise: nat)
    ensures var c := BitOr(BitAndNot(BitAndNot(v, 7), Pow2(clear)), Pow2(raise));
      Shr(c, i) % 2 == if i == raise then 1 else if i == clear || i < 3 then 0 else Shr(v, i) % 2
  {
    var w := BitAndNot(v, 7);
    OrShr(BitAndNot(w, Pow2(clear)), Pow2(raise), i);
    AndNotShr(w, Pow2(clear), i);
    AndNotShr(v, 7, i);
    PowerShr(clear, i);
    PowerShr(raise, i);
    SevenShr(i);
  }

  /** The clamped number, bit by bit. */
  lemma ClampIsBitwise(v: nat)
    requires v < Pow256(32)
    ensures IsClamped(ClampInt(v), v)
  {
    forall i: nat | i < 256 ensures Bit(ClampInt(v), i) == ClampedBit(i, Bit(v, i)) {
      BitIsShr(v, i);
      BitIsShr(ClampInt(v), i);
      ClampIntBit(v, i, 255, 254);
    }
    ClampFits(v);
  }

  lemma ClampFits(v: nat)
    requires v < Pow256(32)
    ensures ClampInt(v) < Pow256(32)
  {
    Pow256IsPow2(32);
    ClampIntIsClampValue(v);
    ClampValueRange(v);
    assert Pow2(256) == 2 * Pow2(255);
  }

  /** There is one clamped number for every number. */
  lemma ClampedIsUnique(a: nat, b: nat, v: nat)
    requires IsClamped(a, v) && IsClamped(b, v)
    ensures a == b
  {
    Pow256IsPow2(32);
    forall i: nat | i < 256 ensures Shr(a, i) % 2 == Shr(b, i) % 2 {
      BitIsShr(a, i);
      BitIsShr(b, i);
    }
    BitsDetermine(a, b, 256);
  }

  lemma Pow2Up3(e: nat)
    ensures Pow2(e + 3) == 8 * Pow2(e)
  {
    assert Pow2(e + 3) == 2 * Pow2(e + 2) && Pow2(e + 2) == 2 * Pow2(e + 1);
  }

  /** The clamped scalar is a multiple of the cofactor 8 with its top bit in place 254. */
  lemma ClampValueRange(v: nat)
    ensures ClampValue(v) % 8 == 0 && Pow2(254) <= ClampValue(v) < Pow2(255)
  {
    RangeAt(Shr(v, 3), 251);
  }

  lemma RangeAt(w: nat, e: nat)
    ensures Pow2(e + 3) <= 8 * (Pow2(e) + Low(w, e)) < Pow2(e + 4)
  {
    Pow2Up3(e);
    Pow2Up3(e + 1);
    ShrLow(w, e);
  }

  /** Clearing bit e + 1 and setting bit e of a number of e + 2 bits. */
  lemma {:induction false} ReplaceTopBits(w: nat, e: nat)
    requires w < Pow2(e + 2)
    ensures var w' := w - TopBit(w, e);
            w' >= 0 && w' + (if Shr(w', e) % 2 == 0 then Pow2(e) else 0) == Pow2(e) + Low(w, e)
    decreases e
  {
    if e == 0 {
      assert Shr(w, 1) == Shr(w / 2, 0);
      assert Pow2(1) == 2 && Pow2(2) == 4;
    } else {
      ReplaceTopBits(w / 2, e - 1);
    }
  }

  /** The integer clamp with the exponents 251, 254 and 255 replaced by e, e + 3 and e + 4. */
  lemma ClampIntAt(v: nat, e: nat)
    requires v < Pow2(e + 5)
    ensures BitOr(BitAndNot(BitAndNot(v, 7), Pow2(e + 4)), Pow2(e + 3)) == 8 * (Pow2(e) + Low(Shr(v, 3), e))
  {
    var w := Shr(v, 3);
    ClearLowThree(v, e);
    ClearTopBit(w, e);
    ReplaceTopBits(w, e);
    RaiseTopBit(w - TopBit(w, e), e);
  }

  function TopBit(w: nat, e: nat): nat
  {
    if Shr(w, e + 1) % 2 == 0 then 0 else Pow2(e + 1)
  }

  lemma ClearTopBit(w: nat, e: nat)
    ensures BitAndNot(8 * w, Pow2(e + 4)) == 8 * (w - TopBit(w, e))
  {
    Pow2Up3(e + 1);
    ShrThree(w, e + 1);
    AndBit(8 * w, e + 4);
  }

  lemma RaiseTopBit(w: nat, e: nat)
    ensures BitOr(8 * w, Pow2(e + 3)) == 8 * (w + (if Shr(w, e) % 2 == 0 then Pow2(e) else 0))
  {
    Pow2Up3(e);
    ShrThree(w, e);
    OrBit(8 * w, e + 3);
  }

  lemma ClearLowThree(v: nat, e: nat)
    requires v < Pow2(e + 5)
    ensures BitAndNot(v, 7) == 8 * Shr(v, 3) && Shr(v, 3) < Pow2(e + 2)
  {
    assert Pow2(3) == 8;
    Pow2Up3(e + 2);
    AndLowMask(v, 3);
    ShrLow(v, 3);
  }

  lemma ShrThree(w: nat, n: nat)
    ensures Shr(8 * w, n + 3) == Shr(w, n)
  {
    assert Shr(8 * w, n + 3) == Shr(4 * w, n + 2);
    assert Shr(4 * w, n + 2) == Shr(2 * w, n + 1);
  }

  lemma ClampIntIsClampValue(v: nat)
    requires v < Pow2(256)
    ensures ClampInt(v) == ClampValue(v)
  {
    ClampIntAt(v, 251);
  }

  /** Masking the last byte of a little-endian number to 6 bits and setting the next one. */
  lemma {:induction false} TopOfNumber(k: Bytes, n: nat, top: Byte)
    requires |k| == n + 1 && top == 64 + Low(k[n], 6)
    ensures FromLE(k[n := top]) == Pow2(8 * n + 6) + Low(FromLE(k), 8 * n + 6)
    decreases n
  {
    var k' := k[n := top];
    var t := k[1..];
    if n == 0 {
      assert t == [] && k'[1..] == [];
      assert FromLE(k) == k[0] && FromLE(k') == top;
      assert Pow2(6) == 64;
    } else {
      TopOfNumber(t, n - 1, top);
      TailOfUpdate(k, n, top);
      PrependByte(k[0], FromLE(t), 8 * n - 2);
    }
  }

  lemma TailOfUpdate(k: Bytes, n: nat, top: Byte)
    requires 0 < n < |k|
    ensures k[n := top][1..] == k[1..][n - 1 := top] && k[n := top][0] == k[0]
  {
  }

  lemma PrependByte(b: Byte, t: nat, e: nat)
    ensures Pow2(e + 8) + Low(b + 256 * t, e + 8) == b + 256 * (Pow2(e) + Low(t, e))
  {
    var v := b + 256 * t;
    assert Pow2(8) == 256;
    ShrLow(v, 8);
    ByteSplit(b, t, Shr(v, 8), Low(v, 8));
    LowSplit(v, 8, e);
    Pow2Up3(e);
    Pow2Up3(e + 3);
    assert Pow2(e + 8) == 2 * Pow2(e + 7);
  }

  lemma ByteSplit(b: nat, t: nat, q: nat, r: nat)
    requires b < 256 && r < 256 && b + 256 * t == 256 * q + r
    ensures b == r && t == q
  {
  }

  lemma ClampBytesAt(k: Bytes, n: nat)
    requires |k| == 32 && n == 31
    ensures FromLE(ClampBytes(k)) == 8 * (Pow2(8 * n + 3) + Low(Shr(FromLE(k), 3), 8 * n + 3))
  {
    TopByte(k[31]);
    BottomByte(k[0]);
    var top: Byte := 64 + Low(k[n], 6);
    TopOfNumber(k, n, top);
    var k' := k[n := top];
    assert ClampBytes(k)[1..] == k'[1..];
    BottomOfNumber(FromLE(k), k[0], FromLE(k[1..]), 8 * n + 3);
  }

  lemma ClampBytesIsClampValue(k: Bytes)
    requires |k| == 32
    ensures FromLE(ClampBytes(k)) == ClampValue(FromLE(k))
  {
    ClampBytesAt(k, 31);
  }

  lemma BottomOfNumber(v: nat, b: Byte, t: nat, e: nat)
    requires v == b + 256 * t
    ensures Pow2(e + 3) + Low(v, 3 + e) - b % 8 == 8 * (Pow2(e) + Low(Shr(v, 3), e))
  {
    Pow2Up3(e);
    LowSplit(v, 3, e);
    LowThree(v, b, t);
    assert Pow2(3) == 8;
  }

  lemma LowThree(v: nat, b: nat, t: nat)
    requires v == b + 256 * t
    ensures Low(v, 3) == b % 8
  {
    ShrLow(v, 3);
    assert Pow2(3) == 8;
    RemainderOfSum(v, Shr(v, 3), Low(v, 3), b, t);
  }

  lemma RemainderOfSum(v: int, q: int, r: int, b: int, t: int)
    requires v == 8 * q + r && 0 <= r < 8 && v == b + 256 * t
    ensures r == b % 8
  {
    assert b == 8 * (q - 32 * t) + r;
  }

  /** The byte clamp and the integer clamp agree on every 32-byte scalar. */
  lemma ClampsAgree(k: Bytes)
    requires |k| == 32
    ensures FromLE(ClampBytes(k)) == ClampInt(FromLE(k))
  {
    FromLEBound(k);
    BoundInBits(FromLE(k), 32);
    ClampBytesIsClampValue(k);
    ClampIntIsClampValue(FromLE(k));
  }

  lemma BoundInBits(v: nat, n: nat)
    requires v < Pow256(n)
    ensures v < Pow2(8 * n)
  {
    Pow256IsPow2(n);
  }

  lemma {:induction false} Pow256IsPow2(n: nat)
    ensures Pow256(n) == Pow2(8 * n)
  {
    if n != 0 {
      Pow256IsPow2(n - 1);
      Pow2Up3(8 * n - 3);
      Pow2Up3(8 * n - 6);
      assert Pow2(8 * n - 6) == 2 * Pow2(8 * n - 7);
    }
  }
}
