/** Python's operations on non-negative integers and on `bytes`, as far as the cryptographic
    code uses them: unbounded bitwise operators, shifts, slices with clamped ends, and the
    little-endian conversions `int.from_bytes` / `int.to_bytes`. */
module PyInts {
  type Byte = b: int | 0 <= b < 256 witness 0
  type Bytes = seq<Byte>

  function Pow2(n: nat): (r: nat)
    ensures r > 0
  {
    if n == 0 then 1 else 2 * Pow2(n - 1)
  }

  /** `a >> n`. */
  function Shr(a: nat, n: nat): nat
  {
    if n == 0 then a else Shr(a / 2, n - 1)
  }

  /** The n lowest bits of a. */
  function Low(a: nat, n: nat): nat
  {
    if n == 0 then 0 else 2 * Low(a / 2, n - 1) + a % 2
  }

  /** Shifting is division with remainder by a power of two. */
  lemma {:induction false} ShrLow(a: nat, n: nat)
    ensures a == Pow2(n) * Shr(a, n) + Low(a, n)
    ensures Low(a, n) < Pow2(n)
  {
    if n != 0 {
      ShrLow(a / 2, n - 1);
      Assoc2(Pow2(n - 1), Shr(a / 2, n - 1));
    }
  }

  lemma Assoc2(h: int, m: int)
    ensures (2 * h) * m == 2 * (h * m)
  {
  }

  lemma {:induction false} ShrNext(a: nat, n: nat)
    ensures Shr(a, n + 1) == Shr(a, n) / 2
  {
    if n != 0 {
      ShrNext(a / 2, n - 1);
    }
  }

  lemma {:induction false} ShrAll(a: nat, n: nat)
    requires a < Pow2(n)
    ensures Shr(a, n) == 0 && Low(a, n) == a
    decreases n
  {
    if n != 0 {
      ShrAll(a / 2, n - 1);
    }
  }

  lemma {:induction false} LowSplit(a: nat, m: nat, n: nat)
    ensures Low(a, m + n) == Low(a, m) + Pow2(m) * Low(Shr(a, m), n)
    decreases m
  {
    if m != 0 {
      LowSplit(a / 2, m - 1, n);
      Assoc2(Pow2(m - 1), Low(Shr(a, m), n));
    }
  }

  // ---------------------------------------------------------------- bitwise operators

  /** `a & b` on non-negative integers. */
  function BitAnd(a: nat, b: nat): (r: nat)
    ensures r <= a && r <= b
    decreases a
  {
    if a == 0 || b == 0 then 0
    else 2 * BitAnd(a / 2, b / 2) + (if a % 2 == 1 && b % 2 == 1 then 1 else 0)
  }

  /** `a | b` on non-negative integers. */
  function BitOr(a: nat, b: nat): (r: nat)
    decreases a + b
  {
    if a == 0 then b
    else if b == 0 then a
    else 2 * BitOr(a / 2, b / 2) + (if a % 2 == 1 || b % 2 == 1 then 1 else 0)
  }

  /** `a ^ b` on non-negative integers. */
  function BitXor(a: nat, b: nat): (r: nat)
    decreases a + b
  {
    if a == 0 then b
    else if b == 0 then a
    else 2 * BitXor(a / 2, b / 2) + (if a % 2 == b % 2 then 0 else 1)
  }

  /** `a & ~b` on non-negative integers. */
  function BitAndNot(a: nat, b: nat): nat
  {
    a - BitAnd(a, b)
  }

  lemma {:induction false} XorBounded(a: nat, b: nat, n: nat)
    requires a < Pow2(n) && b < Pow2(n)
    ensures BitXor(a, b) < Pow2(n)
    decreases n
  {
    if a != 0 && b != 0 {
      XorBounded(a / 2, b / 2, n - 1);
    }
  }

  /** Xor-ing the same value twice gives the first operand back. */
  lemma {:induction false} XorCancel(a: nat, b: nat)
    ensures BitXor(BitXor(a, b), b) == a
    decreases a + b
  {
    if a == 0 || b == 0 {
      XorSelf(b);
    } else {
      XorCancel(a / 2, b / 2);
      var x := BitXor(a, b);
      assert x / 2 == BitXor(a / 2, b / 2);
      if x == 0 {
        assert BitXor(0, b / 2) == b / 2 == a / 2;
        assert a % 2 == b % 2;
      }
    }
  }

  lemma {:induction false} XorSelf(a: nat)
    ensures BitXor(a, a) == 0
  {
    if a != 0 {
      XorSelf(a / 2);
    }
  }

  lemma {:induction false} XorZeroIff(a: nat, b: nat)
    ensures BitXor(a, b) == 0 <==> a == b
    decreases a + b
  {
    if a != 0 && b != 0 {
      XorZeroIff(a / 2, b / 2);
    }
  }

  lemma {:induction false} OrZeroIff(a: nat, b: nat)
    ensures BitOr(a, b) == 0 <==> a == 0 && b == 0
    decreases a + b
  {
    if a != 0 && b != 0 {
      OrZeroIff(a / 2, b / 2);
    }
  }

  // ---------------------------------------------------------------- bytes

  /** `s[lo:hi]` for 0 <= lo <= hi: the ends are clamped to the length. */
  function Slice<T>(s: seq<T>, lo: nat, hi: nat): (r: seq<T>)
    requires lo <= hi
  {
    if |s| <= lo then [] else if |s| <= hi then s[lo..] else s[lo..hi]
  }

  /** `int.from_bytes(bs, "little")`. */
  function FromLE(bs: Bytes): (n: nat)
  {
    if bs == [] then 0 else bs[0] + 256 * FromLE(bs[1..])
  }

  function Pow256(n: nat): (r: nat)
    ensures r > 0
  {
    if n == 0 then 1 else 256 * Pow256(n - 1)
  }

  /** `v.to_bytes(n, "little")`; Python raises OverflowError when the value does not fit. */
  function ToLE(v: nat, n: nat): (bs: Bytes)
    requires v < Pow256(n)
    ensures |bs| == n
    decreases v, n
  {
    if n == 0 then [] else [v % 256] + ToLE(v / 256, n - 1)
  }

  lemma {:induction false} FromLEBound(bs: Bytes)
    ensures FromLE(bs) < Pow256(|bs|)
  {
    if bs != [] {
      FromLEBound(bs[1..]);
    }
  }

  lemma {:induction false} FromToLE(v: nat, n: nat)
    requires v < Pow256(n)
    ensures FromLE(ToLE(v, n)) == v
    decreases n
  {
    if n != 0 {
      FromToLE(v / 256, n - 1);
      assert ToLE(v, n)[1..] == ToLE(v / 256, n - 1);
    }
  }

  lemma {:induction false} ToFromLE(bs: Bytes)
    ensures FromLE(bs) < Pow256(|bs|)
    ensures ToLE(FromLE(bs), |bs|) == bs
  {
    FromLEBound(bs);
    if bs != [] {
      ToFromLE(bs[1..]);
      assert FromLE(bs) % 256 == bs[0] && FromLE(bs) / 256 == FromLE(bs[1..]);
    }
  }
}
