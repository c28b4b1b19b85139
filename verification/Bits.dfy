/** What shifts and the bitwise operators are in terms of quotients and single bits. */
module Bits {
  import opened PyInts

  /** Bit i of a number. */
  function Bit(a: nat, i: nat): nat
  {
    (a / Pow2(i)) % 2
  }

  lemma AtLeast(m: nat, k: nat)
    requires k > 0
    ensures m * k >= m
  {
  }

  lemma Scaled(m: int, a: int, b: int)
    ensures m * (a - b) == m * a - m * b
  {
  }

  lemma NotLess(m: nat, q: int, r: int, q': int, r': int)
    requires m > 0 && m * q + r == m * q' + r' && 0 <= r < m && 0 <= r' < m
    ensures q' <= q
  {
    if q < q' {
      Scaled(m, q', q);
      AtLeast(m, q' - q);
    }
  }

  lemma Quotient(a: nat, m: nat, q: nat, r: nat)
    requires m > 0 && a == m * q + r && r < m
    ensures a / m == q && a % m == r
  {
    NotLess(m, q, r, a / m, a % m);
    NotLess(m, a / m, a % m, q, r);
  }

  lemma ShrIsDivision(a: nat, i: nat)
    ensures Shr(a, i) == a / Pow2(i) && Low(a, i) == a % Pow2(i)
  {
    ShrLow(a, i);
    Quotient(a, Pow2(i), Shr(a, i), Low(a, i));
  }

  lemma XorHalves(a: nat, b: nat)
    ensures BitXor(a, b) / 2 == BitXor(a / 2, b / 2) && BitXor(a, b) % 2 == (if a % 2 == b % 2 then 0 else 1)
  {
    if a == 0 {
      assert BitXor(a, b) == b && BitXor(a / 2, b / 2) == b / 2;
    } else if b == 0 {
      assert BitXor(a, b) == a && BitXor(a / 2, b / 2) == a / 2;
    }
  }

  lemma {:induction false} XorShr(a: nat, b: nat, i: nat)
    ensures Shr(BitXor(a, b), i) % 2 == if Shr(a, i) % 2 == Shr(b, i) % 2 then 0 else 1
    decreases i
  {
    XorHalves(a, b);
    if i > 0 { XorShr(a / 2, b / 2, i - 1); }
  }

  /** `^` has exactly the bits in which its operands differ. */
  lemma XorIsBitwise(a: nat, b: nat, i: nat)
    ensures Bit(BitXor(a, b), i) == if Bit(a, i) == Bit(b, i) then 0 else 1
  {
    XorShr(a, b, i);
    ShrIsDivision(a, i);
    ShrIsDivision(b, i);
    ShrIsDivision(BitXor(a, b), i);
  }

  lemma {:induction false} AndShr(a: nat, b: nat, i: nat)
    ensures Shr(BitAnd(a, b), i) % 2 == if Shr(a, i) % 2 == 1 && Shr(b, i) % 2 == 1 then 1 else 0
    decreases i
  {
    AndHalves(a, b);
    if i > 0 { AndShr(a / 2, b / 2, i - 1); }
  }

  lemma AndHalves(a: nat, b: nat)
    ensures BitAnd(a, b) / 2 == BitAnd(a / 2, b / 2)
    ensures BitAnd(a, b) % 2 == if a % 2 == 1 && b % 2 == 1 then 1 else 0
  {
    if a == 0 || b == 0 {
      assert BitAnd(a, b) == 0 && BitAnd(a / 2, b / 2) == 0;
    }
  }

  lemma {:induction false} OrShr(a: nat, b: nat, i: nat)
    ensures Shr(BitOr(a, b), i) % 2 == if Shr(a, i) % 2 == 1 || Shr(b, i) % 2 == 1 then 1 else 0
    decreases i
  {
    OrHalves(a, b);
    if i > 0 { OrShr(a / 2, b / 2, i - 1); }
  }

  lemma OrHalves(a: nat, b: nat)
    ensures BitOr(a, b) / 2 == BitOr(a / 2, b / 2)
    ensures BitOr(a, b) % 2 == if a % 2 == 1 || b % 2 == 1 then 1 else 0
  {
    if a == 0 {
      assert BitOr(a, b) == b && BitOr(a / 2, b / 2) == b / 2;
    } else if b == 0 {
      assert BitOr(a, b) == a && BitOr(a / 2, b / 2) == a / 2;
    }
  }

  /** `&` has the bits both operands have, `|` those at least one has. */
  lemma AndOrAreBitwise(a: nat, b: nat, i: nat)
    ensures Bit(BitAnd(a, b), i) == if Bit(a, i) == 1 && Bit(b, i) == 1 then 1 else 0
    ensures Bit(BitOr(a, b), i) == if Bit(a, i) == 1 || Bit(b, i) == 1 then 1 else 0
  {
    AndShr(a, b, i);
    OrShr(a, b, i);
    ShrIsDivision(a, i);
    ShrIsDivision(b, i);
    ShrIsDivision(BitAnd(a, b), i);
    ShrIsDivision(BitOr(a, b), i);
  }

  lemma {:induction false} AndNotShr(a: nat, b: nat, i: nat)
    ensures Shr(BitAndNot(a, b), i) % 2 == if Shr(a, i) % 2 == 1 && Shr(b, i) % 2 == 0 then 1 else 0
    decreases i
  {
    AndHalves(a, b);
    if i > 0 {
      assert BitAndNot(a, b) / 2 == BitAndNot(a / 2, b / 2);
      AndNotShr(a / 2, b / 2, i - 1);
    }
  }

  lemma AndNotIsBitwise(a: nat, b: nat, i: nat)
    ensures Bit(BitAndNot(a, b), i) == if Bit(a, i) == 1 && Bit(b, i) == 0 then 1 else 0
  {
    AndNotShr(a, b, i);
    ShrIsDivision(a, i);
    ShrIsDivision(b, i);
    ShrIsDivision(BitAndNot(a, b), i);
  }

  lemma {:induction false} PowerShr(k: nat, i: nat)
    ensures Shr(Pow2(k), i) % 2 == if i == k then 1 else 0
    decreases i
  {
    if i > 0 {
      if k == 0 { NothingLeft(i - 1); } else { PowerShr(k - 1, i - 1); }
    }
  }

  lemma {:induction false} NothingLeft(i: nat)
    ensures Shr(0, i) == 0
  {
    if i > 0 { NothingLeft(i - 1); }
  }

  lemma SevenShr(i: nat)
    ensures Shr(7, i) % 2 == if i < 3 then 1 else 0
  {
    if i >= 3 {
      assert Shr(7, i) == Shr(3, i - 1) == Shr(1, i - 2) == Shr(0, i - 3);
      NothingLeft(i - 3);
    }
  }

  lemma BitIsShr(a: nat, i: nat)
    ensures Bit(a, i) == Shr(a, i) % 2
  {
    ShrIsDivision(a, i);
  }

  /** A number is determined by its bits. */
  lemma {:induction false} BitsDetermine(a: nat, b: nat, n: nat)
    requires a < Pow2(n) && b < Pow2(n) && forall i: nat | i < n :: Shr(a, i) % 2 == Shr(b, i) % 2
    ensures a == b
    decreases n
  {
    if n > 0 {
      forall i: nat | i < n - 1 ensures Shr(a / 2, i) % 2 == Shr(b / 2, i) % 2 {
        assert Shr(a, i + 1) % 2 == Shr(b, i + 1) % 2;
      }
      BitsDetermine(a / 2, b / 2, n - 1);
      assert Shr(a, 0) % 2 == Shr(b, 0) % 2;
    }
  }

  /** Little-endian digits. */
  lemma {:induction false} DigitOf(v: nat, n: nat, i: nat)
    requires v < Pow256(n) && i < n
    ensures ToLE(v, n)[i] == (v / Pow256(i)) % 256
    decreases n
  {
    if i > 0 {
      DigitOf(v / 256, n - 1, i - 1);
      Nested(v, 256, Pow256(i - 1));
    }
  }

  lemma Nested(v: nat, m: nat, k: nat)
    requires m > 0 && k > 0
    ensures m * k > 0 && v / m / k == v / (m * k)
  {
    var q, r := v / m, v % m;
    var t, u := q / k, q % k;
    AtLeast(m, k);
    Scaled(m, k, u);
    AtLeast(m, k - u);
    assert v == m * (k * t + u) + r;
    assert m * (k * t + u) == (m * k) * t + m * u;
    Quotient(v, m * k, t, m * u + r);
  }
}
