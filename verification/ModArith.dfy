/** Congruences, modular powers, Euclid's lemma and Fermat's little theorem. */
module ModArith {
  /** a and b are some multiple of p apart. */
  ghost predicate Cong(a: int, b: int, p: int)
    requires p > 0
  {
    exists q :: Apart(a, b, p, q)
  }

  predicate Apart(a: int, b: int, p: int, q: int)
  {
    a == b + Multiple(q, p)
  }

  /** The q-th multiple of p. It is defined by addition, which keeps large moduli out of the solver's arithmetic. */
  function Multiple(q: int, p: int): int
    decreases if q < 0 then -q else q
  {
    if q == 0 then 0 else if q > 0 then Multiple(q - 1, p) + p else Multiple(q + 1, p) - p
  }

  lemma {:induction false} MultipleIsProduct(q: int, p: int)
    ensures Multiple(q, p) == q * p
    decreases if q < 0 then -q else q
  {
    if q > 0 {
      MultipleIsProduct(q - 1, p);
    } else if q < 0 {
      MultipleIsProduct(q + 1, p);
    }
  }

  ghost predicate IsPrime(p: int)
  {
    p > 1 && forall d | 1 < d < p :: p % d != 0
  }

  lemma SmallMultiple(k: int, p: int)
    requires p > 0 && -p < k * p < p
    ensures k == 0
  {
  }

  lemma CongIntro(a: int, b: int, k: int, p: int)
    requires p > 0 && a == b + k * p
    ensures Cong(a, b, p)
  {
    MultipleIsProduct(k, p);
    assert Apart(a, b, p, k);
  }

  lemma CongRefl(a: int, p: int)
    requires p > 0
    ensures Cong(a, a, p)
  {
    CongIntro(a, a, 0, p);
  }

  lemma CongElim(a: int, b: int, p: int) returns (k: int)
    requires p > 0 && Cong(a, b, p)
    ensures a == b + k * p
  {
    k :| Apart(a, b, p, k);
    MultipleIsProduct(k, p);
  }

  lemma CongMod(a: int, p: int)
    requires p > 0
    ensures Cong(a % p, a, p) && Cong(a, a % p, p)
  {
    assert a == p * (a / p) + a % p;
    CongIntro(a, a % p, a / p, p);
    CongIntro(a % p, a, -(a / p), p);
  }

  lemma CongSym(a: int, b: int, p: int)
    requires p > 0 && Cong(a, b, p)
    ensures Cong(b, a, p)
  {
    var k := CongElim(a, b, p);
    CongIntro(b, a, -k, p);
  }

  lemma CongTrans(a: int, b: int, c: int, p: int)
    requires p > 0 && Cong(a, b, p) && Cong(b, c, p)
    ensures Cong(a, c, p)
  {
    var k := CongElim(a, b, p);
    var l := CongElim(b, c, p);
    assert a == c + (k + l) * p;
    CongIntro(a, c, k + l, p);
  }

  lemma CongAdd(a: int, b: int, c: int, d: int, p: int)
    requires p > 0 && Cong(a, b, p) && Cong(c, d, p)
    ensures Cong(a + c, b + d, p)
    ensures Cong(a - c, b - d, p)
  {
    var k := CongElim(a, b, p);
    var l := CongElim(c, d, p);
    assert a + c == b + d + (k + l) * p;
    assert a - c == b - d + (k - l) * p;
    CongIntro(a + c, b + d, k + l, p);
    CongIntro(a - c, b - d, k - l, p);
  }

  lemma ShiftedProduct(b: int, d: int, k: int, l: int, p: int)
    ensures (b + k * p) * (d + l * p) == b * d + (b * l + k * d + k * l * p) * p
  {
    assert (b + k * p) * (d + l * p) == b * d + b * (l * p) + (k * p) * d + (k * p) * (l * p);
    assert b * (l * p) == (b * l) * p;
    assert (k * p) * d == (k * d) * p;
    assert (k * p) * (l * p) == (k * l * p) * p;
  }

  lemma CongMul(a: int, b: int, c: int, d: int, p: int)
    requires p > 0 && Cong(a, b, p) && Cong(c, d, p)
    ensures Cong(a * c, b * d, p)
  {
    var k := CongElim(a, b, p);
    var l := CongElim(c, d, p);
    ShiftedProduct(b, d, k, l, p);
    CongIntro(a * c, b * d, b * l + k * d + k * l * p, p);
  }

  /** Two reduced congruent numbers are equal. */
  lemma CongReduced(a: int, b: int, p: int)
    requires p > 0 && Cong(a, b, p) && 0 <= a < p && 0 <= b < p
    ensures a == b
  {
    var k := CongElim(a, b, p);
    SmallMultiple(k, p);
  }

  lemma CongModEq(a: int, b: int, p: int)
    requires p > 0
    ensures Cong(a, b, p) <==> a % p == b % p
  {
    CongMod(a, p);
    CongMod(b, p);
    if Cong(a, b, p) {
      CongTrans(a % p, a, b, p);
      CongTrans(a % p, b, b % p, p);
      CongReduced(a % p, b % p, p);
    }
    if a % p == b % p {
      CongTrans(a, a % p, b, p);
    }
  }

  lemma CongScale(k: int, x: int, y: int, p: int)
    requires p > 0 && Cong(x, y, p)
    ensures Cong(k * x, k * y, p)
  {
    CongRefl(k, p);
    CongMul(k, k, x, y, p);
  }

  lemma CongSquare(x: int, y: int, p: int)
    requires p > 0 && Cong(x, y, p)
    ensures Cong(x * x, y * y, p)
  {
    CongMul(x, y, x, y, p);
  }

  lemma CongZero(x: int, y: int, p: int)
    requires p > 0 && Cong(x, y, p)
    ensures Cong(x - y, 0, p) && Cong(y, x, p)
  {
    CongRefl(y, p);
    CongAdd(x, y, y, y, p);
    CongSym(x, y, p);
  }

  lemma CongFromZero(x: int, y: int, p: int)
    requires p > 0 && Cong(x - y, 0, p)
    ensures Cong(x, y, p)
  {
    CongRefl(y, p);
    CongAdd(x - y, 0, y, y, p);
  }

  // ---------------------------------------------------------------- primes

  lemma RemainderProduct(p: int, a: int, b: int, q: int, r: int)
    requires p > 0 && Cong(a * b, 0, p) && p == a * q + r
    ensures Cong(r * b, 0, p)
  {
    var k := CongElim(a * b, 0, p);
    assert r * b == b * p - q * (a * b);
    assert q * (k * p) == (q * k) * p;
    CongIntro(r * b, 0, b - q * k, p);
  }

  /** Euclid's lemma, by the remainder sequence p % a. */
  lemma {:induction false} EuclidReduced(p: int, a: int, b: int)
    requires IsPrime(p) && 0 < a < p && Cong(a * b, 0, p)
    ensures Cong(b, 0, p)
    decreases a
  {
    if a > 1 {
      var q, r := p / a, p % a;
      assert p == a * q + r && 0 < r < a;
      RemainderProduct(p, a, b, q, r);
      EuclidReduced(p, r, b);
    }
  }

  lemma Euclid(p: int, a: int, b: int)
    requires IsPrime(p) && Cong(a * b, 0, p)
    ensures Cong(a, 0, p) || Cong(b, 0, p)
  {
    CongMod(a, p);
    CongRefl(b, p);
    CongMul(a % p, a, b, b, p);
    CongTrans((a % p) * b, a * b, 0, p);
    if a % p == 0 {
      CongTrans(a, a % p, 0, p);
    } else {
      EuclidReduced(p, a % p, b);
    }
  }

  // ---------------------------------------------------------------- powers

  function Pow(b: int, e: nat): int
  {
    if e == 0 then 1 else b * Pow(b, e - 1)
  }

  lemma {:induction false} CongPow(a: int, b: int, e: nat, p: int)
    requires p > 0 && Cong(a, b, p)
    ensures Cong(Pow(a, e), Pow(b, e), p)
  {
    if e != 0 {
      CongPow(a, b, e - 1, p);
      CongMul(a, b, Pow(a, e - 1), Pow(b, e - 1), p);
    } else {
      CongRefl(1, p);
    }
  }

  /** Binomial coefficients by Pascal's rule. */
  function Choose(n: nat, k: nat): nat
  {
    if k == 0 then 1 else if n == 0 then 0 else Choose(n - 1, k - 1) + Choose(n - 1, k)
  }

  lemma AbsorbAlgebra(n: int, k: int, x: int, y: int, w: int)
    requires (k - 1) * (x + y) == (n - 1) * x && k * w == (n - 1) * y
    ensures k * ((x + y) + w) == n * (x + y)
  {
    assert k * ((x + y) + w) == (k - 1) * (x + y) + (x + y) + k * w;
    assert (n - 1) * x + (n - 1) * y == (n - 1) * (x + y);
  }

  /** The absorption identity. */
  lemma {:induction false} Absorb(n: nat, k: nat)
    requires 0 < k && 0 < n
    ensures k * Choose(n, k) == n * Choose(n - 1, k - 1)
    decreases n
  {
    if n == 1 {
      if k > 1 { assert Choose(0, k - 1) == 0 && Choose(0, k) == 0; }
    } else {
      Absorb(n - 1, k);
      if k > 1 {
        Absorb(n - 1, k - 1);
        AbsorbAlgebra(n, k, Choose(n - 2, k - 2), Choose(n - 2, k - 1), Choose(n - 1, k));
      } else {
        assert Choose(n - 1, 0) == 1 && Choose(n - 2, 0) == 1;
      }
    }
  }

  /** The first k terms of the binomial expansion of (1 + a)^n. */
  function BinomialSum(n: nat, a: int, k: nat): int
  {
    if k == 0 then 0 else BinomialSum(n, a, k - 1) + Choose(n, k - 1) * Pow(a, k - 1)
  }

  lemma BinomialAlgebra(x: int, y: int, s: int, t: int, u: int, a: int)
    ensures (u + a * t) + (x + y) * (a * s) == (u + y * (a * s)) + a * (t + x * s)
  {
    assert (x + y) * (a * s) == x * (a * s) + y * (a * s);
    assert a * (t + x * s) == a * t + x * (a * s);
  }

  lemma {:induction false} BinomialStep(n: nat, a: int, k: nat)
    ensures BinomialSum(n + 1, a, k + 1) == BinomialSum(n, a, k + 1) + a * BinomialSum(n, a, k)
  {
    if k == 0 {
      assert Choose(n + 1, 0) == 1 && Choose(n, 0) == 1;
      assert BinomialSum(n + 1, a, 1) == BinomialSum(n + 1, a, 0) + Choose(n + 1, 0) * Pow(a, 0);
      assert BinomialSum(n, a, 1) == BinomialSum(n, a, 0) + Choose(n, 0) * Pow(a, 0);
    } else {
      BinomialStep(n, a, k - 1);
      BinomialAlgebra(Choose(n, k - 1), Choose(n, k), Pow(a, k - 1), BinomialSum(n, a, k - 1), BinomialSum(n, a, k), a);
    }
  }

  lemma {:induction false} ChooseBeyond(n: nat, k: nat)
    requires k > n
    ensures Choose(n, k) == 0
    decreases n
  {
    if n > 0 {
      ChooseBeyond(n - 1, k - 1);
      ChooseBeyond(n - 1, k);
    }
  }

  lemma {:induction false} Binomial(n: nat, a: int)
    ensures Pow(1 + a, n) == BinomialSum(n, a, n + 1)
  {
    if n == 0 {
      assert Choose(0, 0) == 1;
      assert BinomialSum(0, a, 1) == BinomialSum(0, a, 0) + Choose(0, 0) * Pow(a, 0);
    } else {
      Binomial(n - 1, a);
      BinomialStep(n - 1, a, n);
      ChooseBeyond(n - 1, n);
      var s := BinomialSum(n - 1, a, n);
      assert BinomialSum(n - 1, a, n + 1) == s + 0 * Pow(a, n);
      assert (1 + a) * s == s + a * s;
    }
  }

  lemma MultipleOf(a: int, k: int, p: int)
    requires p > 0 && a == p * k
    ensures Cong(a, 0, p)
  {
    CongIntro(a, 0, k, p);
  }

  lemma PrimeDividesChoose(p: int, k: nat)
    requires IsPrime(p) && 0 < k < p
    ensures Cong(Choose(p, k), 0, p)
  {
    Absorb(p, k);
    MultipleOf(k * Choose(p, k), Choose(p - 1, k - 1), p);
    EuclidReduced(p, k, Choose(p, k));
  }

  lemma {:induction false} MiddleTermsVanish(p: int, a: int, k: nat)
    requires IsPrime(p) && 1 <= k <= p
    ensures Cong(BinomialSum(p, a, k), 1, p)
    decreases k
  {
    if k == 1 {
      assert Choose(p, 0) == 1;
      assert BinomialSum(p, a, 1) == BinomialSum(p, a, 0) + Choose(p, 0) * Pow(a, 0);
      CongRefl(1, p);
    } else {
      MiddleTermsVanish(p, a, k - 1);
      PrimeDividesChoose(p, k - 1);
      CongRefl(Pow(a, k - 1), p);
      CongMul(Choose(p, k - 1), 0, Pow(a, k - 1), Pow(a, k - 1), p);
      CongAdd(BinomialSum(p, a, k - 1), 1, Choose(p, k - 1) * Pow(a, k - 1), 0 * Pow(a, k - 1), p);
    }
  }

  lemma {:induction false} ChooseAll(n: nat)
    ensures Choose(n, n) == 1
  {
    if n > 0 {
      ChooseAll(n - 1);
      ChooseBeyond(n - 1, n);
    }
  }

  /** (1 + a)^p and 1 + a^p agree modulo p. */
  lemma FreshmansDream(p: int, a: int)
    requires IsPrime(p)
    ensures Cong(Pow(1 + a, p), 1 + Pow(a, p), p)
  {
    Binomial(p, a);
    MiddleTermsVanish(p, a, p);
    ChooseAll(p);
    assert BinomialSum(p, a, p + 1) == BinomialSum(p, a, p) + Choose(p, p) * Pow(a, p);
    CongRefl(Pow(a, p), p);
    CongAdd(BinomialSum(p, a, p), 1, Pow(a, p), Pow(a, p), p);
  }

  lemma {:induction false} FermatPower(p: int, a: nat)
    requires IsPrime(p)
    ensures Cong(Pow(a, p), a, p)
  {
    if a > 0 {
      FermatPower(p, a - 1);
      FreshmansDream(p, a - 1);
      CongRefl(1, p);
      CongAdd(1, 1, Pow(a - 1, p), a - 1, p);
      CongTrans(Pow(a, p), 1 + Pow(a - 1, p), a, p);
    } else {
      assert Pow(0, p) == 0 * Pow(0, p - 1);
      CongRefl(0, p);
    }
  }

  lemma CancelUnit(p: int, a: int, u: int)
    requires IsPrime(p) && 0 < a < p && Cong(a * u, a, p)
    ensures Cong(u, 1, p)
  {
    CongRefl(a, p);
    CongAdd(a * u, a, a, a, p);
    assert a * (u - 1) == a * u - a;
    EuclidReduced(p, a, u - 1);
    CongRefl(1, p);
    CongAdd(u - 1, 0, 1, 1, p);
  }

  /** Fermat's little theorem: z^(p-2) is an inverse of z. */
  lemma Fermat(p: int, z: int)
    requires IsPrime(p) && !Cong(z, 0, p)
    ensures Cong(z * Pow(z, p - 2), 1, p)
  {
    var a := z % p;
    CongMod(z, p);
    FermatPower(p, a);
    CancelUnit(p, a, Pow(a, p - 1));
    CongPow(z, a, p - 1, p);
    CongTrans(Pow(z, p - 1), Pow(a, p - 1), 1, p);
  }

  /** The inverse as a power, reduced. */
  function Inverse(x: int, p: int): int
    requires p > 2
  {
    Pow(x, p - 2) % p
  }

  lemma InverseWorks(x: int, p: int)
    requires IsPrime(p) && p > 2 && !Cong(x, 0, p)
    ensures Cong(Inverse(x, p) * x, 1, p)
  {
    var y := Pow(x, p - 2);
    Fermat(p, x);
    CongMod(y, p);
    CongScale(x, y % p, y, p);
    CongTrans(x * (y % p), x * y, 1, p);
  }

  lemma Quotient(n: int, x: int, p: int)
    requires IsPrime(p) && p > 2 && !Cong(x, 0, p)
    ensures Cong((n * Inverse(x, p)) * x, n, p)
  {
    InverseWorks(x, p);
    CongScale(n, Inverse(x, p) * x, 1, p);
    assert (n * Inverse(x, p)) * x == n * (Inverse(x, p) * x);
  }
}
