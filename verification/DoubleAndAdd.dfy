/** Scalar multiplication by double-and-add over an arbitrary addition. */
module DoubleAndAdd {
  import opened PyInts

  /** The n-fold sum of x. */
  ghost function Fold<T>(add: (T, T) -> T, zero: T, x: T, n: nat): T
  {
    if n == 0 then zero else add(Fold(add, zero, x, n - 1), x)
  }

  /** What is needed of the addition, and only on the multiples of one element. */
  ghost predicate Laws<T(!new)>(add: (T, T) -> T, zero: T, x: T)
  {
    && add(zero, x) == x
    && (forall a: nat :: RightIdentity(add, zero, x, a))
    && (forall a: nat, b: nat, c: nat :: Associates(add, zero, x, a, b, c))
  }

  ghost predicate RightIdentity<T>(add: (T, T) -> T, zero: T, x: T, a: nat)
  {
    add(Fold(add, zero, x, a), zero) == Fold(add, zero, x, a)
  }

  ghost predicate Associates<T>(add: (T, T) -> T, zero: T, x: T, a: nat, b: nat, c: nat)
  {
    var p, q, r := Fold(add, zero, x, a), Fold(add, zero, x, b), Fold(add, zero, x, c);
    add(add(p, q), r) == add(p, add(q, r))
  }

  lemma {:induction false} FoldSum<T(!new)>(add: (T, T) -> T, zero: T, x: T, a: nat, b: nat)
    requires Laws(add, zero, x)
    ensures Fold(add, zero, x, a + b) == add(Fold(add, zero, x, a), Fold(add, zero, x, b))
  {
    if b == 0 {
      assert RightIdentity(add, zero, x, a);
    } else {
      FoldSum(add, zero, x, a, b - 1);
      assert Fold(add, zero, x, 1) == add(Fold(add, zero, x, 0), x);
      assert Associates(add, zero, x, a, b - 1, 1);
    }
  }

  lemma NonNegative(a: nat, b: nat)
    ensures a * b >= 0
  {
  }

  lemma {:induction false} FoldProduct<T(!new)>(add: (T, T) -> T, zero: T, x: T, a: nat, n: nat)
    requires Laws(add, zero, x)
    ensures a * n >= 0 && Fold(add, zero, Fold(add, zero, x, a), n) == Fold(add, zero, x, a * n)
  {
    NonNegative(a, n);
    if n == 0 {
      assert a * n == 0;
    } else {
      NonNegative(a, n - 1);
      FoldProduct(add, zero, x, a, n - 1);
      assert a * n == a * (n - 1) + a;
      FoldSum(add, zero, x, a * (n - 1), a);
    }
  }

  /** Multiples repeat with period q once the q-th one is the neutral element. */
  lemma {:induction false} FoldPeriodic<T(!new)>(add: (T, T) -> T, zero: T, x: T, q: nat, m: nat, r: nat)
    requires Laws(add, zero, x) && Fold(add, zero, x, q) == zero
    ensures q * m >= 0 && Fold(add, zero, x, r + q * m) == Fold(add, zero, x, r)
    decreases m
  {
    NonNegative(q, m);
    if m == 0 {
      assert q * m == 0;
    } else {
      NonNegative(q, m - 1);
      FoldPeriodic(add, zero, x, q, m - 1, r);
      assert q * m == q * (m - 1) + q;
      FoldSum(add, zero, x, r + q * (m - 1), q);
      assert RightIdentity(add, zero, x, r + q * (m - 1));
    }
  }

  /** The state of the loop run to its end: the bits of the scalar from the lowest up. */
  function Run<T>(add: (T, T) -> T, result: T, addend: T, scalar: nat): T
    decreases scalar
  {
    if scalar == 0 then result
    else
      ShrNext(scalar, 0);
      Run(add, if BitAnd(scalar, 1) == 1 then add(result, addend) else result, add(addend, addend), Shr(scalar, 1))
  }

  method Multiply<T>(add: (T, T) -> T, zero: T, point: T, scalar: nat) returns (result: T)
    ensures result == Run(add, zero, point, scalar)
  {
    result := zero;
    var addend := point;
    var left := scalar;
    while left != 0
      invariant Run(add, result, addend, left) == Run(add, zero, point, scalar)
      decreases left
    {
      ShrNext(left, 0);
      if BitAnd(left, 1) == 1 {
        result := add(result, addend);
      }
      addend := add(addend, addend);
      left := Shr(left, 1);
    }
  }

  /** Started at the multiples j and w, the loop ends at the multiple j + w * scalar. */
  lemma {:induction false} RunIsFold<T(!new)>(add: (T, T) -> T, zero: T, x: T, j: nat, w: nat, scalar: nat)
    requires Laws(add, zero, x)
    ensures w * scalar >= 0
    ensures Run(add, Fold(add, zero, x, j), Fold(add, zero, x, w), scalar) == Fold(add, zero, x, j + w * scalar)
    decreases scalar
  {
    NonNegative(w, scalar);
    if scalar == 0 {
      assert w * scalar == 0;
    } else {
      var half, bit := scalar / 2, scalar % 2;
      ShrNext(scalar, 0);
      LowestBit(scalar);
      Halve(w, half, bit);
      FoldSum(add, zero, x, w, w);
      FoldSum(add, zero, x, j, w);
      RunIsFold(add, zero, x, if bit == 1 then j + w else j, 2 * w, half);
    }
  }

  lemma LowestBit(a: nat)
    ensures BitAnd(a, 1) == a % 2
  {
  }

  lemma Halve(w: int, half: int, bit: int)
    requires bit == 0 || bit == 1
    ensures w * (2 * half + bit) == (2 * w) * half + (if bit == 1 then w else 0)
  {
  }

  /** Double-and-add computes the n-fold sum for every scalar. */
  lemma RunFromZero<T(!new)>(add: (T, T) -> T, zero: T, x: T, scalar: nat)
    requires Laws(add, zero, x)
    ensures Run(add, zero, x, scalar) == Fold(add, zero, x, scalar)
  {
    assert Fold(add, zero, x, 1) == add(Fold(add, zero, x, 0), x);
    RunIsFold(add, zero, x, 0, 1, scalar);
    assert 1 * scalar == scalar;
  }
}
