/** The curve -x^2 + y^2 = 1 + d x^2 y^2 modulo a prime. If -1 is a square and d is none, the denominators of its
    addition never vanish on the curve, and sums of points of the curve are on the curve. */
module EdwardsCurve {
  import opened ModArith

  ghost predicate On(x: int, y: int, d: int, p: int)
    requires p > 0
  {
    Cong(y * y - x * x, 1 + d * ((x * x) * (y * y)), p)
  }

  ghost predicate IsRoot(t: int, a: int, p: int)
    requires p > 0
  {
    Cong(t * t, a, p)
  }

  ghost predicate NoSquare(a: int, p: int)
    requires p > 0
  {
    forall t :: !IsRoot(t, a, p)
  }

  /** The product in the denominators 1 + e and 1 - e of a sum. */
  function Product(x1: int, y1: int, x2: int, y2: int, d: int): int
  {
    d * ((x1 * x2) * (y1 * y2))
  }

  // ---------------------------------------------------------------- the denominators

  lemma SquareOfProduct(a: int, b: int)
    ensures (a * b) * (a * b) == (a * a) * (b * b)
  {
  }

  lemma MoveFactor(w: int, d: int, b: int)
    ensures w * (d * b) == d * (w * b)
  {
  }

  /** a^2 = d b^2 leaves only b = 0. */
  lemma NoRatio(a: int, b: int, d: int, p: int)
    requires IsPrime(p) && p > 2 && NoSquare(d, p) && Cong(a * a, d * (b * b), p)
    ensures Cong(b, 0, p)
  {
    if !Cong(b, 0, p) {
      Ratio(a, b, d, p);
    }
  }

  lemma Ratio(a: int, b: int, d: int, p: int)
    requires IsPrime(p) && p > 2 && !Cong(b, 0, p) && Cong(a * a, d * (b * b), p)
    ensures IsRoot(Inverse(b, p) * a, d, p)
  {
    var w := Inverse(b, p);
    InverseWorks(b, p);
    CongSquare(w * b, 1, p);
    CongScale(d, (w * b) * (w * b), 1, p);
    CongScale(w * w, a * a, d * (b * b), p);
    SquareOfProduct(w, a);
    SquareOfProduct(w, b);
    MoveFactor(w * w, d, b * b);
    CongTrans((w * a) * (w * a), d * ((w * b) * (w * b)), d, p);
  }

  lemma SquareOfSum(x: int, y: int)
    ensures (x + y) * (x + y) == x * x + y * y + 2 * (x * y)
  {
  }

  /** (i x1 + e y1)^2, its cross term apart. */
  lemma LeftSquare(x1: int, y1: int, e: int, i: int)
    ensures (i * x1 + e * y1) * (i * x1 + e * y1)
      == (i * i) * (x1 * x1) + (e * e) * (y1 * y1) + 2 * (i * (e * (x1 * y1)))
  {
    SquareOfSum(i * x1, e * y1);
    SquareOfProduct(i, x1);
    SquareOfProduct(e, y1);
    assert (i * x1) * (e * y1) == i * (e * (x1 * y1));
  }

  /** d (m (i x2 + y2))^2, its cross term apart. */
  lemma RightSquare(m: int, x2: int, y2: int, i: int, d: int)
    ensures d * ((m * (i * x2 + y2)) * (m * (i * x2 + y2)))
      == (d * (m * m)) * ((i * i) * (x2 * x2) + y2 * y2) + 2 * (i * ((d * (m * (x2 * y2))) * m))
  {
    SquareOfProduct(m, i * x2 + y2);
    SquareOfSum(i * x2, y2);
    SquareOfProduct(i, x2);
    Spread(d, m * m, (i * i) * (x2 * x2) + y2 * y2, 2 * ((i * x2) * y2));
    CrossTerm(m, x2, y2, i, d);
  }

  lemma Spread(d: int, w: int, a: int, b: int)
    ensures d * (w * (a + b)) == (d * w) * a + (d * w) * b
  {
    Distribute(d * w, a, b);
  }

  lemma Distribute(a: int, b: int, c: int)
    ensures a * (b + c) == a * b + a * c
  {
  }

  lemma CrossTerm(m: int, x2: int, y2: int, i: int, d: int)
    ensures (d * (m * m)) * (2 * ((i * x2) * y2)) == 2 * (i * ((d * (m * (x2 * y2))) * m))
  {
    var w := x2 * y2;
    assert (i * x2) * y2 == i * w;
    assert (d * (m * m)) * (2 * (i * w)) == 2 * (i * ((d * (m * m)) * w));
    assert (d * (m * m)) * w == (d * (m * w)) * m;
  }

  /** i^2 f + g = g - f where i^2 = -1. */
  lemma MinusOne(i: int, f: int, g: int, p: int)
    requires p > 0 && Cong(i * i, -1, p)
    ensures Cong((i * i) * f + g, g - f, p)
  {
    CongScale(f, i * i, -1, p);
    CongRefl(g, p);
    CongAdd((i * i) * f, -f, g, g, p);
  }

  lemma LeftValue(x1: int, y1: int, e: int, i: int, d: int, p: int)
    requires p > 0 && On(x1, y1, d, p) && Cong(i * i, -1, p) && Cong(e * e, 1, p)
    ensures Cong((i * i) * (x1 * x1) + (e * e) * (y1 * y1), 1 + d * ((x1 * y1) * (x1 * y1)), p)
  {
    var f, g := x1 * x1, y1 * y1;
    CongScale(g, e * e, 1, p);
    CongRefl((i * i) * f, p);
    CongAdd((i * i) * f, (i * i) * f, (e * e) * g, g, p);
    MinusOne(i, f, g, p);
    CongTrans((i * i) * f + (e * e) * g, (i * i) * f + g, g - f, p);
    CongTrans((i * i) * f + (e * e) * g, g - f, 1 + d * (f * g), p);
    SquareOfProduct(x1, y1);
  }

  lemma RightValue(m: int, x2: int, y2: int, e: int, i: int, d: int, p: int)
    requires p > 0 && On(x2, y2, d, p) && Cong(i * i, -1, p) && Cong(e * e, 1, p) && e == d * (m * (x2 * y2))
    ensures Cong((d * (m * m)) * ((i * i) * (x2 * x2) + y2 * y2), 1 + d * (m * m), p)
  {
    var f, g, k := x2 * x2, y2 * y2, d * (m * m);
    MinusOne(i, f, g, p);
    CongTrans((i * i) * f + g, g - f, 1 + d * (f * g), p);
    CongScale(k, (i * i) * f + g, 1 + d * (f * g), p);
    SquareOfE(m, x2, y2, d);
    CongRefl(k, p);
    CongAdd(k, k, e * e, 1, p);
    CongTrans(k * ((i * i) * f + g), k + e * e, k + 1, p);
  }

  lemma SquareOfE(m: int, x2: int, y2: int, d: int)
    ensures (d * (m * m)) * (1 + d * ((x2 * x2) * (y2 * y2)))
      == d * (m * m) + (d * (m * (x2 * y2))) * (d * (m * (x2 * y2)))
  {
    var w := x2 * y2;
    SquareOfProduct(x2, y2);
    SquareOfProduct(m, w);
    SquareOfProduct(d, m * w);
    Distribute(d * (m * m), 1, d * (w * w));
    assert (d * (m * m)) * (d * (w * w)) == (d * d) * ((m * m) * (w * w));
  }

  /** Were the square of e one, d would be a square or m (i x2 + y2) would vanish. */
  lemma Vanishes(x1: int, y1: int, x2: int, y2: int, e: int, i: int, d: int, p: int)
    requires IsPrime(p) && p > 2 && NoSquare(d, p) && Cong(i * i, -1, p) && On(x1, y1, d, p) && On(x2, y2, d, p)
    requires e == d * ((x1 * y1) * (x2 * y2)) && Cong(e * e, 1, p)
    ensures Cong((x1 * y1) * (i * x2 + y2), 0, p)
  {
    var m := x1 * y1;
    var l, r := (i * i) * (x1 * x1) + (e * e) * (y1 * y1), (d * (m * m)) * ((i * i) * (x2 * x2) + y2 * y2);
    LeftValue(x1, y1, e, i, d, p);
    RightValue(m, x2, y2, e, i, d, p);
    CongSym(r, 1 + d * (m * m), p);
    CongTrans(l, 1 + d * (m * m), r, p);
    var t := 2 * (i * (e * m));
    CongRefl(t, p);
    CongAdd(l, r, t, t, p);
    LeftSquare(x1, y1, e, i);
    RightSquare(m, x2, y2, i, d);
    NoRatio(i * x1 + e * y1, m * (i * x2 + y2), d, p);
  }

  lemma NegativeProduct(d: int, m: int, x: int, y: int)
    ensures d * (m * (x * (-y))) == -(d * (m * (x * y)))
    ensures (-y) * (-y) == y * y
  {
    assert x * (-y) == -(x * y);
    assert m * (-(x * y)) == -(m * (x * y));
  }

  lemma Opposite(e: int)
    ensures (-e) * (-e) == e * e
  {
  }

  /** From m (w + y) = 0 and m (w - y) = 0: m y = 0. */
  lemma HalfDifference(m: int, w: int, y: int, p: int)
    requires IsPrime(p) && p > 2 && Cong(m * (w + y), 0, p) && Cong(m * (w + -y), 0, p)
    ensures Cong(m * y, 0, p)
  {
    CongAdd(m * (w + y), 0, m * (w + -y), 0, p);
    assert m * (w + y) - m * (w + -y) == 2 * (m * y);
    Euclid(p, 2, m * y);
    if Cong(2, 0, p) {
      CongReduced(2, 0, p);
    }
  }

  lemma Vanished(m: int, x: int, y: int, d: int, p: int)
    requires p > 0 && Cong(m * y, 0, p)
    ensures var e := d * (m * (x * y)); Cong(e * e, 0, p)
  {
    CongScale(d * x, m * y, 0, p);
    assert (d * x) * (m * y) == d * (m * (x * y));
    CongSquare(d * (m * (x * y)), 0, p);
  }

  /** On the curve e^2 is never 1, so neither denominator of a sum vanishes. */
  lemma NoUnitProduct(x1: int, y1: int, x2: int, y2: int, e: int, i: int, d: int, p: int)
    requires IsPrime(p) && p > 2 && NoSquare(d, p) && Cong(i * i, -1, p) && On(x1, y1, d, p) && On(x2, y2, d, p)
    requires e == d * ((x1 * y1) * (x2 * y2))
    ensures !Cong(e * e, 1, p)
  {
    if Cong(e * e, 1, p) {
      var m := x1 * y1;
      Vanishes(x1, y1, x2, y2, e, i, d, p);
      NegativeProduct(d, m, x2, y2);
      Opposite(e);
      Vanishes(x1, y1, x2, -y2, -e, i, d, p);
      HalfDifference(m, i * x2, y2, p);
      Vanished(m, x2, y2, d, p);
      CongSym(e * e, 0, p);
      CongTrans(0, e * e, 1, p);
      CongReduced(0, 1, p);
    }
  }

  lemma UnitFactors(e: int, p: int)
    requires p > 0 && !Cong(e * e, 1, p)
    ensures !Cong(1 + e, 0, p) && !Cong(1 - e, 0, p)
  {
    assert (1 + e) * (1 - e) == 1 - e * e && (1 - e) * (1 + e) == 1 - e * e;
    if Cong(1 + e, 0, p) {
      CongScale(1 - e, 1 + e, 0, p);
    }
    if Cong(1 - e, 0, p) {
      CongScale(1 + e, 1 - e, 0, p);
    }
    if Cong(1 - e * e, 0, p) {
      CongFromZero(1, e * e, p);
      CongSym(1, e * e, p);
    }
  }

  lemma Regroup(x1: int, y1: int, x2: int, y2: int)
    ensures (x1 * x2) * (y1 * y2) == (x1 * y1) * (x2 * y2)
  {
  }

  /** The denominators of a sum of two points of the curve do not vanish. */
  lemma Complete(x1: int, y1: int, x2: int, y2: int, i: int, d: int, p: int)
    requires IsPrime(p) && p > 2 && NoSquare(d, p) && Cong(i * i, -1, p) && On(x1, y1, d, p) && On(x2, y2, d, p)
    ensures var e := Product(x1, y1, x2, y2, d); !Cong(1 + e, 0, p) && !Cong(1 - e, 0, p)
  {
    var e := Product(x1, y1, x2, y2, d);
    Regroup(x1, y1, x2, y2);
    NoUnitProduct(x1, y1, x2, y2, e, i, d, p);
    UnitFactors(e, p);
  }

  // ---------------------------------------------------------------- the sum is on the curve

  // For points with squares (m1, n1) and (m2, n2): a and b are the squares of the two numerators of their sum, each
  // less twice s, where s is the product of all four coordinates.

  lemma Difference(m1: int, n1: int, m2: int, n2: int)
    ensures (n1 * n2 + m1 * m2) - (m1 * n2 + m2 * n1) == (n1 - m1) * (n2 - m2)
  {
  }

  lemma SumOfSquares(m: int, n: int)
    ensures m * m + n * n == (n - m) * (n - m) + 2 * (m * n)
  {
  }

  lemma ProductOfSums(m1: int, n1: int, m2: int, n2: int)
    ensures (n1 * n2 + m1 * m2) * (m1 * n2 + m2 * n1)
      == (m1 * n1) * (m2 * m2 + n2 * n2) + (m2 * n2) * (m1 * m1 + n1 * n1)
  {
    var u, v, w, z := n1 * n2, m1 * m2, m1 * n2, m2 * n1;
    assert (u + v) * (w + z) == u * w + u * z + v * w + v * z;
    assert u * w == (m1 * n1) * (n2 * n2);
    assert u * z == (m2 * n2) * (n1 * n1);
    assert v * w == (m2 * n2) * (m1 * m1);
    assert v * z == (m1 * n1) * (m2 * m2);
    Distribute(m1 * n1, m2 * m2, n2 * n2);
    Distribute(m2 * n2, m1 * m1, n1 * n1);
  }

  /** a - b, by the equation of the curve. */
  lemma DifferenceValue(m1: int, n1: int, m2: int, n2: int, s: int, e: int, d: int, p: int)
    requires p > 0 && Cong(n1 - m1, 1 + d * (m1 * n1), p) && Cong(n2 - m2, 1 + d * (m2 * n2), p)
    requires (m1 * n1) * (m2 * n2) == s * s && e == d * s
    ensures Cong((n1 * n2 + m1 * m2) - (m1 * n2 + m2 * n1), 1 + e * e + d * (m1 * n1 + m2 * n2), p)
  {
    var c1, c2 := m1 * n1, m2 * n2;
    Difference(m1, n1, m2, n2);
    CongMul(n1 - m1, 1 + d * c1, n2 - m2, 1 + d * c2, p);
    UnitProduct(c1, c2, s, d);
  }

  lemma UnitProduct(c1: int, c2: int, s: int, d: int)
    requires c1 * c2 == s * s
    ensures (1 + d * c1) * (1 + d * c2) == 1 + (d * s) * (d * s) + d * (c1 + c2)
  {
    SquareOfProduct(d, s);
    assert (d * c1) * (d * c2) == (d * d) * (c1 * c2);
    assert (1 + d * c1) * (1 + d * c2) == 1 + d * c1 + d * c2 + (d * c1) * (d * c2);
  }

  lemma PartValue(c1: int, c2: int, k2: int, d: int, p: int)
    requires p > 0 && Cong(k2, 1 + d * c2, p)
    ensures Cong(c1 * (k2 * k2 + 2 * c2), c1 * ((1 + d * c2) * (1 + d * c2) + 2 * c2), p)
  {
    CongSquare(k2, 1 + d * c2, p);
    CongRefl(2 * c2, p);
    CongAdd(k2 * k2, (1 + d * c2) * (1 + d * c2), 2 * c2, 2 * c2, p);
    CongScale(c1, k2 * k2 + 2 * c2, (1 + d * c2) * (1 + d * c2) + 2 * c2, p);
  }

  /** a b, by the equation of the curve. */
  lemma ProductValue(m1: int, n1: int, m2: int, n2: int, s: int, e: int, d: int, p: int)
    requires p > 0 && Cong(n1 - m1, 1 + d * (m1 * n1), p) && Cong(n2 - m2, 1 + d * (m2 * n2), p)
    requires (m1 * n1) * (m2 * n2) == s * s && e == d * s
    ensures Cong((n1 * n2 + m1 * m2) * (m1 * n2 + m2 * n1),
              (m1 * n1 + m2 * n2) * (1 + e * e) + 4 * (e * s) + 4 * (s * s), p)
  {
    var c1, c2 := m1 * n1, m2 * n2;
    var g1, g2 := 1 + d * c1, 1 + d * c2;
    ProductOfSums(m1, n1, m2, n2);
    SumOfSquares(m1, n1);
    SumOfSquares(m2, n2);
    PartValue(c1, c2, n2 - m2, d, p);
    PartValue(c2, c1, n1 - m1, d, p);
    CongAdd(c1 * ((n2 - m2) * (n2 - m2) + 2 * c2), c1 * (g2 * g2 + 2 * c2),
      c2 * ((n1 - m1) * (n1 - m1) + 2 * c1), c2 * (g1 * g1 + 2 * c1), p);
    PartSum(c1, c2, s, d);
  }

  lemma PartOf(c1: int, c2: int, d: int)
    ensures c1 * ((1 + d * c2) * (1 + d * c2) + 2 * c2)
      == c1 + 2 * (d * (c1 * c2)) + c2 * ((d * d) * (c1 * c2)) + 2 * (c1 * c2)
  {
    var w := d * c2;
    assert (1 + w) * (1 + w) == 1 + 2 * w + w * w;
    assert c1 * (1 + 2 * w + w * w + 2 * c2) == c1 + 2 * (c1 * w) + c1 * (w * w) + 2 * (c1 * c2);
    assert c1 * w == d * (c1 * c2);
    assert c1 * (w * w) == c2 * ((d * d) * (c1 * c2));
  }

  lemma PartSum(c1: int, c2: int, s: int, d: int)
    requires c1 * c2 == s * s
    ensures c1 * ((1 + d * c2) * (1 + d * c2) + 2 * c2) + c2 * ((1 + d * c1) * (1 + d * c1) + 2 * c1)
      == (c1 + c2) * (1 + (d * s) * (d * s)) + 4 * ((d * s) * s) + 4 * (s * s)
  {
    PartOf(c1, c2, d);
    PartOf(c2, c1, d);
    assert c2 * c1 == s * s;
    SquareOfProduct(d, s);
    assert d * (s * s) == (d * s) * s;
    var r := (d * d) * (s * s);
    Distribute(c1 + c2, 1, r);
    assert (c1 + c2) * r == c2 * r + c1 * r;
  }

  /** (a + 2s)(1 + e)^2 - (b + 2s)(1 - e)^2, in a - b and a + b. */
  lemma LeftSide(a: int, b: int, s: int, e: int)
    ensures (a + 2 * s) * ((1 + e) * (1 + e)) - (b + 2 * s) * ((1 - e) * (1 - e))
      == (1 + e * e) * (a - b) + 2 * (e * (a + b)) + 8 * (e * s)
  {
    SquareOfSum(1, e);
    SquareOfSum(1, -e);
    var q := 1 + e * e;
    assert (1 - e) * (1 - e) == q - 2 * e && (1 + e) * (1 + e) == q + 2 * e;
    assert (a + 2 * s) * (q + 2 * e) == a * q + 2 * (e * a) + 2 * (s * q) + 4 * (e * s);
    assert (b + 2 * s) * (q - 2 * e) == b * q - 2 * (e * b) + 2 * (s * q) - 4 * (e * s);
    assert (a - b) * q == a * q - b * q;
    Distribute(e, a, b);
  }

  /** The right side with a b expanded. */
  lemma RightSide(a: int, b: int, s: int, e: int, d: int)
    requires e == d * s
    ensures d * ((b + 2 * s) * (a + 2 * s)) == d * (a * b) + 2 * (e * (a + b)) + 4 * (e * s)
  {
    assert (b + 2 * s) * (a + 2 * s) == a * b + 2 * (s * (a + b)) + 4 * (s * s);
    assert d * (a * b + 2 * (s * (a + b)) + 4 * (s * s)) == d * (a * b) + 2 * (d * (s * (a + b))) + 4 * (d * (s * s));
    assert d * (s * (a + b)) == (d * s) * (a + b) && d * (s * s) == (d * s) * s;
  }

  /** The two values fit together. */
  lemma ValuesFit(c: int, s: int, e: int, d: int)
    requires e == d * s
    ensures (1 + e * e) * (1 + e * e + d * c) + 4 * (e * s)
        == ((1 + e) * (1 + e)) * ((1 - e) * (1 - e)) + d * (c * (1 + e * e) + 4 * (e * s) + 4 * (s * s))
  {
    var q := 1 + e * e;
    FourthPower(e);
    Distribute(q, q, d * c);
    MoveFactor(q, d, c);
    DistributeFour(d, c * q, e * s, s * s);
    assert d * (e * s) == e * e && d * (s * s) == e * s;
  }

  lemma DistributeFour(d: int, x: int, y: int, z: int)
    ensures d * (x + 4 * y + 4 * z) == d * x + 4 * (d * y) + 4 * (d * z)
  {
  }

  lemma FourthPower(e: int)
    ensures (1 + e * e) * (1 + e * e) == ((1 + e) * (1 + e)) * ((1 - e) * (1 - e)) + 4 * (e * e)
  {
    SquareOfProduct(1 + e, 1 - e);
    var r := e * e;
    assert (1 + e) * (1 - e) == 1 - r;
    assert (1 + r) * (1 + r) == (1 - r) * (1 - r) + 4 * r;
  }

  lemma Combine(a: int, b: int, c: int, s: int, e: int, d: int, p: int)
    requires p > 0 && e == d * s && Cong(a - b, 1 + e * e + d * c, p)
    requires Cong(a * b, c * (1 + e * e) + 4 * (e * s) + 4 * (s * s), p)
    ensures Cong((a + 2 * s) * ((1 + e) * (1 + e)) - (b + 2 * s) * ((1 - e) * (1 - e)),
              ((1 + e) * (1 + e)) * ((1 - e) * (1 - e)) + d * ((b + 2 * s) * (a + 2 * s)), p)
  {
    LeftSide(a, b, s, e);
    RightSide(a, b, s, e, d);
    ValuesFit(c, s, e, d);
    Fit((a + 2 * s) * ((1 + e) * (1 + e)) - (b + 2 * s) * ((1 - e) * (1 - e)), d * ((b + 2 * s) * (a + 2 * s)),
      1 + e * e, a - b, 1 + e * e + d * c, d, a * b, c * (1 + e * e) + 4 * (e * s) + 4 * (s * s),
      ((1 + e) * (1 + e)) * ((1 - e) * (1 - e)), e * (a + b), e * s, p);
  }

  lemma Fit(left: int, right: int, q: int, l: int, l': int, d: int, r: int, r': int, h: int, t: int, u: int, p: int)
    requires p > 0 && Cong(l, l', p) && Cong(r, r', p) && q * l' + 4 * u == h + d * r'
    requires left == q * l + 2 * t + 8 * u && right == d * r + 2 * t + 4 * u
    ensures Cong(left, h + right, p)
  {
    CongScale(q, l, l', p);
    CongScale(d, r, r', p);
    CongSym(d * r, d * r', p);
    var rest := 2 * t + 8 * u;
    CongRefl(rest, p);
    CongAdd(q * l, q * l', rest, rest, p);
    CongRefl(h + rest - 4 * u, p);
    CongAdd(d * r', d * r, h + rest - 4 * u, h + rest - 4 * u, p);
    CongTrans(left, q * l' + rest, h + right, p);
  }

  /** The squared numerators. */
  lemma Numerators(x1: int, y1: int, x2: int, y2: int)
    ensures var m1, n1, m2, n2, s := x1 * x1, y1 * y1, x2 * x2, y2 * y2, (x1 * x2) * (y1 * y2);
      && (x1 * y2 + x2 * y1) * (x1 * y2 + x2 * y1) == (m1 * n2 + m2 * n1) + 2 * s
      && (y1 * y2 + x1 * x2) * (y1 * y2 + x1 * x2) == (n1 * n2 + m1 * m2) + 2 * s
      && (m1 * n1) * (m2 * n2) == s * s
  {
    SquareOfSum(x1 * y2, x2 * y1);
    SquareOfSum(y1 * y2, x1 * x2);
    SquareOfProduct(x1, y2);
    SquareOfProduct(x2, y1);
    SquareOfProduct(y1, y2);
    SquareOfProduct(x1, x2);
    SquareOfProduct(x1 * x2, y1 * y2);
    assert (x1 * y2) * (x2 * y1) == (x1 * x2) * (y1 * y2);
    Regroup(x1 * x1, x2 * x2, y1 * y1, y2 * y2);
  }

  /** The equation of the curve for the sum, multiplied by the squares of the denominators. */
  lemma Multiplied(x1: int, y1: int, x2: int, y2: int, d: int, p: int)
    requires p > 0 && On(x1, y1, d, p) && On(x2, y2, d, p)
    ensures var x, y, e := x1 * y2 + x2 * y1, y1 * y2 + x1 * x2, Product(x1, y1, x2, y2, d);
      Cong((y * y) * ((1 + e) * (1 + e)) - (x * x) * ((1 - e) * (1 - e)),
        ((1 + e) * (1 + e)) * ((1 - e) * (1 - e)) + d * ((x * x) * (y * y)), p)
  {
    var m1, n1, m2, n2, s := x1 * x1, y1 * y1, x2 * x2, y2 * y2, (x1 * x2) * (y1 * y2);
    Numerators(x1, y1, x2, y2);
    DifferenceValue(m1, n1, m2, n2, s, d * s, d, p);
    ProductValue(m1, n1, m2, n2, s, d * s, d, p);
    Combine(n1 * n2 + m1 * m2, m1 * n2 + m2 * n1, m1 * n1 + m2 * n2, s, d * s, d, p);
  }

  lemma Scaled(z: int, h: int, x: int, f: int, p: int)
    requires p > 0 && Cong(z * h, x, p)
    ensures Cong((x * x) * f, ((z * z) * (h * h)) * f, p)
  {
    CongSquare(z * h, x, p);
    SquareOfProduct(z, h);
    CongScale(f, (z * z) * (h * h), x * x, p);
    CongSym(f * ((z * z) * (h * h)), f * (x * x), p);
  }

  lemma ScaledProduct(x3: int, y3: int, h: int, f: int, x: int, y: int, d: int, p: int)
    requires p > 0 && Cong(x3 * h, x, p) && Cong(y3 * f, y, p)
    ensures Cong(d * ((x * x) * (y * y)), (d * ((x3 * x3) * (y3 * y3))) * ((h * h) * (f * f)), p)
  {
    CongMul(x3 * h, x, y3 * f, y, p);
    CongSquare((x3 * h) * (y3 * f), x * y, p);
    CongScale(d, ((x3 * h) * (y3 * f)) * ((x3 * h) * (y3 * f)), (x * y) * (x * y), p);
    CongSym(d * (((x3 * h) * (y3 * f)) * ((x3 * h) * (y3 * f))), d * ((x * y) * (x * y)), p);
    SquareOfProduct(x, y);
    SquareOfProduct(x3 * h, y3 * f);
    SquareOfProduct(x3, h);
    SquareOfProduct(y3, f);
    Regroup(x3 * x3, h * h, y3 * y3, f * f);
    FourFactors(d, x3 * x3, y3 * y3, h * h, f * f);
  }

  lemma FourFactors(d: int, x: int, y: int, h: int, f: int)
    ensures d * ((x * h) * (y * f)) == (d * (x * y)) * (h * f)
  {
    Regroup(x, h, y, f);
    assert d * ((x * y) * (h * f)) == (d * (x * y)) * (h * f);
  }

  /** Dividing by the denominators. */
  lemma Divide(x3: int, y3: int, x: int, y: int, h: int, f: int, d: int, p: int)
    requires IsPrime(p) && !Cong(h, 0, p) && !Cong(f, 0, p) && Cong(x3 * h, x, p) && Cong(y3 * f, y, p)
    requires Cong((y * y) * (h * h) - (x * x) * (f * f), (h * h) * (f * f) + d * ((x * x) * (y * y)), p)
    ensures On(x3, y3, d, p)
  {
    var w := (h * h) * (f * f);
    var l, r := y3 * y3 - x3 * x3, 1 + d * ((x3 * x3) * (y3 * y3));
    LeftDivided(x3, y3, x, y, h, f, p);
    ScaledProduct(x3, y3, h, f, x, y, d, p);
    CongRefl(w, p);
    CongAdd(w, w, d * ((x * x) * (y * y)), (d * ((x3 * x3) * (y3 * y3))) * w, p);
    assert r * w == w + (d * ((x3 * x3) * (y3 * y3))) * w;
    CongTrans(l * w, (y * y) * (h * h) - (x * x) * (f * f), w + d * ((x * x) * (y * y)), p);
    CongTrans(l * w, w + d * ((x * x) * (y * y)), r * w, p);
    Cancel(l, r, h, f, p);
  }

  lemma LeftDivided(x3: int, y3: int, x: int, y: int, h: int, f: int, p: int)
    requires p > 0 && Cong(x3 * h, x, p) && Cong(y3 * f, y, p)
    ensures Cong((y3 * y3 - x3 * x3) * ((h * h) * (f * f)), (y * y) * (h * h) - (x * x) * (f * f), p)
  {
    var hh, ff, u, v := h * h, f * f, x3 * x3, y3 * y3;
    Scaled(y3, f, y, hh, p);
    Scaled(x3, h, x, ff, p);
    CongAdd((y * y) * hh, (v * ff) * hh, (x * x) * ff, (u * hh) * ff, p);
    CongSym((y * y) * hh - (x * x) * ff, (v * ff) * hh - (u * hh) * ff, p);
    Factored(v, u, hh, ff);
  }

  lemma Factored(v: int, u: int, h: int, f: int)
    ensures (v - u) * (h * f) == (v * f) * h - (u * h) * f
  {
    assert (v - u) * (h * f) == v * (h * f) - u * (h * f);
  }

  lemma Cancel(l: int, r: int, h: int, f: int, p: int)
    requires IsPrime(p) && !Cong(h, 0, p) && !Cong(f, 0, p) && Cong(l * ((h * h) * (f * f)), r * ((h * h) * (f * f)), p)
    ensures Cong(l, r, p)
  {
    var w := (h * h) * (f * f);
    CongZero(l * w, r * w, p);
    assert (l - r) * w == l * w - r * w;
    Euclid(p, l - r, w);
    if Cong(w, 0, p) {
      Euclid(p, h * h, f * f);
      if Cong(h * h, 0, p) { Euclid(p, h, h); } else { Euclid(p, f, f); }
    }
    CongFromZero(l, r, p);
  }

  /** The coordinates of a sum. */
  function SumX(x1: int, y1: int, x2: int, y2: int, d: int, p: int): int
    requires p > 2
  {
    (x1 * y2 + x2 * y1) * Inverse(1 + Product(x1, y1, x2, y2, d), p) % p
  }

  function SumY(x1: int, y1: int, x2: int, y2: int, d: int, p: int): int
    requires p > 2
  {
    (y1 * y2 + x1 * x2) * Inverse(1 - Product(x1, y1, x2, y2, d), p) % p
  }

  lemma ReducedQuotient(n: int, x: int, p: int)
    requires IsPrime(p) && p > 2 && !Cong(x, 0, p)
    ensures Cong((n * Inverse(x, p) % p) * x, n, p)
  {
    Quotient(n, x, p);
    var m := n * Inverse(x, p);
    CongMod(m, p);
    CongScale(x, m % p, m, p);
    CongTrans((m % p) * x, m * x, n, p);
  }

  lemma SumEquations(x1: int, y1: int, x2: int, y2: int, i: int, d: int, p: int)
    requires IsPrime(p) && p > 2 && NoSquare(d, p) && Cong(i * i, -1, p) && On(x1, y1, d, p) && On(x2, y2, d, p)
    ensures var e := Product(x1, y1, x2, y2, d);
      && Cong(SumX(x1, y1, x2, y2, d, p) * (1 + e), x1 * y2 + x2 * y1, p)
      && Cong(SumY(x1, y1, x2, y2, d, p) * (1 - e), y1 * y2 + x1 * x2, p)
  {
    Complete(x1, y1, x2, y2, i, d, p);
    var e := Product(x1, y1, x2, y2, d);
    ReducedQuotient(x1 * y2 + x2 * y1, 1 + e, p);
    ReducedQuotient(y1 * y2 + x1 * x2, 1 - e, p);
  }

  /** Sums of points of the curve are on the curve. */
  lemma SumOn(x1: int, y1: int, x2: int, y2: int, i: int, d: int, p: int)
    requires IsPrime(p) && p > 2 && NoSquare(d, p) && Cong(i * i, -1, p) && On(x1, y1, d, p) && On(x2, y2, d, p)
    ensures On(SumX(x1, y1, x2, y2, d, p), SumY(x1, y1, x2, y2, d, p), d, p)
  {
    var e := Product(x1, y1, x2, y2, d);
    Complete(x1, y1, x2, y2, i, d, p);
    Multiplied(x1, y1, x2, y2, d, p);
    SumEquations(x1, y1, x2, y2, i, d, p);
    Divide(SumX(x1, y1, x2, y2, d, p), SumY(x1, y1, x2, y2, d, p), x1 * y2 + x2 * y1, y1 * y2 + x1 * x2, 1 + e, 1 - e,
      d, p);
  }
}
