/** The points behind the Montgomery ladder: the curve b v^2 = u^3 + A u^2 + u modulo a prime, its chord-and-tangent
    addition, and the two laws of u-coordinates the ladder rests on, proved from it. Of the group law only
    associativity is taken as given. */
module MontgomeryCurve {
  import opened Wrappers
  import opened PyInts
  import opened ModArith
  import opened Clamp
  import opened X25519
  import opened Montgomery
  import DoubleAndAdd

  datatype Point = Infinity | Affine(u: int, v: int)

  function Cubic(u: int): int
  {
    (u * u) * u + A * (u * u) + u
  }

  ghost predicate OnCurve(q: Point, b: int, p: int)
    requires p > 0
  {
    q.Affine? ==> 0 <= q.u < p && 0 <= q.v < p && Cong(b * (q.v * q.v), Cubic(q.u), p)
  }

  /** The third point of the line with slope l through (u1, v1) and a point with coordinate u2, mirrored. */
  function Third(u1: int, v1: int, u2: int, l: int, b: int, p: int): Point
    requires p > 0
  {
    var u3 := (b * (l * l) - A - u1 - u2) % p;
    Affine(u3, (l * (u1 - u3) - v1) % p)
  }

  function Slope(q: Point, r: Point, b: int, p: int): int
    requires p > 2 && q.Affine? && r.Affine?
  {
    if q.u == r.u then (3 * (q.u * q.u) + 2 * A * q.u + 1) * Inverse(2 * b * q.v, p)
    else (r.v - q.v) * Inverse(r.u - q.u, p)
  }

  /** The chord-and-tangent addition. */
  function Add(q: Point, r: Point, b: int, p: int): Point
    requires p > 2
  {
    if q == Infinity then r
    else if r == Infinity then q
    else if q.u == r.u && (q.v + r.v) % p == 0 then Infinity
    else Third(q.u, q.v, r.u, Slope(q, r, b, p), b, p)
  }

  function Negate(q: Point, p: int): Point
    requires p > 0
  {
    if q == Infinity then q else Affine(q.u, (-q.v) % p)
  }

  // ---------------------------------------------------------------- congruences

  lemma CubicCong(x: int, y: int, p: int)
    requires p > 0 && Cong(x, y, p)
    ensures Cong(Cubic(x), Cubic(y), p)
  {
    CongSquare(x, y, p);
    CongMul(x * x, y * y, x, y, p);
    CongScale(A, x * x, y * y, p);
    CongAdd((x * x) * x, (y * y) * y, A * (x * x), A * (y * y), p);
    CongAdd((x * x) * x + A * (x * x), (y * y) * y + A * (y * y), x, y, p);
  }

  /** Two reduced numbers are equal if and only if they are congruent. */
  lemma ReducedEqual(x: int, y: int, p: int)
    requires 0 <= x < p && 0 <= y < p
    ensures Cong(x - y, 0, p) <==> x == y
  {
    if Cong(x - y, 0, p) {
      CongFromZero(x, y, p);
      CongReduced(x, y, p);
    } else {
      CongRefl(0, p);
    }
  }

  // ---------------------------------------------------------------- the sum is on the curve

  /** The linear part left when the line's cubic is divided by its three roots. */
  function Alpha(u1: int, u2: int, t: int, l: int, c: int, b: int): int
  {
    1 - 2 * (b * l * c) - (u1 * u2 + t * (u1 + u2))
  }

  function Beta(u1: int, u2: int, t: int, c: int, b: int): int
  {
    u1 * u2 * t - b * (c * c)
  }

  lemma LineCubic(x: int, u1: int, u2: int, l: int, c: int, b: int)
    ensures var t := b * (l * l) - A - u1 - u2; var w := l * x + c;
      Cubic(x) - b * (w * w) == (x - u1) * (x - u2) * (x - t) + Alpha(u1, u2, t, l, c, b) * x + Beta(u1, u2, t, c, b)
  {
    var t := b * (l * l) - A - u1 - u2;
    LineSquare(l, x, c);
    DistributeLine(b, l, c, x);
    ThreeRoots(x, u1, u2, t);
    SquareTerm(x * x, b * (l * l), u1, u2);
    AlphaTimes(2 * (b * l * c), u1 * u2 + t * (u1 + u2), x);
  }

  lemma LineSquare(l: int, x: int, c: int)
    ensures (l * x + c) * (l * x + c) == (l * l) * (x * x) + 2 * (l * c) * x + c * c
  {
    assert (l * x) * (l * x) == (l * l) * (x * x);
    assert (l * x) * c == (l * c) * x;
  }

  lemma AlphaTimes(k: int, y: int, x: int)
    ensures (1 - k - y) * x == x - k * x - y * x
  {
  }

  lemma SquareTerm(xx: int, bl: int, u1: int, u2: int)
    ensures var t := bl - A - u1 - u2; A * xx - bl * xx == -((u1 + u2 + t) * xx)
  {
  }

  lemma DistributeLine(b: int, l: int, c: int, x: int)
    ensures b * ((l * l) * (x * x) + 2 * (l * c) * x + c * c)
      == (b * (l * l)) * (x * x) + 2 * (b * l * c) * x + b * (c * c)
  {
    assert b * ((l * l) * (x * x)) == (b * (l * l)) * (x * x);
    assert b * (2 * (l * c) * x) == 2 * (b * l * c) * x;
  }

  lemma ThreeRoots(x: int, r: int, s: int, t: int)
    ensures (x - r) * (x - s) * (x - t) == (x * x) * x - (r + s + t) * (x * x) + (r * s + t * (r + s)) * x - r * s * t
  {
    var y := (x - r) * (x - s);
    assert y == x * x - (r + s) * x + r * s;
    assert y * (x - t) == y * x - y * t;
    assert y * x == (x * x) * x - (r + s) * (x * x) + (r * s) * x;
    assert y * t == t * (x * x) - (t * (r + s)) * x + r * s * t;
  }

  function Intercept(u: int, v: int, l: int): int
  {
    v - l * u
  }

  /** A point of the curve on the line: the remainder vanishes there. */
  lemma RootOfRemainder(x: int, v: int, u1: int, u2: int, l: int, c: int, b: int, p: int)
    requires p > 0 && Cong(b * (v * v), Cubic(x), p) && Cong(l * x + c, v, p) && (x == u1 || x == u2)
    ensures var t := b * (l * l) - A - u1 - u2; Cong(Alpha(u1, u2, t, l, c, b) * x + Beta(u1, u2, t, c, b), 0, p)
  {
    var t, w := b * (l * l) - A - u1 - u2, l * x + c;
    LineCubic(x, u1, u2, l, c, b);
    RootProduct(x, u1, u2, t);
    OnLine(x, v, w, b, p);
  }

  lemma RootProduct(x: int, u1: int, u2: int, t: int)
    requires x == u1 || x == u2
    ensures (x - u1) * (x - u2) * (x - t) == 0
  {
  }

  lemma OnLine(x: int, v: int, w: int, b: int, p: int)
    requires p > 0 && Cong(b * (v * v), Cubic(x), p) && Cong(w, v, p)
    ensures Cong(Cubic(x) - b * (w * w), 0, p)
  {
    CongSquare(w, v, p);
    CongScale(b, w * w, v * v, p);
    CongTrans(b * (w * w), b * (v * v), Cubic(x), p);
    CongZero(b * (w * w), Cubic(x), p);
    CongZero(Cubic(x), b * (w * w), p);
  }

  /** On a chord the remainder vanishes at two places, so its slope does. */
  lemma ChordAlpha(alpha: int, beta: int, u1: int, u2: int, p: int)
    requires IsPrime(p) && Cong(alpha * u1 + beta, 0, p) && Cong(alpha * u2 + beta, 0, p) && !Cong(u2 - u1, 0, p)
    ensures Cong(alpha, 0, p)
  {
    CongAdd(alpha * u2 + beta, 0, alpha * u1 + beta, 0, p);
    assert (u2 - u1) * alpha == (alpha * u2 + beta) - (alpha * u1 + beta);
    Euclid(p, u2 - u1, alpha);
  }

  /** On a tangent the slope of the remainder is the slope of the cubic minus that of the line. */
  lemma TangentAlpha(u: int, v: int, l: int, b: int)
    ensures Alpha(u, u, b * (l * l) - A - u - u, l, Intercept(u, v, l), b)
      == 3 * (u * u) + 2 * A * u + 1 - l * (2 * b * v)
  {
    var t, c := b * (l * l) - A - u - u, Intercept(u, v, l);
    assert b * l * c
      == b * l * v - (b * (l * l)) * u by { assert l * (l * u) == (l * l) * u; InterceptProduct(b, l, u, v); }
    assert t * (u + u) == 2 * ((b * (l * l)) * u) - 2 * A * u - 4 * (u * u) by { TangentSum(b * (l * l), u); }
    assert l * (2 * b * v) == 2 * (b * l * v);
  }

  lemma InterceptProduct(b: int, l: int, u: int, v: int)
    ensures b * l * (v - l * u) == b * l * v - (b * (l * l)) * u
  {
    assert b * l * (l * u) == (b * (l * l)) * u;
  }

  lemma TangentSum(bl: int, u: int)
    ensures (bl - A - u - u) * (u + u) == 2 * (bl * u) - 2 * A * u - 4 * (u * u)
  {
  }

  /** Where the slope of the remainder vanishes, the third point of the line is on the curve. */
  lemma ThirdOnCurve(u1: int, v1: int, u2: int, l: int, b: int, p: int)
    requires p > 0 && Cong(b * (v1 * v1), Cubic(u1), p)
    requires Cong(Alpha(u1, u2, b * (l * l) - A - u1 - u2, l, Intercept(u1, v1, l), b), 0, p)
    ensures OnCurve(Third(u1, v1, u2, l, b, p), b, p)
  {
    var t, c := b * (l * l) - A - u1 - u2, Intercept(u1, v1, l);
    var alpha, beta := Alpha(u1, u2, t, l, c, b), Beta(u1, u2, t, c, b);
    CongRefl(v1, p);
    RootOfRemainder(u1, v1, u1, u2, l, c, b, p);
    RemainderAt(alpha, beta, u1, t, p);
    LineCubic(t, u1, u2, l, c, b);
    var w := l * t + c;
    assert Cubic(t) - b * (w * w) == alpha * t + beta;
    CongFromZero(Cubic(t), b * (w * w), p);
    ReducedThird(u1, v1, t, l, w, b, p);
  }

  lemma RemainderAt(alpha: int, beta: int, u: int, t: int, p: int)
    requires p > 0 && Cong(alpha, 0, p) && Cong(alpha * u + beta, 0, p)
    ensures Cong(alpha * t + beta, 0, p)
  {
    CongScale(t - u, alpha, 0, p);
    CongAdd(alpha * u + beta, 0, (t - u) * alpha, (t - u) * 0, p);
    assert (alpha * u + beta) + (t - u) * alpha == alpha * t + beta;
  }

  lemma ReducedThird(u1: int, v1: int, t: int, l: int, w: int, b: int, p: int)
    requires p > 0 && Cong(Cubic(t), b * (w * w), p) && w == l * t + (v1 - l * u1)
    ensures var u3 := t % p; var v3 := (l * (u1 - u3) - v1) % p; Cong(b * (v3 * v3), Cubic(u3), p)
  {
    var u3 := t % p;
    var y := l * (u1 - u3) - v1;
    var v3 := y % p;
    CongMod(t, p);
    CongMod(y, p);
    CongScale(-l, u3, t, p);
    CongRefl(l * u1 - v1, p);
    CongAdd(-l * u3, -l * t, l * u1 - v1, l * u1 - v1, p);
    assert y == -l * u3 + (l * u1 - v1) && -w == -l * t + (l * u1 - v1);
    CongTrans(v3, y, -w, p);
    CongSquare(v3, -w, p);
    assert (-w) * (-w) == w * w;
    CongScale(b, v3 * v3, w * w, p);
    CubicCong(t, u3, p);
    CongSym(Cubic(t), b * (w * w), p);
    CongTrans(b * (v3 * v3), b * (w * w), Cubic(t), p);
    CongTrans(b * (v3 * v3), Cubic(t), Cubic(u3), p);
  }

  lemma DifferenceOfSquares(b: int, x: int, y: int)
    ensures b * (x * x) - b * (y * y) == b * ((x - y) * (x + y))
  {
    assert (x - y) * (x + y) == x * x - y * y;
  }

  /** The ordinates of two curve points with one u-coordinate are equal or opposite. */
  lemma Ordinates(q: Point, r: Point, b: int, p: int)
    requires IsPrime(p) && !Cong(b, 0, p) && OnCurve(q, b, p) && OnCurve(r, b, p) && q.Affine? && r.Affine?
      && q.u == r.u
    ensures q.v == r.v || (q.v + r.v) % p == 0
  {
    var x, y := q.v, r.v;
    CongSym(b * (y * y), Cubic(q.u), p);
    CongTrans(b * (x * x), Cubic(q.u), b * (y * y), p);
    CongZero(b * (x * x), b * (y * y), p);
    DifferenceOfSquares(b, x, y);
    Euclid(p, b, (x - y) * (x + y));
    Euclid(p, x - y, x + y);
    ReducedEqual(x, y, p);
    CongModEq(x + y, 0, p);
  }

  /** What a slope is: of the chord through two points ... */
  lemma ChordSlope(q: Point, r: Point, b: int, p: int)
    requires IsPrime(p) && p > 2 && OnCurve(q, b, p) && OnCurve(r, b, p) && q.Affine? && r.Affine? && q.u != r.u
    ensures !Cong(r.u - q.u, 0, p) && Cong(Slope(q, r, b, p) * (r.u - q.u), r.v - q.v, p)
  {
    ReducedEqual(r.u, q.u, p);
    Quotient(r.v - q.v, r.u - q.u, p);
  }

  /** ... or of the tangent at one, where it is not vertical. */
  lemma TangentSlope(q: Point, b: int, p: int)
    requires IsPrime(p) && p > 2 && !Cong(2, 0, p) && !Cong(b, 0, p) && OnCurve(q, b, p) && q.Affine?
      && (q.v + q.v) % p != 0
    ensures !Cong(2 * b * q.v, 0, p)
    ensures Cong(Slope(q, q, b, p) * (2 * b * q.v), 3 * (q.u * q.u) + 2 * A * q.u + 1, p)
  {
    CongModEq(q.v + q.v, 0, p);
    assert 2 * b * q.v == b * (q.v + q.v);
    if Cong(2 * b * q.v, 0, p) { Euclid(p, b, q.v + q.v); }
    Quotient(3 * (q.u * q.u) + 2 * A * q.u + 1, 2 * b * q.v, p);
  }

  /** A line through two points of the curve with different u-coordinates: the slope of the remainder vanishes. */
  lemma ChordRemainder(u1: int, v1: int, u2: int, v2: int, l: int, b: int, p: int)
    requires IsPrime(p) && Cong(b * (v1 * v1), Cubic(u1), p) && Cong(b * (v2 * v2), Cubic(u2), p)
    requires !Cong(u2 - u1, 0, p) && Cong(l * (u2 - u1), v2 - v1, p)
    ensures Cong(Alpha(u1, u2, b * (l * l) - A - u1 - u2, l, Intercept(u1, v1, l), b), 0, p)
  {
    var t, c := b * (l * l) - A - u1 - u2, Intercept(u1, v1, l);
    CongRefl(v1, p);
    CongAdd(l * (u2 - u1), v2 - v1, v1, v1, p);
    LineAt(l, u1, v1, u2);
    RootOfRemainder(u1, v1, u1, u2, l, c, b, p);
    RootOfRemainder(u2, v2, u1, u2, l, c, b, p);
    ChordAlpha(Alpha(u1, u2, t, l, c, b), Beta(u1, u2, t, c, b), u1, u2, p);
  }

  lemma LineAt(l: int, u1: int, v1: int, u2: int)
    ensures l * (u2 - u1) + v1 == l * u2 + Intercept(u1, v1, l)
  {
    assert l * (u2 - u1) == l * u2 - l * u1;
  }

  lemma ChordOnCurve(q: Point, r: Point, b: int, p: int)
    requires IsPrime(p) && p > 2 && OnCurve(q, b, p) && OnCurve(r, b, p) && q.Affine? && r.Affine? && q.u != r.u
    ensures OnCurve(Third(q.u, q.v, r.u, Slope(q, r, b, p), b, p), b, p)
  {
    var l := Slope(q, r, b, p);
    ChordSlope(q, r, b, p);
    ChordRemainder(q.u, q.v, r.u, r.v, l, b, p);
    ThirdOnCurve(q.u, q.v, r.u, l, b, p);
  }

  lemma TangentOnCurve(q: Point, b: int, p: int)
    requires IsPrime(p) && p > 2 && !Cong(2, 0, p) && !Cong(b, 0, p) && OnCurve(q, b, p) && q.Affine?
      && (q.v + q.v) % p != 0
    ensures OnCurve(Third(q.u, q.v, q.u, Slope(q, q, b, p), b, p), b, p)
  {
    var l := Slope(q, q, b, p);
    TangentSlope(q, b, p);
    CongZero(l * (2 * b * q.v), 3 * (q.u * q.u) + 2 * A * q.u + 1, p);
    CongZero(3 * (q.u * q.u) + 2 * A * q.u + 1, l * (2 * b * q.v), p);
    TangentAlpha(q.u, q.v, l, b);
    ThirdOnCurve(q.u, q.v, q.u, l, b, p);
  }

  /** The primes and curves considered: an odd prime and a curve without a singular point. */
  ghost predicate Proper(b: int, p: int)
  {
    IsPrime(p) && p > 2 && !Cong(2, 0, p) && !Cong(b, 0, p) && !Cong(A * A - 4, 0, p)
  }

  /** The sum of two points of the curve is on the curve. */
  lemma AddOnCurve(q: Point, r: Point, b: int, p: int)
    requires Proper(b, p) && OnCurve(q, b, p) && OnCurve(r, b, p)
    ensures OnCurve(Add(q, r, b, p), b, p)
  {
    if q.Affine? && r.Affine? {
      if q.u != r.u {
        ChordOnCurve(q, r, b, p);
      } else if (q.v + r.v) % p != 0 {
        Ordinates(q, r, b, p);
        assert q == r;
        TangentOnCurve(q, b, p);
      }
    }
  }

  // ---------------------------------------------------------------- doubling

  function Coordinate(q: Point): Option<int>
  {
    if q == Infinity then None else Some(q.u)
  }

  lemma DoubleZIsCubic(u: int)
    ensures DoubleX(u, 1) == (u * u - 1) * (u * u - 1) && DoubleZ(u, 1) == 4 * Cubic(u)
  {
    assert u * 1 == u && 1 * 1 == 1;
    assert u * (u * u + A * u + 1) == (u * u) * u + A * (u * u) + u;
  }

  /** At a root of the cubic u^2 is not 1. */
  lemma RootIsNoUnit(u: int, b: int, p: int)
    requires Proper(b, p) && Cong(Cubic(u), 0, p)
    ensures !Cong((u * u - 1) * (u * u - 1), 0, p)
  {
    if Cong((u * u - 1) * (u * u - 1), 0, p) {
      Euclid(p, u * u - 1, u * u - 1);
      CongFromZero(u * u, 1, p);
      UnitRoot(u, p);
    }
  }

  lemma DifferenceProduct(u: int)
    ensures (A - 2 * u) * (A + 2 * u) + 4 * (u * u) == A * A
  {
  }

  lemma CubicAtUnit(u: int, p: int)
    requires p > 0 && Cong(u * u, 1, p)
    ensures Cong(Cubic(u), A + 2 * u, p)
  {
    CongScale(u, u * u, 1, p);
    CongScale(A, u * u, 1, p);
    CongAdd(u * (u * u), u, A * (u * u), A, p);
    CongRefl(u, p);
    CongAdd(u * (u * u) + A * (u * u), u + A, u, u, p);
    assert u * (u * u) == (u * u) * u;
  }

  /** u (u^2 + A u + 1) and u^2 = 1 give A + 2 u, and its product with A - 2 u gives A^2 - 4. */
  lemma UnitRoot(u: int, p: int)
    requires p > 0 && Cong(Cubic(u), 0, p) && Cong(u * u, 1, p)
    ensures Cong(A * A - 4, 0, p)
  {
    CubicAtUnit(u, p);
    CongSym(Cubic(u), A + 2 * u, p);
    CongTrans(A + 2 * u, Cubic(u), 0, p);
    CongScale(A - 2 * u, A + 2 * u, 0, p);
    CongScale(4, u * u, 1, p);
    DifferenceProduct(u);
    CongAdd((A - 2 * u) * (A + 2 * u), 0, 4 * (u * u), 4, p);
    CongRefl(4, p);
    CongAdd(A * A, 4, 4, 4, p);
  }

  lemma OppositeSelf(v: int, p: int)
    requires IsPrime(p) && p > 2 && !Cong(2, 0, p) && 0 <= v < p && (v + v) % p == 0
    ensures v == 0
  {
    CongModEq(v + v, 0, p);
    assert 2 * v == v + v;
    Euclid(p, 2, v);
    CongRefl(0, p);
    CongReduced(v, 0, p);
  }

  lemma SquareOfThree(w: int, x: int)
    ensures (3 * w + 2 * x + 1) * (3 * w + 2 * x + 1) == 9 * (w * w) + 12 * (x * w) + 6 * w + 4 * (x * x) + 4 * x + 1
  {
    var n := 3 * w + 2 * x + 1;
    assert n * n == 3 * (w * n) + 2 * (x * n) + n;
    assert w * n == 3 * (w * w) + 2 * (x * w) + w;
    assert x * n == 3 * (x * w) + 2 * (x * x) + x;
  }

  lemma CubicTimes(k: int, u: int, a: int)
    ensures k * ((u * u) * u + a * (u * u) + u) == (k * u) * (u * u) + (k * a) * (u * u) + k * u
  {
    assert k * ((u * u) * u) == (k * u) * (u * u);
    assert k * (a * (u * u)) == (k * a) * (u * u);
  }

  lemma ScaledSquare(a: int, u: int)
    ensures (a * a) * (u * u) == (a * u) * (a * u) && (u * a) * (u * u) == (a * u) * (u * u)
  {
  }

  lemma SquareOfLess(w: int)
    ensures (w - 1) * (w - 1) == w * w - 2 * w + 1
  {
  }

  lemma SumTimesThree(a: int, u: int, c: int)
    ensures (a + u + u) * (4 * c) == 4 * (a * c) + 8 * (u * c)
  {
  }

  /** The core of the doubling law: n^2 - (A + 2 u) 4 (u^3 + A u^2 + u) = (u^2 - 1)^2 for n = 3 u^2 + 2 A u + 1. */
  lemma TangentIdentity(u: int)
    ensures var n := 3 * (u * u) + 2 * A * u + 1;
      n * n - (A + u + u) * (4 * Cubic(u)) == (u * u - 1) * (u * u - 1)
  {
    assert 2 * A * u == 2 * (A * u);
    SquareOfThree(u * u, A * u);
    SumTimesThree(A, u, Cubic(u));
    CubicTimes(A, u, A);
    CubicTimes(u, u, A);
    ScaledSquare(A, u);
    SquareOfLess(u * u);
  }

  /** The u-coordinate of a doubled point is the quotient of the doubling polynomials. */
  lemma DoublingLaw(q: Point, b: int, p: int)
    requires Proper(b, p) && OnCurve(q, b, p) && q.Affine?
    ensures Represents(DoubleX(q.u, 1), DoubleZ(q.u, 1), Coordinate(Add(q, q, b, p)), p)
  {
    DoubleZIsCubic(q.u);
    if (q.v + q.v) % p == 0 {
      OppositeSelf(q.v, p);
      VerticalTangent(q.u, b, p);
    } else {
      var l := Slope(q, q, b, p);
      TangentSlope(q, b, p);
      DoubledCoordinate(q.u, q.v, l, b, p);
    }
  }

  lemma VerticalTangent(u: int, b: int, p: int)
    requires Proper(b, p) && Cong(b * (0 * 0), Cubic(u), p)
    ensures Cong(4 * Cubic(u), 0, p) && !Cong((u * u - 1) * (u * u - 1), 0, p)
  {
    CongSym(0, Cubic(u), p);
    CongScale(4, Cubic(u), 0, p);
    RootIsNoUnit(u, b, p);
  }

  lemma DoubleDenominator(u: int, v: int, b: int, p: int)
    requires IsPrime(p) && Cong(b * (v * v), Cubic(u), p) && !Cong(2 * b * v, 0, p)
    ensures !Cong(4 * Cubic(u), 0, p) && Cong(4 * (b * (v * v)), 4 * Cubic(u), p)
  {
    CongScale(4, b * (v * v), Cubic(u), p);
    FourSquares(b, v);
    NotZero(v, b, p);
    if Cong(4 * Cubic(u), 0, p) {
      CongTrans(4 * (b * (v * v)), 4 * Cubic(u), 0, p);
      Euclid(p, 2 * v, 2 * b * v);
    }
  }

  lemma FourSquares(b: int, v: int)
    ensures 4 * (b * (v * v)) == (2 * v) * (2 * b * v)
  {
  }

  lemma DoubledCoordinate(u: int, v: int, l: int, b: int, p: int)
    requires Proper(b, p) && Cong(b * (v * v), Cubic(u), p) && !Cong(2 * b * v, 0, p)
    requires Cong(l * (2 * b * v), 3 * (u * u) + 2 * A * u + 1, p)
    ensures var u3 := (b * (l * l) - A - u - u) % p;
      !Cong(4 * Cubic(u), 0, p) && Cong((u * u - 1) * (u * u - 1), u3 * (4 * Cubic(u)), p)
  {
    var t, n, z := b * (l * l) - A - u - u, 3 * (u * u) + 2 * A * u + 1, 4 * Cubic(u);
    DoubleDenominator(u, v, b, p);
    CongSquare(l * (2 * b * v), n, p);
    SlopeSquare(l, b, v);
    TimesDenominator(b * (l * l), 4 * (b * (v * v)), z, n * n, A + u + u, p);
    TangentIdentity(u);
    assert (b * (l * l) - (A + u + u)) == t;
    ReducedFactor(t, z, (u * u - 1) * (u * u - 1), p);
  }

  /** From y w = m and w = z, y z - k z = m - k z. */
  lemma TimesDenominator(y: int, w: int, z: int, m: int, k: int, p: int)
    requires p > 0 && Cong(y * w, m, p) && Cong(w, z, p)
    ensures Cong((y - k) * z, m - k * z, p)
  {
    CongScale(y, w, z, p);
    CongSym(y * w, y * z, p);
    CongTrans(y * z, y * w, m, p);
    CongRefl(k * z, p);
    CongAdd(y * z, m, k * z, k * z, p);
    assert (y - k) * z == y * z - k * z;
  }

  lemma SlopeSquare(l: int, b: int, v: int)
    ensures (l * (2 * b * v)) * (l * (2 * b * v)) == (b * (l * l)) * (4 * (b * (v * v)))
  {
    var w := b * v;
    assert 2 * b * v == 2 * w && b * (v * v) == w * v;
    assert (l * (2 * w)) * (l * (2 * w)) == (l * l) * (4 * (w * w));
    assert (b * (l * l)) * (4 * (w * v)) == (l * l) * (4 * (b * (w * v)));
    assert b * (w * v) == w * w;
  }

  lemma NotZero(v: int, b: int, p: int)
    requires p > 0 && !Cong(2 * b * v, 0, p)
    ensures !Cong(2 * v, 0, p)
  {
    assert b * (2 * v) == 2 * b * v;
    if Cong(2 * v, 0, p) {
      CongScale(b, 2 * v, 0, p);
    }
  }

  lemma ReducedFactor(t: int, z: int, x: int, p: int)
    requires p > 0 && Cong(t * z, x, p)
    ensures Cong(x, (t % p) * z, p)
  {
    CongMod(t, p);
    CongRefl(z, p);
    CongMul(t % p, t, z, z, p);
    CongTrans((t % p) * z, t * z, x, p);
    CongSym((t % p) * z, x, p);
  }

  // ---------------------------------------------------------------- differential addition

  lemma ChordCoordinate(l: int, e: int, d: int, s: int, b: int, p: int)
    requires p > 0 && Cong(l * e, d, p)
    ensures Cong((b * (l * l) - A - s) * (e * e), b * (d * d) - (A + s) * (e * e), p)
  {
    CongSquare(l * e, d, p);
    CongScale(b, (l * e) * (l * e), d * d, p);
    SquaredSlope(l, e, b);
    CongRefl((A + s) * (e * e), p);
    CongAdd((b * (l * l)) * (e * e), b * (d * d), (A + s) * (e * e), (A + s) * (e * e), p);
    assert (b * (l * l) - A - s) * (e * e) == (b * (l * l)) * (e * e) - (A + s) * (e * e);
  }

  lemma SquaredSlope(l: int, e: int, b: int)
    ensures b * ((l * e) * (l * e)) == (b * (l * l)) * (e * e)
  {
    assert (l * e) * (l * e) == (l * l) * (e * e);
  }

  /** The product of the two numerators, in the squares of the ordinates alone. */
  lemma NumeratorProduct(v: int, w: int, k: int, b: int)
    ensures (b * ((w - v) * (w - v)) - k) * (b * ((w + v) * (w + v)) - k)
         == (b * (w * w) - b * (v * v)) * (b * (w * w) - b * (v * v)) - 2 * k * (b * (w * w) + b * (v * v)) + k * k
  {
    SquareOfSum(b, w, -v);
    SquareOfSum(b, w, v);
    MixedSquare(b, v, w);
    assert w * (-v) == -(w * v) && (-v) * (-v) == v * v;
    assert b * (-(w * v)) == -(b * (w * v));
    ProductOfShifted(b * (v * v), b * (w * w), b * (w * v), k);
  }

  lemma ProductOfShifted(x: int, y: int, h: int, k: int)
    requires h * h == x * y
    ensures (y + x - 2 * h - k) * (y + x + 2 * h - k) == (y - x) * (y - x) - 2 * k * (y + x) + k * k
  {
    var s := y + x - k;
    SquaresDiffer(s, 2 * h);
    assert (s - 2 * h) * (s + 2 * h) == s * s - 4 * (h * h);
    assert s * s == (y + x) * (y + x) - 2 * k * (y + x) + k * k;
    assert (y + x) * (y + x) - 4 * (x * y) == (y - x) * (y - x);
  }

  lemma SquareOfSum(b: int, w: int, v: int)
    ensures b * ((w + v) * (w + v)) == b * (w * w) + b * (v * v) + 2 * (b * (w * v))
  {
    assert (w + v) * (w + v) == w * w + v * v + 2 * (w * v);
  }

  lemma MixedSquare(b: int, v: int, w: int)
    ensures (b * (w * v)) * (b * (w * v)) == (b * (v * v)) * (b * (w * w))
  {
    assert (w * v) * (w * v) == (v * v) * (w * w);
    assert (b * (w * v)) * (b * (w * v)) == (b * b) * ((w * v) * (w * v));
    assert (b * (v * v)) * (b * (w * w)) == (b * b) * ((v * v) * (w * w));
  }

  /** The identity behind differential addition: r and s are the two coordinates. */
  lemma AdditionIdentity(r: int, s: int)
    ensures var ee, k := (r - s) * (r - s), A + r + s;
      (Cubic(r) - Cubic(s)) * (Cubic(r) - Cubic(s)) - 2 * (k * ee) * (Cubic(r) + Cubic(s)) + (k * ee) * (k * ee)
      == ee * ((s * r - 1) * (s * r - 1))
  {
    var e, k, m, q := r - s, A + r + s, r + s, s * r;
    var g, c := m * k - q + 1, m * m * k - 3 * (m * q) - 2 * (A * q) + m;
    CubicDifference(r, s);
    CubicSum(r, s);
    SquaredDifference(r, s);
    Bracket(A, m, k, q);
    Combine(Cubic(r) - Cubic(s), Cubic(r) + Cubic(s), e, g, c, k, (q - 1) * (q - 1));
  }

  lemma Combine(d: int, c: int, e: int, g: int, c': int, k: int, x: int)
    requires d == e * g && c == c' && g * g - 2 * k * c' + k * k * (e * e) == x
    ensures d * d - 2 * (k * (e * e)) * c + (k * (e * e)) * (k * (e * e)) == (e * e) * x
  {
    SquaredProduct(e, g);
    FactorBracket(e * e, g, k, c);
  }

  lemma SquaredDifference(r: int, s: int)
    ensures (r - s) * (r - s) == (r + s) * (r + s) - 4 * (s * r)
  {
  }

  lemma SquaredProduct(e: int, g: int)
    ensures (e * g) * (e * g) == (e * e) * (g * g)
  {
  }

  lemma FactorBracket(ee: int, g: int, k: int, c: int)
    ensures ee * (g * g) - 2 * (k * ee) * c + (k * ee) * (k * ee) == ee * (g * g - 2 * k * c + k * k * ee)
  {
    assert 2 * (k * ee) * c == ee * (2 * k * c);
    assert (k * ee) * (k * ee) == ee * (k * k * ee);
  }

  lemma CubicDifference(r: int, s: int)
    ensures Cubic(r) - Cubic(s) == (r - s) * ((r + s) * (A + r + s) - s * r + 1)
  {
    SquaresDiffer(r, s);
    CubeDifference(r, s);
    SumTimes(r, s);
    DistributeThree(r - s, A, r + s, r * r + s * r + s * s);
    SameFactor(r - s, (r + s) * (A + r + s) - s * r + 1, A * (r + s) + (r * r + s * r + s * s) + 1);
  }

  lemma SquaresDiffer(r: int, s: int)
    ensures (r - s) * (r + s) == r * r - s * s
  {
  }

  lemma SameFactor(e: int, x: int, y: int)
    requires x == y
    ensures e * x == e * y
  {
  }

  lemma DistributeThree(e: int, a: int, m: int, n: int)
    ensures e * (a * m + n + 1) == a * (e * m) + e * n + e
  {
    assert e * (a * m) == a * (e * m);
  }

  lemma SumTimes(r: int, s: int)
    ensures (r + s) * (A + r + s) - s * r == A * (r + s) + (r * r + s * r + s * s)
  {
  }

  lemma CubeDifference(r: int, s: int)
    ensures (r - s) * (r * r + s * r + s * s) == (r * r) * r - (s * s) * s
  {
    assert r * (s * r) == s * (r * r) && r * (s * s) == s * (s * r);
  }

  lemma CubicSum(r: int, s: int)
    ensures var m, q := r + s, s * r; Cubic(r) + Cubic(s) == m * m * (A + m) - 3 * (m * q) - 2 * (A * q) + m
  {
    SquareSum(r, s);
    CubeSum(r, s);
    SplitSum(r + s, A);
    ScaleSum(A, r * r, s * s, (r + s) * (r + s), s * r);
  }

  lemma SquareSum(r: int, s: int)
    ensures (r + s) * (r + s) == r * r + s * s + 2 * (s * r)
  {
  }

  lemma SplitSum(m: int, a: int)
    ensures m * m * (a + m) == a * (m * m) + m * m * m
  {
  }

  lemma ScaleSum(a: int, x: int, y: int, z: int, q: int)
    requires z == x + y + 2 * q
    ensures a * x + a * y == a * z - 2 * (a * q)
  {
  }

  lemma CubeSum(r: int, s: int)
    ensures (r + s) * (r + s) * (r + s) == (r * r) * r + (s * s) * s + 3 * ((r + s) * (s * r))
  {
    assert (r + s) * (r + s) == r * r + 2 * (s * r) + s * s;
    assert (r + s) * (r * r + 2 * (s * r) + s * s)
      == (r * r) * r + (s * s) * s + 3 * (r * (s * r)) + 3 * (s * (s * r)) by {
      assert s * (r * r) == r * (s * r) && r * (s * s) == s * (s * r);
    }
  }

  lemma Bracket(a: int, m: int, k: int, q: int)
    requires k == a + m
    ensures var g, c := m * k - q + 1, m * m * k - 3 * (m * q) - 2 * (a * q) + m;
      g * g - 2 * k * c + k * k * (m * m - 4 * q) == (q - 1) * (q - 1)
  {
    var g, c, x, y := m * k - q + 1, m * m * k - 3 * (m * q) - 2 * (a * q) + m, m * k, k * q;
    SquareOfShift(x, q);
    BracketSum(a, m, k, q);
    BracketTail(m, k, q);
    SplitFactor(a, m, k, q);
    assert 2 * k * c == 2 * (k * c);
  }

  lemma BracketTail(m: int, k: int, q: int)
    ensures k * k * (m * m - 4 * q) == (m * k) * (m * k) - 4 * (k * (k * q))
  {
    assert k * k * (m * m) == (m * k) * (m * k) && k * k * q == k * (k * q);
  }

  lemma SplitFactor(a: int, m: int, k: int, q: int)
    requires k == a + m
    ensures k * (k * q) == a * (k * q) + (m * k) * q
  {
    assert (m * k) * q == m * (k * q);
  }

  lemma SquareOfShift(x: int, q: int)
    ensures (x - q + 1) * (x - q + 1) == x * x - 2 * (x * q) + 2 * x + (q - 1) * (q - 1)
  {
    assert x - q + 1 == x - (q - 1);
  }

  lemma BracketSum(a: int, m: int, k: int, q: int)
    ensures k * (m * m * k - 3 * (m * q) - 2 * (a * q) + m)
      == (m * k) * (m * k) - 3 * ((m * k) * q) - 2 * (a * (k * q)) + m * k
  {
    assert k * (m * m * k) == (m * k) * (m * k);
    assert k * (m * q) == (m * k) * q && k * (a * q) == a * (k * q);
  }

  lemma NegateOnCurve(q: Point, b: int, p: int)
    requires p > 0 && OnCurve(q, b, p)
    ensures OnCurve(Negate(q, p), b, p)
  {
    if q.Affine? {
      var w := (-q.v) % p;
      CongMod(-q.v, p);
      CongSquare(w, -q.v, p);
      assert (-q.v) * (-q.v) == q.v * q.v;
      CongScale(b, w * w, q.v * q.v, p);
      CongTrans(b * (w * w), b * (q.v * q.v), Cubic(q.u), p);
    }
  }

  lemma NegateCancels(q: Point, b: int, p: int)
    requires p > 2
    ensures Add(q, Negate(q, p), b, p) == Infinity
  {
    if q.Affine? {
      CongMod(-q.v, p);
      CongRefl(q.v, p);
      CongAdd((-q.v) % p, -q.v, q.v, q.v, p);
      CongModEq(q.v + (-q.v) % p, 0, p);
    }
  }

  /** t1 and t2 belong to the chords to a point and to its mirror image; their product is free of the ordinates. */
  lemma ChordProduct(r: int, s: int, v: int, w: int, l1: int, l2: int, b: int, p: int)
    requires IsPrime(p) && !Cong(r - s, 0, p) && Cong(b * (v * v), Cubic(r), p) && Cong(b * (w * w), Cubic(s), p)
    requires Cong(l1 * (r - s), v - w, p) && Cong(l2 * (r - s), -v - w, p)
    ensures var t1, t2 := b * (l1 * l1) - A - s - r, b * (l2 * l2) - A - s - r;
      Cong((t1 * t2) * ((r - s) * (r - s)), (s * r - 1) * (s * r - 1), p)
  {
    var e, k := r - s, A + r + s;
    var ee, t1, t2 := e * e, b * (l1 * l1) - A - s - r, b * (l2 * l2) - A - s - r;
    ChordCoordinate(l1, e, v - w, s + r, b, p);
    ChordCoordinate(l2, e, -v - w, s + r, b, p);
    assert (-v - w) * (-v - w) == (v + w) * (v + w);
    var n1, n2 := b * ((v - w) * (v - w)) - k * ee, b * ((v + w) * (v + w)) - k * ee;
    CongMul(t1 * ee, n1, t2 * ee, n2, p);
    NumeratorProduct(w, v, k * ee, b);
    InCubics(b * (v * v), b * (w * w), Cubic(r), Cubic(s), k * ee, p);
    AdditionIdentity(r, s);
    CongTrans((t1 * ee) * (t2 * ee), n1 * n2, ee * ((s * r - 1) * (s * r - 1)), p);
    CancelSquare(ee, t1, t2, (s * r - 1) * (s * r - 1), e, p);
  }

  lemma InCubics(x: int, y: int, x': int, y': int, k: int, p: int)
    requires p > 0 && Cong(x, x', p) && Cong(y, y', p)
    ensures Cong((x - y) * (x - y) - 2 * k * (x + y) + k * k, (x' - y') * (x' - y') - 2 * k * (x' + y') + k * k, p)
  {
    CongAdd(x, x', y, y', p);
    CongSquare(x - y, x' - y', p);
    CongScale(2 * k, x + y, x' + y', p);
    CongAdd((x - y) * (x - y), (x' - y') * (x' - y'), 2 * k * (x + y), 2 * k * (x' + y'), p);
    CongRefl(k * k, p);
    CongAdd((x - y) * (x - y) - 2 * k * (x + y), (x' - y') * (x' - y') - 2 * k * (x' + y'), k * k, k * k, p);
  }

  lemma CancelSquare(ee: int, t1: int, t2: int, x: int, e: int, p: int)
    requires IsPrime(p) && ee == e * e && !Cong(e, 0, p) && Cong((t1 * ee) * (t2 * ee), ee * x, p)
    ensures Cong((t1 * t2) * ee, x, p)
  {
    CongZero((t1 * ee) * (t2 * ee), ee * x, p);
    FactorOut(ee, t1, t2, x);
    Euclid(p, ee, (t1 * t2) * ee - x);
    if Cong(ee, 0, p) { Euclid(p, e, e); }
    CongFromZero((t1 * t2) * ee, x, p);
  }

  lemma FactorOut(ee: int, t1: int, t2: int, x: int)
    ensures (t1 * ee) * (t2 * ee) - ee * x == ee * ((t1 * t2) * ee - x)
  {
    assert (t1 * ee) * (t2 * ee) == ee * ((t1 * t2) * ee);
  }

  /** Differential addition with one of the two points neutral. */
  lemma NeutralSummand(u: int, p: int)
    requires IsPrime(p) && !Cong(u, 0, p)
    ensures Represents(AddX(1, 0, u, 1), AddZ(u, 1, 0, u, 1), Some(u), p)
    ensures Represents(AddX(u, 1, 1, 0), AddZ(u, u, 1, 1, 0), Some(u), p)
  {
    assert 1 * u - 0 * 1 == u && u * 0 - 1 * 1 == -1 && u * 1 - 1 * 0 == u && 1 * 1 - 0 * u == 1;
    assert u * (-1 * -1) == u && u * (1 * 1) == u;
    CongRefl(u * u, p);
  }

  lemma ChordParts(r: Point, s: Point, b: int, p: int)
    requires Proper(b, p) && OnCurve(r, b, p) && OnCurve(s, b, p) && r.Affine? && s.Affine? && r.u != s.u
    ensures var l := Slope(s, r, b, p);
      Add(s, r, b, p).Affine? && Add(s, r, b, p).u == (b * (l * l) - A - s.u - r.u) % p
        && Cong(l * (r.u - s.u), r.v - s.v, p)
  {
    ChordSlope(s, r, b, p);
  }

  lemma NegatedChord(r: Point, s: Point, b: int, p: int)
    requires Proper(b, p) && OnCurve(r, b, p) && OnCurve(s, b, p) && r.Affine? && s.Affine? && r.u != s.u
    ensures var l := Slope(s, Negate(r, p), b, p); var d := Add(s, Negate(r, p), b, p);
      d.Affine? && d.u == (b * (l * l) - A - s.u - r.u) % p && Cong(l * (r.u - s.u), -r.v - s.v, p)
  {
    var n := Negate(r, p);
    NegateOnCurve(r, b, p);
    ChordParts(n, s, b, p);
    CongMod(-r.v, p);
    CongRefl(s.v, p);
    CongAdd(n.v, -r.v, s.v, s.v, p);
    CongTrans(Slope(s, n, b, p) * (r.u - s.u), n.v - s.v, -r.v - s.v, p);
  }

  lemma ProductOfReduced(t1: int, t2: int, y: int, x: int, p: int)
    requires p > 0 && Cong((t1 * t2) * y, x, p)
    ensures Cong(x, (t1 % p) * ((t2 % p) * y), p)
  {
    CongMod(t1, p);
    CongMod(t2, p);
    CongMul(t1 % p, t1, t2 % p, t2, p);
    CongRefl(y, p);
    CongMul((t1 % p) * (t2 % p), t1 * t2, y, y, p);
    CongTrans(((t1 % p) * (t2 % p)) * y, (t1 * t2) * y, x, p);
    CongSym(((t1 % p) * (t2 % p)) * y, x, p);
    Associate(t1 % p, t2 % p, y);
  }

  lemma Associate(x: int, y: int, z: int)
    ensures (x * y) * z == x * (y * z)
  {
  }

  lemma AddForms(d: int, r: int, s: int)
    ensures AddX(r, 1, s, 1) == (s * r - 1) * (s * r - 1) && AddZ(d, r, 1, s, 1) == d * ((r - s) * (r - s))
  {
    assert r * s - 1 * 1 == s * r - 1 && s * 1 - 1 * r == -(r - s);
    assert (-(r - s)) * (-(r - s)) == (r - s) * (r - s);
  }

  lemma NonzeroProduct(d: int, e: int, p: int)
    requires IsPrime(p) && !Cong(d, 0, p) && !Cong(e, 0, p)
    ensures !Cong(d * (e * e), 0, p)
  {
    if Cong(d * (e * e), 0, p) {
      Euclid(p, d, e * e);
      Euclid(p, e, e);
    }
  }

  lemma DifferentChord(r: Point, s: Point, b: int, p: int)
    requires Proper(b, p) && OnCurve(r, b, p) && OnCurve(s, b, p) && r.Affine? && s.Affine? && r.u != s.u
    requires var d := Add(s, Negate(r, p), b, p); d.Affine? && !Cong(d.u, 0, p)
    ensures Represents(AddX(r.u, 1, s.u, 1), AddZ(Add(s, Negate(r, p), b, p).u, r.u, 1, s.u, 1),
      Coordinate(Add(s, r, b, p)), p)
  {
    var d, l1, l2 := Add(s, Negate(r, p), b, p), Slope(s, r, b, p), Slope(s, Negate(r, p), b, p);
    ChordParts(r, s, b, p);
    NegatedChord(r, s, b, p);
    ReducedEqual(r.u, s.u, p);
    ChordProduct(r.u, s.u, r.v, s.v, l1, l2, b, p);
    ProductOfReduced(b * (l1 * l1) - A - s.u - r.u, b * (l2 * l2) - A - s.u - r.u, (r.u - s.u) * (r.u - s.u),
      (s.u * r.u - 1) * (s.u * r.u - 1), p);
    AddForms(d.u, r.u, s.u);
    NonzeroProduct(d.u, r.u - s.u, p);
  }

  /** Two points with one u-coordinate: they are opposite, and their sum is neutral. */
  lemma OppositePoints(r: Point, s: Point, b: int, p: int)
    requires Proper(b, p) && OnCurve(r, b, p) && OnCurve(s, b, p) && r.Affine? && s.Affine? && r.u == s.u
    requires var d := Add(s, Negate(r, p), b, p); d.Affine? && !Cong(d.u, 0, p)
    ensures Add(s, r, b, p) == Infinity
    ensures Represents(AddX(r.u, 1, s.u, 1), AddZ(Add(s, Negate(r, p), b, p).u, r.u, 1, s.u, 1), None, p)
  {
    Ordinates(s, r, b, p);
    if s.v == r.v { NegateCancels(s, b, p); }
    assert Add(s, r, b, p) == Infinity;
    OppositeIsNegation(r, s, p);
    DoublingLaw(s, b, p);
    DoubleZIsCubic(s.u);
    var d, x := Add(s, s, b, p), (s.u * s.u - 1) * (s.u * s.u - 1);
    AddForms(d.u, r.u, s.u);
    CongRefl(0, p);
    assert d.u * ((r.u - s.u) * (r.u - s.u)) == 0;
    if Cong(x, 0, p) {
      CongSym(x, d.u * (4 * Cubic(s.u)), p);
      CongTrans(d.u * (4 * Cubic(s.u)), x, 0, p);
      Euclid(p, d.u, 4 * Cubic(s.u));
    }
  }

  lemma OppositeIsNegation(r: Point, s: Point, p: int)
    requires p > 2 && r.Affine? && s.Affine? && r.u == s.u && 0 <= s.v < p && (s.v + r.v) % p == 0
    ensures Negate(r, p) == s
  {
    NegativeResidue(s.v, r.v, p);
  }

  lemma NegativeResidue(v: int, w: int, p: int)
    requires 0 <= v < p && (v + w) % p == 0
    ensures (-w) % p == v
  {
    CongModEq(v + w, 0, p);
    CongRefl(w, p);
    CongAdd(v + w, 0, w, w, p);
    CongMod(-w, p);
    CongSym(v, -w, p);
    CongTrans((-w) % p, -w, v, p);
    CongReduced((-w) % p, v, p);
  }

  /** The u-coordinate of a sum, from those of the summands and of their difference. */
  lemma DifferentialLaw(r: Point, s: Point, b: int, p: int)
    requires Proper(b, p) && OnCurve(r, b, p) && OnCurve(s, b, p)
    requires var d := Add(s, Negate(r, p), b, p); d.Affine? && !Cong(d.u, 0, p)
    ensures var d, o, q := Add(s, Negate(r, p), b, p), Coordinate(r), Coordinate(s);
      Represents(AddX(NormX(o), NormZ(o), NormX(q), NormZ(q)), AddZ(d.u, NormX(o), NormZ(o), NormX(q), NormZ(q)),
        Coordinate(Add(s, r, b, p)), p)
  {
    if r == Infinity {
      NeutralSummand(s.u, p);
    } else if s == Infinity {
      NeutralSummand(r.u, p);
    } else if r.u != s.u {
      DifferentChord(r, s, b, p);
    } else {
      OppositePoints(r, s, b, p);
    }
  }

  // ---------------------------------------------------------------- the multiples of a point

  /** The addition of the curve with factor b, modulo p. */
  function AddOn(b: int, p: int): (Point, Point) -> Point
    requires p > 2
  {
    (q, r) => Add(q, r, b, p)
  }

  /** Addition associates on the curve: the part of the group law taken as given. */
  ghost predicate Associative(b: int, p: int)
    requires p > 2
  {
    forall q, r, s | OnCurve(q, b, p) && OnCurve(r, b, p) && OnCurve(s, b, p) ::
      Add(Add(q, r, b, p), s, b, p) == Add(q, Add(r, s, b, p), b, p)
  }

  /** It does so on every curve of the family. */
  ghost predicate GroupLaw(p: int)
    requires p > 2
  {
    forall b | !Cong(b, 0, p) :: Associative(b, p)
  }

  ghost function NTimes(q: Point, b: int, p: int, n: nat): Point
    requires p > 2
  {
    DoubleAndAdd.Fold(AddOn(b, p), Infinity, q, n)
  }

  /** The u-coordinates of the multiples. */
  ghost function Coordinates(q: Point, b: int, p: int): nat -> Option<int>
    requires p > 2
  {
    (n: nat) => Coordinate(NTimes(q, b, p, n))
  }

  lemma ProperPrime(b: int)
    requires IsPrime(P) && !Cong(b, 0, P)
    ensures Proper(b, P)
  {
    CongModEq(2, 0, P);
    CongModEq(A * A - 4, 0, P);
  }

  lemma {:induction false} MultipleOnCurve(q: Point, b: int, p: int, n: nat)
    requires Proper(b, p) && OnCurve(q, b, p)
    ensures OnCurve(NTimes(q, b, p, n), b, p)
  {
    if n > 0 {
      MultipleOnCurve(q, b, p, n - 1);
      AddOnCurve(NTimes(q, b, p, n - 1), q, b, p);
    }
  }

  lemma LawsOnMultiples(q: Point, b: int, p: int)
    requires Proper(b, p) && OnCurve(q, b, p) && Associative(b, p)
    ensures DoubleAndAdd.Laws(AddOn(b, p), Infinity, q)
  {
    forall i: nat ensures DoubleAndAdd.RightIdentity(AddOn(b, p), Infinity, q, i) {}
    forall i: nat, j: nat, k: nat ensures DoubleAndAdd.Associates(AddOn(b, p), Infinity, q, i, j, k) {
      MultipleOnCurve(q, b, p, i);
      MultipleOnCurve(q, b, p, j);
      MultipleOnCurve(q, b, p, k);
    }
  }

  lemma MultipleSum(q: Point, b: int, p: int, m: nat, n: nat)
    requires Proper(b, p) && OnCurve(q, b, p) && Associative(b, p)
    ensures NTimes(q, b, p, m + n) == Add(NTimes(q, b, p, m), NTimes(q, b, p, n), b, p)
  {
    LawsOnMultiples(q, b, p);
    DoubleAndAdd.FoldSum(AddOn(b, p), Infinity, q, m, n);
  }

  /** The multiple m is the difference of the multiples n + m and n. */
  lemma MultipleDifference(q: Point, b: int, p: int, m: nat, n: nat)
    requires Proper(b, p) && OnCurve(q, b, p) && Associative(b, p)
    ensures Add(NTimes(q, b, p, n + m), Negate(NTimes(q, b, p, n), p), b, p) == NTimes(q, b, p, m)
  {
    var d, r := NTimes(q, b, p, m), NTimes(q, b, p, n);
    MultipleSum(q, b, p, m, n);
    MultipleOnCurve(q, b, p, m);
    MultipleOnCurve(q, b, p, n);
    NegateOnCurve(r, b, p);
    NegateCancels(r, b, p);
  }

  lemma NeutralHolds(q: Point, b: int, p: int, m: nat, n: nat)
    requires Proper(b, p) && OnCurve(q, b, p) && Associative(b, p)
    ensures Neutral(Coordinates(q, b, p), m, n)
  {
    MultipleSum(q, b, p, n, m);
  }

  lemma DoublingHolds(q: Point, b: int, p: int, n: nat)
    requires Proper(b, p) && OnCurve(q, b, p) && Associative(b, p)
    ensures Doubling(Coordinates(q, b, p), n, p)
  {
    var r := NTimes(q, b, p, n);
    MultipleSum(q, b, p, n, n);
    MultipleOnCurve(q, b, p, n);
    if r == Infinity {
      DoubledNeutral(p);
    } else {
      DoublingLaw(r, b, p);
    }
  }

  lemma DoubledNeutral(p: int)
    requires IsPrime(p)
    ensures Represents(DoubleX(1, 0), DoubleZ(1, 0), None, p)
  {
    CongRefl(0, p);
    CongModEq(1, 0, p);
    assert DoubleX(1, 0) == 1 && DoubleZ(1, 0) == 0;
  }

  lemma DifferentialAt(xs: nat -> Option<int>, m: nat, n: nat, d: Point, r: Point, s: Point, t: Point, p: int)
    requires p > 0 && xs(m) == Coordinate(d) && xs(n) == Coordinate(r) && xs(n + m) == Coordinate(s)
      && xs(2 * n + m) == Coordinate(t)
    requires d.Affine? && d.u != 0 ==> var o, q := Coordinate(r), Coordinate(s);
      Represents(AddX(NormX(o), NormZ(o), NormX(q), NormZ(q)), AddZ(d.u, NormX(o), NormZ(o), NormX(q), NormZ(q)),
        Coordinate(t), p)
    ensures DifferentialAddition(xs, m, n, p)
  {
  }

  /** Three points of the curve, the last the difference of the others. */
  ghost predicate Triple(r: Point, s: Point, d: Point, b: int, p: int)
  {
    Proper(b, p) && OnCurve(r, b, p) && OnCurve(s, b, p) && OnCurve(d, b, p) && Add(s, Negate(r, p), b, p) == d
  }

  /** The points of a differential addition among the multiples. */
  ghost predicate MultipleTriple(q: Point, b: int, p: int, m: nat, n: nat)
    requires p > 2
  {
    var d, r, s := NTimes(q, b, p, m), NTimes(q, b, p, n), NTimes(q, b, p, n + m);
    Triple(r, s, d, b, p) && Add(s, r, b, p) == NTimes(q, b, p, 2 * n + m)
  }

  lemma DifferentialPoints(q: Point, b: int, p: int, m: nat, n: nat)
    requires Proper(b, p) && OnCurve(q, b, p) && Associative(b, p)
    ensures MultipleTriple(q, b, p, m, n)
  {
    MultipleOnCurve(q, b, p, m);
    MultipleOnCurve(q, b, p, n);
    MultipleOnCurve(q, b, p, n + m);
    MultipleDifference(q, b, p, m, n);
    MultipleSum(q, b, p, n + m, n);
    assert (n + m) + n == 2 * n + m;
  }

  lemma DifferentialAmong(q: Point, b: int, p: int, m: nat, n: nat)
    requires p > 2 && MultipleTriple(q, b, p, m, n) == true
    ensures DifferentialAddition(Coordinates(q, b, p), m, n, p)
  {
    var d, r, s := NTimes(q, b, p, m), NTimes(q, b, p, n), NTimes(q, b, p, n + m);
    DifferentialOfPoints(r, s, d, b, p);
    DifferentialAt(Coordinates(q, b, p), m, n, d, r, s, Add(s, r, b, p), p);
  }

  lemma DifferentialHolds(q: Point, b: int, p: int, m: nat, n: nat)
    requires Proper(b, p) && OnCurve(q, b, p) && Associative(b, p)
    ensures DifferentialAddition(Coordinates(q, b, p), m, n, p)
  {
    DifferentialPoints(q, b, p, m, n);
    DifferentialAmong(q, b, p, m, n);
  }

  lemma DifferentialOfPoints(r: Point, s: Point, d: Point, b: int, p: int)
    requires Triple(r, s, d, b, p) == true
    ensures d.Affine? && d.u != 0 ==> var o, q := Coordinate(r), Coordinate(s);
      Represents(AddX(NormX(o), NormZ(o), NormX(q), NormZ(q)), AddZ(d.u, NormX(o), NormZ(o), NormX(q), NormZ(q)),
        Coordinate(Add(s, r, b, p)), p)
  {
    if d.Affine? && d.u != 0 {
      NonzeroResidue(d.u, p);
      DifferentialLaw(r, s, b, p);
    }
  }

  lemma NonzeroResidue(u: int, p: int)
    requires 0 < u < p
    ensures !Cong(u, 0, p)
  {
    CongModEq(u, 0, p);
  }

  /** The u-coordinates of the multiples of a point of the curve obey the laws the ladder rests on. */
  lemma MultiplesObey(q: Point, b: int)
    requires Proper(b, P) && OnCurve(q, b, P) && Associative(b, P)
    ensures MontgomeryMultiples(Coordinates(q, b, P), P)
  {
    var xs := Coordinates(q, b, P);
    forall n: nat ensures xs(n).Some? ==> 0 <= xs(n).value < P { MultipleOnCurve(q, b, P, n); }
    forall m: nat, n: nat ensures Neutral(xs, m, n) { NeutralHolds(q, b, P, m, n); }
    forall n: nat ensures Doubling(xs, n, P) { DoublingHolds(q, b, P, n); }
    forall m: nat, n: nat ensures DifferentialAddition(xs, m, n, P) { DifferentialHolds(q, b, P, m, n); }
  }

  // ---------------------------------------------------------------- what X25519 computes

  /** The factor of a curve that has a point with this u-coordinate: 1 at the roots of the cubic. */
  function Factor(u: int): int
  {
    if Cubic(u) % P == 0 then 1 else Cubic(u) % P
  }

  /** A point with this u-coordinate, on the curve with that factor. */
  function PointAt(u: int): Point
  {
    Affine(u, if Cubic(u) % P == 0 then 0 else 1)
  }

  /** Every coordinate belongs to a point. */
  lemma EveryCoordinate(u: int)
    requires IsPrime(P) && 0 <= u < P
    ensures Proper(Factor(u), P) && OnCurve(PointAt(u), Factor(u), P)
  {
    var c := Cubic(u) % P;
    CongModEq(Cubic(u), 0, P);
    CongMod(Cubic(u), P);
    CongModEq(Factor(u), 0, P);
    if c == 0 { CongSym(Cubic(u), 0, P); }
    assert Factor(u) * (1 * 1) == Factor(u) && Factor(u) * (0 * 0) == 0;
    ProperPrime(Factor(u));
  }

  lemma FirstMultiple(q: Point, b: int, p: int)
    requires p > 2
    ensures Coordinates(q, b, p)(1) == Coordinate(q)
  {
    assert NTimes(q, b, p, 1) == Add(NTimes(q, b, p, 0), q, b, p);
  }

  /** For every 32-byte scalar and every point string, X25519 computes the u-coordinate of the clamped multiple of the
      point whose u-coordinate is the string modulo p, and 0 for the neutral element. */
  lemma X25519IsScalarMultiple(scalar: Bytes, point: Bytes)
    requires |scalar| == 32 && IsPrime(P) && GroupLaw(P)
    ensures var u := FromLE(point) % P;
      ScalarMult(scalar, point) == Coord(Coordinate(NTimes(PointAt(u), Factor(u), P, ClampInt(FromLE(scalar)))))
  {
    var u := FromLE(point) % P;
    EveryCoordinate(u);
    MultiplesObey(PointAt(u), Factor(u));
    FirstMultiple(PointAt(u), Factor(u), P);
    LadderIsMultiple(scalar, point, Coordinates(PointAt(u), Factor(u), P));
  }

  /** Both parties of the exchange obtain the same shared value. */
  lemma KeyAgreement(a: Bytes, b: Bytes)
    requires |a| == 32 && |b| == 32 && IsPrime(P) && GroupLaw(P)
    ensures X25519Spec(a, X25519Base(b)) == X25519Spec(b, X25519Base(a))
  {
    EveryCoordinate(9);
    MultiplesObey(PointAt(9), Factor(9));
    FirstMultiple(PointAt(9), Factor(9), P);
    SharedSecret(a, b, Coordinates(PointAt(9), Factor(9), P));
  }

  // ---------------------------------------------------------------- the top bit of the point string

  /** The string with its top bit masked, as section 5 of RFC 7748 has it read. */
  function Masked(point: Bytes): Bytes
    requires |point| == 32
  {
    point[31 := point[31] % 128]
  }

  lemma {:induction false} ReplaceLast(bs: Bytes, n: nat, last: Byte)
    requires |bs| == n + 1
    ensures FromLE(bs) == FromLE(bs[n := last]) + (bs[n] - last) * Pow256(n)
    decreases n
  {
    var bs' := bs[n := last];
    if n == 0 {
      assert bs[1..] == [] && bs'[1..] == [];
    } else {
      ReplaceLast(bs[1..], n - 1, last);
      assert bs'[1..] == bs[1..][n - 1 := last];
      ScaleBy256(bs[n] - last, Pow256(n - 1));
    }
  }

  lemma ScaleBy256(x: int, y: int)
    ensures 256 * (x * y) == x * (256 * y)
  {
  }

  /** The code reads the top bit: with it set, the coordinate is that of the masked string plus 19, so the two readings
      agree exactly on the strings without it. */
  lemma TopBitIsRead(point: Bytes)
    requires |point| == 32
    ensures point[31] < 128 ==> Masked(point) == point
    ensures point[31] >= 128 ==> FromLE(point) % P == (FromLE(Masked(point)) + 19) % P
    ensures FromLE(point) % P == FromLE(Masked(point)) % P <==> point[31] < 128
  {
    if point[31] >= 128 {
      ReplaceLast(point, 31, point[31] - 128);
      Pow256At31();
      ShiftedResidue(FromLE(point), FromLE(Masked(point)), 19, P);
    }
  }

  lemma ShiftedResidue(x: int, y: int, k: int, p: int)
    requires 0 < k < p && x == y + k + p
    ensures x % p == (y + k) % p && x % p != y % p
  {
    OneModulusMore(x, y + k, p);
    if (y + k) % p == y % p {
      CongModEq(y + k, y, p);
      CongZero(y + k, y, p);
      CongReduced(k, 0, p);
    }
  }

  lemma OneModulusMore(x: int, y: int, p: int)
    requires p > 0 && x == y + p
    ensures x % p == y % p
  {
    CongIntro(x, y, 1, p);
    CongModEq(x, y, p);
  }

  lemma Pow256At31()
    ensures 128 * Pow256(31) == P + 19
  {
    assert Pow256(8) == 0x1_0000_0000_0000_0000;
    assert Pow256(16) == 0x1_0000_0000_0000_0000_0000_0000_0000_0000;
    assert Pow256(24) == 0x1_0000_0000_0000_0000_0000_0000_0000_0000_0000_0000_0000_0000;
  }

  /** A string the two readings take apart: all zero but for the top bit, read as 0 by the one and as 19 by the code. */
  lemma TopBitMatters(point: Bytes)
    requires |point| == 32 && point[31] == 128 && forall i | 0 <= i < 31 :: point[i] == 0
    ensures FromLE(Masked(point)) % P == 0 && FromLE(point) % P == 19
  {
    AllZero(Masked(point));
    TopBitIsRead(point);
  }

  lemma {:induction false} AllZero(bs: Bytes)
    requires forall i | 0 <= i < |bs| :: bs[i] == 0
    ensures FromLE(bs) == 0
  {
    if bs != [] { AllZero(bs[1..]); }
  }
}
