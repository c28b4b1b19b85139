/** What the Montgomery ladder computes.

    `xs(n)` is the u-coordinate of the n-th multiple of a point, None for the neutral element.
    `MontgomeryMultiples` states the laws the u-coordinates of multiples satisfy; module MontgomeryCurve proves them. */
module Montgomery {
  import opened Wrappers
  import opened PyInts
  import opened ModArith
  import opened Clamp
  import opened X25519

  /** The projective pair (x : z) stands for the u-coordinate o, or for the neutral element. */
  ghost predicate Represents(x: int, z: int, o: Option<int>, p: int)
    requires p > 0
  {
    match o
    case None => Cong(z, 0, p) && !Cong(x, 0, p)
    case Some(u) => !Cong(z, 0, p) && Cong(x, u * z, p)
  }

  /** The doubling polynomials in the u-coordinate alone. */
  function DoubleX(x: int, z: int): int { (x * x - z * z) * (x * x - z * z) }
  function DoubleZ(x: int, z: int): int { 4 * (x * z) * (x * x + A * (x * z) + z * z) }

  /** Differential addition: the sum of two points whose difference has u-coordinate d. */
  function AddX(x2: int, z2: int, x3: int, z3: int): int { (x2 * x3 - z2 * z3) * (x2 * x3 - z2 * z3) }
  function AddZ(d: int, x2: int, z2: int, x3: int, z3: int): int { d * ((x3 * z2 - z3 * x2) * (x3 * z2 - z3 * x2)) }

  /** The pair with z = 1, or (1 : 0). */
  function NormX(o: Option<int>): int { if o.Some? then o.value else 1 }
  function NormZ(o: Option<int>): int { if o.Some? then 1 else 0 }

  /** The laws of the multiples of one point, in affine form. */
  ghost predicate MontgomeryMultiples(xs: nat -> Option<int>, p: int)
    requires p > 0
  {
    && xs(0) == None
    && (forall n: nat :: xs(n).Some? ==> 0 <= xs(n).value < p)
    && (forall m: nat, n: nat :: Neutral(xs, m, n))
    && (forall n: nat :: Doubling(xs, n, p))
    && (forall m: nat, n: nat :: DifferentialAddition(xs, m, n, p))
  }

  ghost predicate Neutral(xs: nat -> Option<int>, m: nat, n: nat)
  {
    xs(m) == None ==> xs(n + m) == xs(n)
  }

  ghost predicate Doubling(xs: nat -> Option<int>, n: nat, p: int)
    requires p > 0
  {
    var q := xs(n);
    Represents(DoubleX(NormX(q), NormZ(q)), DoubleZ(NormX(q), NormZ(q)), xs(2 * n), p)
  }

  /** Adding the n-th and the (n+m)-th multiple, whose difference [m]P has a finite non-zero coordinate. */
  ghost predicate DifferentialAddition(xs: nat -> Option<int>, m: nat, n: nat, p: int)
    requires p > 0
  {
    var o, q := xs(n), xs(n + m);
    xs(m).Some? && xs(m).value != 0 ==>
    Represents(AddX(NormX(o), NormZ(o), NormX(q), NormZ(q)),
               AddZ(xs(m).value, NormX(o), NormZ(o), NormX(q), NormZ(q)), xs(2 * n + m), p)
  }

  /** The output convention: the neutral element is encoded as 0. */
  function Coord(o: Option<int>): int { if o.Some? then o.value else 0 }

  // ---------------------------------------------------------------- scaling

  /** Scaling both coordinates by the same unit changes nothing. */
  lemma Scale(x: int, z: int, o: Option<int>, l: int, x': int, z': int, p: int)
    requires IsPrime(p) && Represents(x, z, o, p) && !Cong(l, 0, p)
    requires Cong(x', l * x, p) && Cong(z', l * z, p)
    ensures Represents(x', z', o, p)
  {
    match o
    case None =>
      CongRefl(l, p);
      CongMul(l, l, z, 0, p);
      CongTrans(z', l * z, l * 0, p);
      if Cong(x', 0, p) { Unscale(x', l, x, p); }
    case Some(u) =>
      if Cong(z', 0, p) { Unscale(z', l, z, p); }
      CongRefl(l, p);
      CongMul(l, l, x, u * z, p);
      CongTrans(x', l * x, l * (u * z), p);
      CongRefl(u, p);
      CongMul(u, u, z', l * z, p);
      CongSym(u * z', u * (l * z), p);
      assert u * (l * z) == l * (u * z);
      CongTrans(x', l * (u * z), u * z', p);
  }

  lemma Unscale(x': int, l: int, x: int, p: int)
    requires IsPrime(p) && !Cong(l, 0, p) && Cong(x', l * x, p) && Cong(x', 0, p)
    ensures Cong(x, 0, p)
  {
    CongSym(x', l * x, p);
    CongTrans(l * x, x', 0, p);
    Euclid(p, l, x);
  }

  lemma ProductUnit(a: int, b: int, p: int)
    requires IsPrime(p) && !Cong(a, 0, p) && !Cong(b, 0, p)
    ensures !Cong(a * b, 0, p)
  {
    if Cong(a * b, 0, p) { Euclid(p, a, b); }
  }

  /** A representing pair is a unit multiple of the normal pair. */
  lemma Normalize(x: int, z: int, o: Option<int>, p: int) returns (l: int)
    requires p > 0 && Represents(x, z, o, p)
    ensures !Cong(l, 0, p) && Cong(x, l * NormX(o), p) && Cong(z, l * NormZ(o), p)
  {
    match o
    case None =>
      l := x;
      CongIntro(x, x * 1, 0, p);
    case Some(u) =>
      l := z;
      CongIntro(z, z * 1, 0, p);
      assert u * z == z * u;
  }

  // ---------------------------------------------------------------- polynomials under congruence

  lemma DoubleCong(x: int, z: int, x': int, z': int, p: int)
    requires p > 0 && Cong(x, x', p) && Cong(z, z', p)
    ensures Cong(DoubleX(x, z), DoubleX(x', z'), p) && Cong(DoubleZ(x, z), DoubleZ(x', z'), p)
  {
    CongMul(x, x', x, x', p);
    CongMul(z, z', z, z', p);
    CongMul(x, x', z, z', p);
    var f, f' := x * x - z * z, x' * x' - z' * z';
    CongAdd(x * x, x' * x', z * z, z' * z', p);
    CongMul(f, f', f, f', p);
    CongIntro(4, 4, 0, p);
    CongIntro(A, A, 0, p);
    CongMul(A, A, x * z, x' * z', p);
    CongAdd(x * x, x' * x', A * (x * z), A * (x' * z'), p);
    CongAdd(x * x + A * (x * z), x' * x' + A * (x' * z'), z * z, z' * z', p);
    CongMul(4, 4, x * z, x' * z', p);
    CongMul(4 * (x * z), 4 * (x' * z'), x * x + A * (x * z) + z * z, x' * x' + A * (x' * z') + z' * z', p);
  }

  lemma AddCong(d: int, x2: int, z2: int, x3: int, z3: int, d': int, a2: int, c2: int, a3: int, c3: int, p: int)
    requires p > 0 && Cong(d, d', p)
    requires Cong(x2, a2, p) && Cong(z2, c2, p) && Cong(x3, a3, p) && Cong(z3, c3, p)
    ensures Cong(AddX(x2, z2, x3, z3), AddX(a2, c2, a3, c3), p)
    ensures Cong(AddZ(d, x2, z2, x3, z3), AddZ(d', a2, c2, a3, c3), p)
  {
    CongMul(x2, a2, x3, a3, p);
    CongMul(z2, c2, z3, c3, p);
    var f, f' := x2 * x3 - z2 * z3, a2 * a3 - c2 * c3;
    CongAdd(x2 * x3, a2 * a3, z2 * z3, c2 * c3, p);
    CongMul(f, f', f, f', p);
    CongMul(x3, a3, z2, c2, p);
    CongMul(z3, c3, x2, a2, p);
    var g, g' := x3 * z2 - z3 * x2, a3 * c2 - c3 * a2;
    CongAdd(x3 * z2, a3 * c2, z3 * x2, c3 * a2, p);
    CongMul(g, g', g, g', p);
    CongMul(d, d', g * g, g' * g', p);
  }

  /** The doubling polynomials are homogeneous of degree four. */
  lemma DoubleHomogeneous(l: int, x: int, z: int)
    ensures DoubleX(l * x, l * z) == (l * l) * (l * l) * DoubleX(x, z)
    ensures DoubleZ(l * x, l * z) == (l * l) * (l * l) * DoubleZ(x, z)
  {
    var s := l * l;
    assert (l * x) * (l * x) == s * (x * x);
    assert (l * z) * (l * z) == s * (z * z);
    assert (l * x) * (l * z) == s * (x * z);
    Factor(s, x * x - z * z, x * x - z * z);
    Factor(s, 4 * (x * z), x * x + A * (x * z) + z * z);
  }

  lemma Factor(s: int, a: int, b: int)
    ensures (s * a) * (s * b) == s * s * (a * b)
  {
  }

  lemma AddHomogeneous(d: int, l: int, m: int, x2: int, z2: int, x3: int, z3: int)
    ensures AddX(l * x2, l * z2, m * x3, m * z3) == (l * m) * (l * m) * AddX(x2, z2, x3, z3)
    ensures AddZ(d, l * x2, l * z2, m * x3, m * z3) == (l * m) * (l * m) * AddZ(d, x2, z2, x3, z3)
  {
    var s := l * m;
    assert (l * x2) * (m * x3) == s * (x2 * x3);
    assert (l * z2) * (m * z3) == s * (z2 * z3);
    assert (m * x3) * (l * z2) == s * (x3 * z2);
    assert (m * z3) * (l * x2) == s * (z3 * x2);
    Factor(s, x2 * x3 - z2 * z3, x2 * x3 - z2 * z3);
    var g := x3 * z2 - z3 * x2;
    Factor(s, g, g);
    assert d * (s * s * (g * g)) == s * s * (d * (g * g));
  }

  // ---------------------------------------------------------------- one step of the loop

  /** x2, z2 of the step are the doubling polynomials; x3, z3 are differential addition times 4. */
  lemma StepIsCurveArithmetic(x1: int, s: Ladder, p: int)
    requires p > 0
    ensures var r := Step(x1, s, p);
            && Cong(r.x2, DoubleX(s.x2, s.z2), p) && Cong(r.z2, DoubleZ(s.x2, s.z2), p)
            && Cong(r.x3, 4 * AddX(s.x2, s.z2, s.x3, s.z3), p)
            && Cong(r.z3, 4 * AddZ(x1, s.x2, s.z2, s.x3, s.z3), p)
  {
    DoublingPart(x1, s, p);
    AdditionPart(x1, s, p);
  }

  lemma DoublingPart(x1: int, s: Ladder, p: int)
    requires p > 0
    ensures var r := Step(x1, s, p); Cong(r.x2, DoubleX(s.x2, s.z2), p) && Cong(r.z2, DoubleZ(s.x2, s.z2), p)
  {
    StepDouble(s.x2, s.z2, p);
  }

  lemma AdditionPart(x1: int, s: Ladder, p: int)
    requires p > 0
    ensures var r := Step(x1, s, p);
      && Cong(r.x3, 4 * AddX(s.x2, s.z2, s.x3, s.z3), p)
      && Cong(r.z3, 4 * AddZ(x1, s.x2, s.z2, s.x3, s.z3), p)
  {
    StepAdd(x1, s.x2, s.z2, s.x3, s.z3, p);
  }

  lemma MulMod(a: int, a': int, b: int, b': int, p: int)
    requires p > 0 && Cong(a, a', p) && Cong(b, b', p)
    ensures Cong((a * b) % p, a' * b', p)
  {
    CongMul(a, a', b, b', p);
    CongMod(a * b, p);
    CongTrans((a * b) % p, a * b, a' * b', p);
  }

  lemma StepDouble(x: int, z: int, p: int)
    requires p > 0
    ensures var a := (x + z) % p; var aa := (a * a) % p;
            var b := (x - z) % p; var bb := (b * b) % p; var e := (aa - bb) % p;
            && Cong((aa * bb) % p, DoubleX(x, z), p) && Cong((e * (aa + A24 * e)) % p, DoubleZ(x, z), p)
  {
    var a := (x + z) % p; var aa := (a * a) % p;
    var b := (x - z) % p; var bb := (b * b) % p; var e := (aa - bb) % p;
    CongMod(x + z, p);
    CongMod(x - z, p);
    var f, g := (x + z) * (x + z), (x - z) * (x - z);
    MulMod(a, x + z, a, x + z, p);
    MulMod(b, x - z, b, x - z, p);
    MulMod(aa, f, bb, g, p);
    CongAdd(aa, f, bb, g, p);
    CongMod(aa - bb, p);
    CongTrans(e, aa - bb, f - g, p);
    CongRefl(A24, p);
    CongMul(A24, A24, e, f - g, p);
    CongAdd(aa, f, A24 * e, A24 * (f - g), p);
    MulMod(e, f - g, aa + A24 * e, f + A24 * (f - g), p);
    DoublingPolynomial(x, z);
  }

  /** a24 = 121665 is (A - 2) / 4. */
  lemma DoublingPolynomial(x: int, z: int)
    ensures ((x + z) * (x + z)) * ((x - z) * (x - z)) == DoubleX(x, z)
    ensures var f, g := (x + z) * (x + z), (x - z) * (x - z); (f - g) * (f + A24 * (f - g)) == DoubleZ(x, z)
  {
    var f, g := (x + z) * (x + z), (x - z) * (x - z);
    var xx, zz, w := x * x, z * z, x * z;
    assert f == xx + 2 * w + zz;
    assert g == xx - 2 * w + zz;
    Factor2(x, z);
    assert f - g == 4 * w;
    assert f + A24 * (f - g) == xx + A * w + zz;
  }

  lemma Factor2(x: int, z: int)
    ensures ((x + z) * (x + z)) * ((x - z) * (x - z)) == (x * x - z * z) * (x * x - z * z)
  {
    var s, d := x + z, x - z;
    assert s * d == x * x - z * z;
    assert (s * s) * (d * d) == (s * d) * (s * d);
  }

  lemma StepAdd(x1: int, x2: int, z2: int, x3: int, z3: int, p: int)
    requires p > 0
    ensures var a := (x2 + z2) % p; var b := (x2 - z2) % p; var c := (x3 + z3) % p; var d := (x3 - z3) % p;
            var da := (d * a) % p; var cb := (c * b) % p;
            && Cong(((da + cb) * (da + cb)) % p, 4 * AddX(x2, z2, x3, z3), p)
            && Cong((x1 * ((da - cb) * (da - cb))) % p, 4 * AddZ(x1, x2, z2, x3, z3), p)
  {
    var a := (x2 + z2) % p; var b := (x2 - z2) % p; var c := (x3 + z3) % p; var d := (x3 - z3) % p;
    var da := (d * a) % p; var cb := (c * b) % p;
    CongMod(x2 + z2, p);
    CongMod(x2 - z2, p);
    CongMod(x3 + z3, p);
    CongMod(x3 - z3, p);
    var f, g := (x3 - z3) * (x2 + z2), (x3 + z3) * (x2 - z2);
    MulMod(d, x3 - z3, a, x2 + z2, p);
    MulMod(c, x3 + z3, b, x2 - z2, p);
    CongAdd(da, f, cb, g, p);
    MulMod(da + cb, f + g, da + cb, f + g, p);
    CongMul(da - cb, f - g, da - cb, f - g, p);
    CongRefl(x1, p);
    MulMod(x1, x1, (da - cb) * (da - cb), (f - g) * (f - g), p);
    assert f + g == 2 * (x2 * x3 - z2 * z3);
    assert f - g == 2 * (x3 * z2 - z3 * x2);
    SquareTwice(x2 * x3 - z2 * z3, 1);
    SquareTwice(x3 * z2 - z3 * x2, x1);
  }

  lemma SquareTwice(t: int, x: int)
    ensures x * ((2 * t) * (2 * t)) == 4 * (x * (t * t))
  {
    assert (2 * t) * (2 * t) == 4 * (t * t);
  }

  // ---------------------------------------------------------------- the ladder invariant

  /** The two pairs stand for the m-th and the (m+1)-th multiple. */
  ghost predicate Carries(s: Ladder, xs: nat -> Option<int>, m: nat, p: int)
    requires p > 0
  {
    Represents(s.x2, s.z2, xs(m), p) && Represents(s.x3, s.z3, xs(m + 1), p)
  }

  lemma DoubleStep(xs: nat -> Option<int>, n: nat, x: int, z: int, x': int, z': int, p: int)
    requires IsPrime(p) && Doubling(xs, n, p) && Represents(x, z, xs(n), p)
    requires Cong(x', DoubleX(x, z), p) && Cong(z', DoubleZ(x, z), p)
    ensures Represents(x', z', xs(2 * n), p)
  {
    var q := xs(n);
    var nx, nz := NormX(q), NormZ(q);
    var l := Normalize(x, z, q, p);
    DoubleCong(x, z, l * nx, l * nz, p);
    DoubleHomogeneous(l, nx, nz);
    var l4 := (l * l) * (l * l);
    CongTrans(x', DoubleX(x, z), l4 * DoubleX(nx, nz), p);
    CongTrans(z', DoubleZ(x, z), l4 * DoubleZ(nx, nz), p);
    ProductUnit(l, l, p);
    ProductUnit(l * l, l * l, p);
    Scale(DoubleX(nx, nz), DoubleZ(nx, nz), xs(2 * n), l4, x', z', p);
  }

  lemma AddStep(xs: nat -> Option<int>, n: nat, d: int, x2: int, z2: int, x3: int, z3: int, x': int, z': int, p: int)
    requires IsPrime(p) && !Cong(4, 0, p) && DifferentialAddition(xs, 1, n, p) && xs(1).Some? && xs(1).value != 0
      && Cong(d, xs(1).value, p)
    requires Represents(x2, z2, xs(n), p) && Represents(x3, z3, xs(n + 1), p)
    requires Cong(x', 4 * AddX(x2, z2, x3, z3), p) && Cong(z', 4 * AddZ(d, x2, z2, x3, z3), p)
    ensures Represents(x', z', xs(2 * n + 1), p)
  {
    var u := xs(1).value;
    var a2, c2, a3, c3 := NormX(xs(n)), NormZ(xs(n)), NormX(xs(n + 1)), NormZ(xs(n + 1));
    var l := Normalize(x2, z2, xs(n), p);
    var m := Normalize(x3, z3, xs(n + 1), p);
    AddCong(d, x2, z2, x3, z3, u, l * a2, l * c2, m * a3, m * c3, p);
    AddHomogeneous(u, l, m, a2, c2, a3, c3);
    var k := (l * m) * (l * m);
    var rx, rz := AddX(a2, c2, a3, c3), AddZ(u, a2, c2, a3, c3);
    Quadruple(x', AddX(x2, z2, x3, z3), k, rx, p);
    Quadruple(z', AddZ(d, x2, z2, x3, z3), k, rz, p);
    ProductUnit(l, m, p);
    ProductUnit(l * m, l * m, p);
    ProductUnit(4, k, p);
    Scale(rx, rz, xs(2 * n + 1), 4 * k, x', z', p);
  }

  lemma Quadruple(x': int, y: int, k: int, r: int, p: int)
    requires p > 0 && Cong(x', 4 * y, p) && Cong(y, k * r, p)
    ensures Cong(x', (4 * k) * r, p)
  {
    CongRefl(4, p);
    CongMul(4, 4, y, k * r, p);
    assert 4 * (k * r) == (4 * k) * r;
    CongTrans(x', 4 * y, (4 * k) * r, p);
  }

  lemma FourIsUnit()
    ensures !Cong(4, 0, P) && !Cong(1, 0, P)
  {
    CongModEq(4, 0, P);
    CongModEq(1, 0, P);
  }

  /** One step takes the pair ([m]P, [m+1]P) to ([2m]P, [2m+1]P), or to ([2m+1]P, [2m+2]P) between two swaps. */
  lemma StepCarries(xs: nat -> Option<int>, x1: int, s: Ladder, m: nat, bit: nat, p: int)
    requires IsPrime(p) && MontgomeryMultiples(xs, p) && !Cong(4, 0, p) && bit <= 1
    requires xs(1).Some? && xs(1).value != 0 && Cong(x1, xs(1).value, p)
    requires Carries(s, xs, m, p)
    ensures Carries(if bit == 1 then Swap(Step(x1, Swap(s), p)) else Step(x1, s, p), xs, 2 * m + bit, p)
  {
    assert Doubling(xs, m, p) && Doubling(xs, m + 1, p) && DifferentialAddition(xs, 1, m, p);
    if bit == 0 {
      StepIsCurveArithmetic(x1, s, p);
      var r := Step(x1, s, p);
      DoubleStep(xs, m, s.x2, s.z2, r.x2, r.z2, p);
      AddStep(xs, m, x1, s.x2, s.z2, s.x3, s.z3, r.x3, r.z3, p);
    } else {
      var t := Swap(s);
      StepIsCurveArithmetic(x1, t, p);
      var r := Step(x1, t, p);
      DoubleStep(xs, m + 1, t.x2, t.z2, r.x2, r.z2, p);
      AddSymmetric(x1, s.x2, s.z2, s.x3, s.z3);
      AddStep(xs, m, x1, s.x2, s.z2, s.x3, s.z3, r.x3, r.z3, p);
    }
  }

  lemma AddSymmetric(d: int, x2: int, z2: int, x3: int, z3: int)
    ensures AddX(x3, z3, x2, z2) == AddX(x2, z2, x3, z3)
    ensures AddZ(d, x3, z3, x2, z2) == AddZ(d, x2, z2, x3, z3)
  {
    var g := x3 * z2 - z3 * x2;
    assert x2 * z3 - z2 * x3 == -g;
    assert (-g) * (-g) == g * g;
  }

  lemma StartCarries(xs: nat -> Option<int>, k: nat, x1: int, top: nat, p: int)
    requires IsPrime(p) && MontgomeryMultiples(xs, p) && k < Pow2(top)
    requires xs(1).Some? && xs(1).value != 0 && Cong(x1, xs(1).value, p)
    ensures Carries(Textbook(k, x1, top, top, p), xs, Shr(k, top), p)
  {
    ShrAll(k, top);
    OneIsUnit(p);
    CongRefl(0, p);
    var u := xs(1).value;
    assert u * 1 == u;
  }

  lemma OneIsUnit(p: int)
    requires p > 1
    ensures !Cong(1, 0, p)
  {
    CongModEq(1, 0, p);
  }

  /** After the bits above t the ladder carries the multiples k >> t and (k >> t) + 1. */
  lemma {:induction false} LadderCarries(xs: nat -> Option<int>, k: nat, x1: int, t: nat, top: nat, p: int)
    requires IsPrime(p) && !Cong(4, 0, p) && MontgomeryMultiples(xs, p) && k < Pow2(top) && t <= top
    requires xs(1).Some? && xs(1).value != 0 && Cong(x1, xs(1).value, p)
    ensures Carries(Textbook(k, x1, t, top, p), xs, Shr(k, t), p)
    decreases top - t
  {
    if t == top {
      StartCarries(xs, k, x1, top, p);
    } else {
      LadderCarries(xs, k, x1, t + 1, top, p);
      ShrNext(k, t);
      StepCarries(xs, x1, Textbook(k, x1, t + 1, top, p), Shr(k, t + 1), Shr(k, t) % 2, p);
    }
  }

  // ---------------------------------------------------------------- the result

  lemma FinishRepresented(s: Ladder, o: Option<int>)
    requires IsPrime(P) && Represents(s.x2, s.z2, o, P) && (o.Some? ==> 0 <= o.value < P)
    ensures Finish(s) == Coord(o)
  {
    var inv := Pow(s.z2, P - 2);
    CongMod(inv, P);
    match o
    case None =>
      FinishZero(s);
    case Some(u) =>
      CongMul(s.x2, u * s.z2, inv % P, inv, P);
      Fermat(P, s.z2);
      CancelInverse(s.x2 * (inv % P), u, s.z2, inv);
  }

  lemma CancelInverse(y: int, u: int, z: int, inv: int)
    requires Cong(y, (u * z) * inv, P) && Cong(z * inv, 1, P) && 0 <= u < P
    ensures y % P == u
  {
    CongRefl(u, P);
    CongMul(u, u, z * inv, 1, P);
    assert (u * z) * inv == u * (z * inv);
    CongTrans(y, (u * z) * inv, u * 1, P);
    CongModEq(y, u, P);
  }

  /** When one of the two coordinates vanishes the result is 0. */
  lemma FinishZero(s: Ladder)
    requires Cong(s.z2, 0, P) || Cong(s.x2, 0, P)
    ensures Finish(s) == 0
  {
    var i := Pow(s.z2, P - 2) % P;
    if Cong(s.z2, 0, P) {
      CongMod(Pow(s.z2, P - 2), P);
      PowOfZero(s.z2, P - 2);
      CongTrans(i, Pow(s.z2, P - 2), 0, P);
      CongRefl(s.x2, P);
      CongMul(s.x2, s.x2, i, 0, P);
    } else {
      CongRefl(i, P);
      CongMul(s.x2, 0, i, i, P);
    }
    CongModEq(s.x2 * i, 0, P);
  }

  lemma PowOfZero(z: int, e: nat)
    requires Cong(z, 0, P) && e > 0
    ensures Cong(Pow(z, e), 0, P)
  {
    CongIntro(Pow(z, e - 1), Pow(z, e - 1), 0, P);
    CongMul(z, 0, Pow(z, e - 1), Pow(z, e - 1), P);
  }

  /** With input coordinate 0 both pairs keep a vanishing coordinate. */
  lemma {:induction false} ZeroLadder(k: nat, x1: int, t: nat)
    requires Cong(x1, 0, P) && t <= 255
    ensures var s := Textbook(k, x1, t, 255, P); Cong(s.x2 * s.z2, 0, P) && Cong(s.x3 * s.z3, 0, P)
    decreases 255 - t
  {
    if t < 255 {
      ZeroLadder(k, x1, t + 1);
      var s := Textbook(k, x1, t + 1, 255, P);
      ZeroStep(x1, if Shr(k, t) % 2 == 1 then Swap(s) else s, P);
    } else {
      CongRefl(0, P);
    }
  }

  lemma ZeroStep(x1: int, s: Ladder, p: int)
    requires p > 0 && Cong(x1, 0, p) && Cong(s.x2 * s.z2, 0, p)
    ensures var r := Step(x1, s, p); Cong(r.x2 * r.z2, 0, p) && Cong(r.x3 * r.z3, 0, p)
  {
    var r := Step(x1, s, p);
    StepIsCurveArithmetic(x1, s, p);
    var w := s.x2 * s.z2;
    var f := s.x2 * s.x2 + A * w + s.z2 * s.z2;
    CongRefl(4, p);
    CongMul(4, 4, w, 0, p);
    CongRefl(f, p);
    CongMul(4 * w, 0, f, f, p);
    CongTrans(r.z2, DoubleZ(s.x2, s.z2), 0, p);
    CongRefl(r.x2, p);
    CongMul(r.x2, r.x2, r.z2, 0, p);
    var g := s.x3 * s.z2 - s.z3 * s.x2;
    CongIntro(g * g, g * g, 0, p);
    CongMul(x1, 0, g * g, g * g, p);
    CongMul(4, 4, AddZ(x1, s.x2, s.z2, s.x3, s.z3), 0, p);
    CongTrans(r.z3, 4 * AddZ(x1, s.x2, s.z2, s.x3, s.z3), 0, p);
    CongRefl(r.x3, p);
    CongMul(r.x3, r.x3, r.z3, 0, p);
  }

  /** A point with coordinate 0 has order two, so its even multiples are the neutral element. */
  lemma {:induction false} EvenMultiplesOfZero(xs: nat -> Option<int>, m: nat, j: nat)
    requires IsPrime(P) && MontgomeryMultiples(xs, P) && (xs(m).Some? ==> xs(m).value == 0)
    ensures xs((2 * m) * j) == None
    decreases j
  {
    FourIsUnit();
    assert Doubling(xs, m, P);
    var q := xs(m);
    assert NormX(q) * NormZ(q) == 0;
    assert DoubleZ(NormX(q), NormZ(q)) == 4 * 0 * (NormX(q) * NormX(q) + A * 0 + NormZ(q) * NormZ(q)) == 0;
    assert xs(2 * m) == None;
    if j > 0 {
      EvenMultiplesOfZero(xs, m, j - 1);
      assert (2 * m) * j == (2 * m) * (j - 1) + 2 * m;
      assert Neutral(xs, 2 * m, (2 * m) * (j - 1));
    } else {
      assert (2 * m) * 0 == 0;
    }
  }

  lemma LadderResult(xs: nat -> Option<int>, k: nat, u: nat)
    requires IsPrime(P) && MontgomeryMultiples(xs, P) && k < Pow2(255)
    requires xs(1) == Some(u % P) && u % P != 0
    ensures Finish(Textbook(k, u, 0, 255, P)) == Coord(xs(k))
  {
    CongMod(u, P);
    FourIsUnit();
    LadderCarries(xs, k, u, 0, 255, P);
    FinishRepresented(Textbook(k, u, 0, 255, P), xs(k));
  }

  lemma ClampedScalar(scalar: Bytes) returns (half: nat)
    requires |scalar| == 32
    ensures ClampInt(FromLE(scalar)) == FromLE(ClampBytes(scalar)) == 2 * half < Pow2(255)
  {
    ClampsAgree(scalar);
    ClampBytesIsClampValue(scalar);
    ClampValueRange(FromLE(scalar));
    half := 4 * (Pow2(251) + Low(Shr(FromLE(scalar), 3), 251));
  }

  /** X25519 computes the clamped multiple of the point whose u-coordinate is the input modulo p. */
  lemma LadderIsMultiple(scalar: Bytes, point: Bytes, xs: nat -> Option<int>)
    requires IsPrime(P) && MontgomeryMultiples(xs, P) && |scalar| == 32
    requires xs(1) == Some(FromLE(point) % P)
    ensures ScalarMult(scalar, point) == Coord(xs(ClampInt(FromLE(scalar))))
  {
    var u := FromLE(point);
    var half := ClampedScalar(scalar);
    if u % P != 0 {
      LadderResult(xs, 2 * half, u);
    } else {
      ZeroResult(scalar, point);
      EvenMultiplesOfZero(xs, 1, half);
    }
  }

  /** The input coordinate 0 (modulo p) gives 0, whatever the scalar. */
  lemma ZeroResult(scalar: Bytes, point: Bytes)
    requires IsPrime(P) && |scalar| == 32 && FromLE(point) % P == 0
    ensures ScalarMult(scalar, point) == 0
  {
    var k, u := FromLE(ClampBytes(scalar)), FromLE(point);
    CongModEq(u, 0, P);
    ZeroLadder(k, u, 0);
    var s := Textbook(k, u, 0, 255, P);
    Euclid(P, s.x2, s.z2);
    FinishZero(s);
  }

  // ---------------------------------------------------------------- key agreement

  function Times(a: nat, b: nat): (r: nat)
    ensures r == a * b
  {
    NonNegative(a, b);
    a * b
  }

  lemma NonNegative(a: nat, b: nat)
    ensures a * b >= 0
  {
  }

  /** The multiples of the b-th multiple. */
  function MultiplesOf(xs: nat -> Option<int>, b: nat): nat -> Option<int>
  {
    (n: nat) => xs(Times(b, n))
  }

  lemma MultiplesOfMultiple(xs: nat -> Option<int>, b: nat)
    requires MontgomeryMultiples(xs, P)
    ensures MontgomeryMultiples(MultiplesOf(xs, b), P)
  {
    var ys := MultiplesOf(xs, b);
    forall n: nat ensures ys(n).Some? ==> 0 <= ys(n).value < P {
      assert ys(n) == xs(Times(b, n));
    }
    forall n: nat ensures Doubling(ys, n, P) { DoublingOfMultiple(xs, b, n, P); }
    forall m: nat, n: nat ensures Neutral(ys, m, n) { AdditionOfMultiples(xs, b, m, n, P); }
    forall m: nat, n: nat ensures DifferentialAddition(ys, m, n, P) { AdditionOfMultiples(xs, b, m, n, P); }
    TimesZero(b);
  }

  lemma TimesZero(b: nat)
    ensures Times(b, 0) == 0
  {
  }

  lemma TimesSums(b: nat, m: nat, n: nat)
    ensures Times(b, n + m) == Times(b, n) + Times(b, m)
    ensures Times(b, 2 * n) == 2 * Times(b, n)
    ensures Times(b, 2 * n + m) == 2 * Times(b, n) + Times(b, m)
  {
  }

  lemma DoublingOfMultiple(xs: nat -> Option<int>, b: nat, n: nat, p: int)
    requires p > 0 && forall t: nat :: Doubling(xs, t, p)
    ensures Doubling(MultiplesOf(xs, b), n, p)
  {
    TimesSums(b, 0, n);
    var t := Times(b, n);
    assert Doubling(xs, t, p);
    var ys := MultiplesOf(xs, b);
    assert ys(n) == xs(t) && ys(2 * n) == xs(2 * t);
  }

  lemma AdditionOfMultiples(xs: nat -> Option<int>, b: nat, m: nat, n: nat, p: int)
    requires p > 0 && forall s: nat, t: nat :: Neutral(xs, s, t) && DifferentialAddition(xs, s, t, p)
    ensures Neutral(MultiplesOf(xs, b), m, n) && DifferentialAddition(MultiplesOf(xs, b), m, n, p)
  {
    TimesSums(b, m, n);
    var s, t := Times(b, m), Times(b, n);
    assert Neutral(xs, s, t) && DifferentialAddition(xs, s, t, p);
    var ys := MultiplesOf(xs, b);
    assert ys(n) == xs(t) && ys(m) == xs(s) && ys(n + m) == xs(t + s) && ys(2 * n + m) == xs(2 * t + s);
  }

  /** `_x25519_base`: the base point has u-coordinate 9. */
  function X25519Base(scalar: Bytes): (r: Bytes)
    requires |scalar| == 32
    ensures |r| == 32
  {
    assert Pow256(1) == 256;
    Pow256Grows(31);
    X25519Spec(scalar, ToLE(9, 32))
  }

  lemma {:induction false} Pow256Grows(n: nat)
    ensures Pow256(n + 1) >= 256
  {
    if n != 0 { Pow256Grows(n - 1); }
  }

  /** One side of the exchange: the secret a applied to the public key of b. */
  lemma SharedCoordinate(a: Bytes, b: Bytes, xs: nat -> Option<int>)
    requires IsPrime(P) && MontgomeryMultiples(xs, P) && |a| == 32 && |b| == 32 && xs(1) == Some(9)
    ensures ScalarMult(a, X25519Base(b)) == Coord(xs(Times(ClampInt(FromLE(b)), ClampInt(FromLE(a)))))
  {
    var cb := ClampInt(FromLE(b));
    var public := PublicCoordinate(b, xs);
    if xs(cb).Some? && xs(cb).value != 0 {
      SharedRegular(a, public, xs, cb);
    } else {
      SharedZero(a, public, xs, cb);
    }
  }

  lemma SharedZero(a: Bytes, public: Bytes, xs: nat -> Option<int>, cb: nat)
    requires IsPrime(P) && MontgomeryMultiples(xs, P) && |a| == 32
    requires FromLE(public) == 0 && (xs(cb).Some? ==> xs(cb).value == 0)
    ensures ScalarMult(a, public) == Coord(xs(Times(cb, ClampInt(FromLE(a)))))
  {
    var half := ClampedScalar(a);
    ZeroResult(a, public);
    EvenMultiplesOfZero(xs, cb, half);
    TimesTwice(cb, half);
  }

  lemma SharedRegular(a: Bytes, public: Bytes, xs: nat -> Option<int>, cb: nat)
    requires IsPrime(P) && MontgomeryMultiples(xs, P) && |a| == 32
    requires FromLE(public) < P && xs(cb) == Some(FromLE(public))
    ensures ScalarMult(a, public) == Coord(xs(Times(cb, ClampInt(FromLE(a)))))
  {
    MultiplesOfMultiple(xs, cb);
    TimesOne(cb);
    LadderIsMultiple(a, public, MultiplesOf(xs, cb));
  }

  lemma PublicCoordinate(b: Bytes, xs: nat -> Option<int>) returns (public: Bytes)
    requires IsPrime(P) && MontgomeryMultiples(xs, P) && |b| == 32 && xs(1) == Some(9)
    ensures public == X25519Base(b) && FromLE(public) == Coord(xs(ClampInt(FromLE(b)))) < P
  {
    Pow256Grows(31);
    FromToLE(9, 32);
    var nine := ToLE(9, 32);
    LadderIsMultiple(b, nine, xs);
    PFits();
    FromToLE(ScalarMult(b, nine), 32);
    public := X25519Base(b);
  }

  lemma TimesOne(b: nat)
    ensures Times(b, 1) == b
  {
  }

  lemma TimesTwice(b: nat, h: nat)
    ensures (2 * b) * h == Times(b, 2 * h)
  {
  }

  /** Both parties of the exchange obtain the same shared value. */
  lemma SharedSecret(a: Bytes, b: Bytes, xs: nat -> Option<int>)
    requires IsPrime(P) && MontgomeryMultiples(xs, P) && |a| == 32 && |b| == 32 && xs(1) == Some(9)
    ensures X25519Spec(a, X25519Base(b)) == X25519Spec(b, X25519Base(a))
  {
    SharedCoordinate(a, b, xs);
    SharedCoordinate(b, a, xs);
    var ca, cb := ClampInt(FromLE(a)), ClampInt(FromLE(b));
    assert Times(ca, cb) == Times(cb, ca);
  }
}
