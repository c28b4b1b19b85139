/** Salsa20 as its specification writes it: 32-bit addition, rotation and exclusive or, quarter-rounds on columns and
    rows, ten double-rounds. The assignments of the code's loop are proved to compute it. */
module Salsa20Spec {
  import opened PyInts
  import opened Bits
  import opened Clamp
  import opened Salsa20

  // ---------------------------------------------------------------- the specification

  type Places = s: nat | s <= 32

  /** Rotation to the left by s of 32 places: what leaves on the left comes back on the right. */
  function Rotation(): (nat, Places) -> nat
  {
    (v: nat, s: Places) => NotNegative(v, Pow2(s), Pow2(32 - s)); (v * Pow2(s)) % TWO_32 + v / Pow2(32 - s)
  }

  lemma NotNegative(v: nat, m: nat, k: nat)
    requires k > 0
    ensures v * m >= 0 && v / k >= 0
  {
  }

  function Addition(): (nat, nat) -> nat
  {
    (a: nat, b: nat) => (a + b) % TWO_32
  }

  /** One word of a quarter-round: w with the sum of a and b, rotated, added bit by bit. */
  function Mixing(add: (nat, nat) -> nat, rotate: (nat, Places) -> nat): (nat, nat, nat, Places) -> nat
  {
    (w: nat, a: nat, b: nat, s: Places) => BitXor(w, rotate(add(a, b), s))
  }

  datatype Four = Four(y0: nat, y1: nat, y2: nat, y3: nat)

  function QuarterRound(mix: (nat, nat, nat, Places) -> nat, y: Four): Four
  {
    var z1 := mix(y.y1, y.y0, y.y3, 7);
    var z2 := mix(y.y2, z1, y.y0, 9);
    var z3 := mix(y.y3, z2, z1, 13);
    var z0 := mix(y.y0, z3, z2, 18);
    Four(z0, z1, z2, z3)
  }

  /** The four words of each column, from the diagonal down. */
  function ColumnsRound(mix: (nat, nat, nat, Places) -> nat, x: State): State
  {
    var a, b := QuarterRound(mix, Four(x[0], x[4], x[8], x[12])), QuarterRound(mix, Four(x[5], x[9], x[13], x[1]));
    var c, d := QuarterRound(mix, Four(x[10], x[14], x[2], x[6])), QuarterRound(mix, Four(x[15], x[3], x[7], x[11]));
    [a.y0, b.y3, c.y2, d.y1, a.y1, b.y0, c.y3, d.y2, a.y2, b.y1, c.y0, d.y3, a.y3, b.y2, c.y1, d.y0]
  }

  /** The four words of each row, from the diagonal to the right. */
  function RowsRound(mix: (nat, nat, nat, Places) -> nat, x: State): State
  {
    var a, b := QuarterRound(mix, Four(x[0], x[1], x[2], x[3])), QuarterRound(mix, Four(x[5], x[6], x[7], x[4]));
    var c, d := QuarterRound(mix, Four(x[10], x[11], x[8], x[9])), QuarterRound(mix, Four(x[15], x[12], x[13], x[14]));
    [a.y0, a.y1, a.y2, a.y3, b.y3, b.y0, b.y1, b.y2, c.y2, c.y3, c.y0, c.y1, d.y1, d.y2, d.y3, d.y0]
  }

  function DoubleRound(mix: (nat, nat, nat, Places) -> nat): State -> State
  {
    (x: State) => RowsRound(mix, ColumnsRound(mix, x))
  }

  function Iterate(f: State -> State, n: nat, x: State): State
    decreases n, x
  {
    if n == 0 then x else f(Iterate(f, n - 1, x))
  }

  // ---------------------------------------------------------------- the rotation

  lemma {:induction false} ShlIsProduct(v: nat, s: nat)
    ensures Shl(v, s) == v * Pow2(s)
  {
    if s > 0 {
      ShlIsProduct(v, s - 1);
      Assoc2(Pow2(s - 1), v);
    }
  }

  /** Numbers without a common bit: `|` is their sum. */
  lemma {:induction false} OrDisjoint(h: nat, l: nat, s: nat)
    requires l < Pow2(s)
    ensures BitOr(Shl(h, s), l) == Shl(h, s) + l
    decreases s
  {
    if s > 0 {
      OrDisjoint(h, l / 2, s - 1);
      assert Shl(h, s) / 2 == Shl(h, s - 1);
    }
  }

  lemma {:induction false} Pow2Sum(m: nat, n: nat)
    ensures Pow2(m + n) == Pow2(m) * Pow2(n)
  {
    if m > 0 {
      Pow2Sum(m - 1, n);
      Assoc2(Pow2(m - 1), Pow2(n));
    }
  }

  lemma Mask(a: nat)
    ensures BitAnd(a, MASK32) == a % TWO_32
  {
    Pow2Is32();
    AndLowMask(a, 32);
    ShrIsDivision(a, 32);
  }

  lemma SmallRemainder(m: nat, k: nat, r: nat)
    requires r < k
    ensures r * m + m <= m * k
  {
    Scaled(m, k, r);
    AtLeast(m, k - r);
  }

  /** What is shifted out of the word is its upper part q, what stays is the lower part r. */
  lemma ShiftedLow(v: nat, m: nat, k: nat, q: nat, r: nat)
    requires m > 0 && k > 0 && v == k * q + r && r < k && q < m
    ensures r * m >= 0 && v * m >= 0
    ensures m * k > 0 && (v * m) % (m * k) == r * m && (v * m + q) % (m * k) == r * m + q
  {
    SmallRemainder(m, k, r);
    Spread(v, m, k, q, r);
    Quotient(v * m, m * k, q, r * m);
    Quotient(v * m + q, m * k, q, r * m + q);
  }

  lemma Spread(v: nat, m: nat, k: nat, q: nat, r: nat)
    requires v == k * q + r
    ensures v * m == (m * k) * q + r * m && r * m >= 0 && v * m >= 0
  {
    assert (k * q) * m == (m * k) * q;
  }

  lemma UpperPart(v: nat, m: nat, k: nat)
    requires m > 0 && k > 0 && v < m * k
    ensures v / k < m && v == k * (v / k) + v % k
  {
    NotBelow(k, v / k, m);
  }

  lemma NotBelow(k: nat, q: nat, m: nat)
    ensures q >= m ==> k * q >= k * m
  {
    Scaled(k, q, m);
  }

  lemma RotatedParts(v: nat, m: nat, k: nat, n: nat)
    requires m > 0 && k > 0 && v < m * k == n
    ensures v * m >= 0 && v / k >= 0 && (v * m + v / k) % n == (v * m) % n + v / k
  {
    UpperPart(v, m, k);
    ShiftedLow(v, m, k, v / k, v % k);
  }

  lemma OrIsSum(v: nat, s: Places, x: nat, q: nat)
    requires x == Shl(v, s) && q == Shr(v, 32 - s) && BitOr(x, q) == x + q
    ensures Rotl32(v, s) == (x + q) % TWO_32
  {
    Mask(x + q);
  }

  /** `_rotl32` rotates. */
  lemma RotationWraps(v: nat, s: Places)
    requires v < TWO_32
    ensures Rotl32(v, s) == Rotation()(v, s)
  {
    var m, k := Pow2(s), Pow2(32 - s);
    Pow2Is32();
    Pow2Sum(s, 32 - s);
    RotatedParts(v, m, k, TWO_32);
    RotlValue(v, s, m, k);
    RotationValue(v, s, m, k);
  }

  lemma RotlValue(v: nat, s: Places, m: nat, k: nat)
    requires m == Pow2(s) && k == Pow2(32 - s) && v < m * k
    ensures v * m >= 0 && v / k >= 0 && Rotl32(v, s) == (v * m + v / k) % TWO_32
  {
    UpperPart(v, m, k);
    ShrIsDivision(v, 32 - s);
    ShlIsProduct(v, s);
    OrDisjoint(v, v / k, s);
    OrIsSum(v, s, Shl(v, s), v / k);
  }

  lemma RotationValue(v: nat, s: Places, m: nat, k: nat)
    requires m == Pow2(s) && k == Pow2(32 - s)
    ensures Rotation()(v, s) == (v * m) % TWO_32 + v / k
  {
  }

  // ---------------------------------------------------------------- the loop computes the specification

  /** The functions are what an assignment does to a sum. */
  ghost predicate Rotates(add: (nat, nat) -> nat, rotate: (nat, Places) -> nat)
  {
    forall a: nat, b: nat, s: Places :: RotatesAt(add, rotate, a, b, s)
  }

  ghost predicate RotatesAt(add: (nat, nat) -> nat, rotate: (nat, Places) -> nat, a: nat, b: nat, s: Places)
  {
    Rotl32(BitAnd(a + b, MASK32), s) == rotate(add(a, b), s)
  }

  lemma SumRotated(rotl: (nat, nat) -> nat, rotate: (nat, Places) -> nat, add: (nat, nat) -> nat, a: nat, b: nat,
      s: Places)
    requires forall v: nat | v < TWO_32 :: rotl(v, s) == rotate(v, s)
    requires add(a, b) == (a + b) % TWO_32
    ensures rotl(BitAnd(a + b, MASK32), s) == rotate(add(a, b), s)
  {
    Mask(a + b);
  }

  lemma RotlIsRotation(s: Places)
    ensures forall v: nat | v < TWO_32 :: Rotl32(v, s) == Rotation()(v, s)
  {
    forall v: nat | v < TWO_32 ensures Rotl32(v, s) == Rotation()(v, s) {
      RotationWraps(v, s);
    }
  }

  lemma SumIsRotated(a: nat, b: nat, s: Places)
    ensures RotatesAt(Addition(), Rotation(), a, b, s)
  {
    RotlIsRotation(s);
    SumRotated(Rotl32, Rotation(), Addition(), a, b, s);
  }

  lemma RotationRotates()
    ensures Rotates(Addition(), Rotation())
  {
    forall a: nat, b: nat, s: Places ensures RotatesAt(Addition(), Rotation(), a, b, s) {
      SumIsRotated(a, b, s);
    }
  }

  /** An assignment stores one mixed word. */
  ghost predicate Stores(mix: (nat, nat, nat, Places) -> nat)
  {
    forall x: State, t: Index, u: Index, v: Index, s: Places ::
      Mix(x, Assignment(t, u, v, s)) == x[t := mix(x[t], x[u], x[v], s)]
  }

  lemma MixIs(add: (nat, nat) -> nat, rotate: (nat, Places) -> nat, x: State, t: Index, u: Index, v: Index, s: Places)
    requires Rotates(add, rotate)
    ensures Mix(x, Assignment(t, u, v, s)) == x[t := Mixing(add, rotate)(x[t], x[u], x[v], s)]
  {
    assert RotatesAt(add, rotate, x[u], x[v], s);
  }

  lemma MixStores(add: (nat, nat) -> nat, rotate: (nat, Places) -> nat)
    requires Rotates(add, rotate)
    ensures Stores(Mixing(add, rotate))
  {
    forall x: State, t: Index, u: Index, v: Index, s: Places
      ensures Mix(x, Assignment(t, u, v, s)) == x[t := Mixing(add, rotate)(x[t], x[u], x[v], s)] {
      MixIs(add, rotate, x, t, u, v, s);
    }
  }

  predicate Distinct(a: Index, b: Index, c: Index, d: Index)
  {
    a != b && a != c && a != d && b != c && b != d && c != d
  }

  function Put(x: State, a: Index, b: Index, c: Index, d: Index, z: Four): State
  {
    x[b := z.y1][c := z.y2][d := z.y3][a := z.y0]
  }

  /** Four assignments of the code are one quarter-round. */
  lemma QuarterIs(mix: (nat, nat, nat, Places) -> nat, x: State, a: Index, b: Index, c: Index, d: Index)
    requires Stores(mix) && Distinct(a, b, c, d)
    ensures Run(Quarter(a, b, c, d), x) == Put(x, a, b, c, d, QuarterRound(mix, Four(x[a], x[b], x[c], x[d])))
  {
    RunQuarter(x, a, b, c, d);
    var z := QuarterRound(mix, Four(x[a], x[b], x[c], x[d]));
    var x1 := Store(mix, x, b, a, d, 7);
    var x2 := Store(mix, x1, c, b, a, 9);
    var x3 := Store(mix, x2, d, c, b, 13);
    var x4 := Store(mix, x3, a, d, c, 18);
    assert x4 == x[b := z.y1][c := z.y2][d := z.y3][a := z.y0];
  }

  lemma Store(mix: (nat, nat, nat, Places) -> nat, x: State, t: Index, u: Index, v: Index, s: Places)
      returns (y: State)
    requires Stores(mix)
    ensures y == Mix(x, Assignment(t, u, v, s)) == x[t := mix(x[t], x[u], x[v], s)]
  {
    y := x[t := mix(x[t], x[u], x[v], s)];
  }

  /** Four quarter-rounds on words of their own. */
  predicate Apart(p: seq<Index>)
  {
    |p| == 16 && forall i, j | 0 <= i < j < 16 :: p[i] != p[j]
  }

  function QuarterAt(p: seq<Index>, k: nat): seq<Assignment>
    requires |p| == 16 && k < 4
  {
    Quarter(p[4 * k], p[4 * k + 1], p[4 * k + 2], p[4 * k + 3])
  }

  function FourAt(x: State, p: seq<Index>, k: nat): Four
    requires |p| == 16 && k < 4
  {
    Four(x[p[4 * k]], x[p[4 * k + 1]], x[p[4 * k + 2]], x[p[4 * k + 3]])
  }

  /** y holds the k-th quarter-round of x. */
  predicate Holds(mix: (nat, nat, nat, Places) -> nat, x: State, y: State, p: seq<Index>, k: nat)
    requires |p| == 16 && k < 4
  {
    FourAt(y, p, k) == QuarterRound(mix, FourAt(x, p, k))
  }

  lemma QuarterHolds(mix: (nat, nat, nat, Places) -> nat, x: State, p: seq<Index>, k: nat)
    requires Stores(mix) && Apart(p) && k < 4
    ensures Holds(mix, x, Run(QuarterAt(p, k), x), p, k)
    ensures forall j: nat | j < 4 && j != k :: FourAt(Run(QuarterAt(p, k), x), p, j) == FourAt(x, p, j)
  {
    var z := QuarterRound(mix, FourAt(x, p, k));
    QuarterIs(mix, x, p[4 * k], p[4 * k + 1], p[4 * k + 2], p[4 * k + 3]);
    forall j: nat | j < 4 && j != k
      ensures FourAt(Run(QuarterAt(p, k), x), p, j) == FourAt(x, p, j) {
      PutKeeps(x, p, k, j, z);
    }
  }

  lemma PutKeeps(x: State, p: seq<Index>, k: nat, j: nat, z: Four)
    requires Apart(p) && k < 4 && j < 4 && j != k
    ensures FourAt(Put(x, p[4 * k], p[4 * k + 1], p[4 * k + 2], p[4 * k + 3], z), p, j) == FourAt(x, p, j)
  {
  }

  lemma FourHold(mix: (nat, nat, nat, Places) -> nat, x: State, p: seq<Index>)
    requires Stores(mix) && Apart(p)
    ensures var y := Run(QuarterAt(p, 0) + QuarterAt(p, 1) + QuarterAt(p, 2) + QuarterAt(p, 3), x);
      Holds(mix, x, y, p, 0) && Holds(mix, x, y, p, 1) && Holds(mix, x, y, p, 2) && Holds(mix, x, y, p, 3)
  {
    RunFour(QuarterAt(p, 0), QuarterAt(p, 1), QuarterAt(p, 2), QuarterAt(p, 3), x);
    QuarterHolds(mix, x, p, 0);
    var x1 := Run(QuarterAt(p, 0), x);
    QuarterHolds(mix, x1, p, 1);
    var x2 := Run(QuarterAt(p, 1), x1);
    QuarterHolds(mix, x2, p, 2);
    var x3 := Run(QuarterAt(p, 2), x2);
    QuarterHolds(mix, x3, p, 3);
  }

  lemma ColumnRoundIs(mix: (nat, nat, nat, Places) -> nat, x: State)
    requires Stores(mix)
    ensures Run(ColumnRound(), x) == ColumnsRound(mix, x)
  {
    var p: seq<Index> := [0, 4, 8, 12, 5, 9, 13, 1, 10, 14, 2, 6, 15, 3, 7, 11];
    FourHold(mix, x, p);
    ColumnList(p);
    ColumnsFrom(mix, x, Run(ColumnRound(), x), p);
  }

  lemma ColumnList(p: seq<Index>)
    requires p == [0, 4, 8, 12, 5, 9, 13, 1, 10, 14, 2, 6, 15, 3, 7, 11]
    ensures ColumnRound() == QuarterAt(p, 0) + QuarterAt(p, 1) + QuarterAt(p, 2) + QuarterAt(p, 3)
  {
  }

  lemma ColumnsFrom(mix: (nat, nat, nat, Places) -> nat, x: State, y: State, p: seq<Index>)
    requires p == [0, 4, 8, 12, 5, 9, 13, 1, 10, 14, 2, 6, 15, 3, 7, 11]
    requires Holds(mix, x, y, p, 0) && Holds(mix, x, y, p, 1) && Holds(mix, x, y, p, 2) && Holds(mix, x, y, p, 3)
    ensures y == ColumnsRound(mix, x)
  {
  }

  lemma RowRoundIs(mix: (nat, nat, nat, Places) -> nat, x: State)
    requires Stores(mix)
    ensures Run(RowRound(), x) == RowsRound(mix, x)
  {
    var p: seq<Index> := [0, 1, 2, 3, 5, 6, 7, 4, 10, 11, 8, 9, 15, 12, 13, 14];
    FourHold(mix, x, p);
    RowList(p);
    RowsFrom(mix, x, Run(RowRound(), x), p);
  }

  lemma RowList(p: seq<Index>)
    requires p == [0, 1, 2, 3, 5, 6, 7, 4, 10, 11, 8, 9, 15, 12, 13, 14]
    ensures RowRound() == QuarterAt(p, 0) + QuarterAt(p, 1) + QuarterAt(p, 2) + QuarterAt(p, 3)
  {
  }

  lemma RowsFrom(mix: (nat, nat, nat, Places) -> nat, x: State, y: State, p: seq<Index>)
    requires p == [0, 1, 2, 3, 5, 6, 7, 4, 10, 11, 8, 9, 15, 12, 13, 14]
    requires Holds(mix, x, y, p, 0) && Holds(mix, x, y, p, 1) && Holds(mix, x, y, p, 2) && Holds(mix, x, y, p, 3)
    ensures y == RowsRound(mix, x)
  {
  }

  lemma DoubleRoundIs(mix: (nat, nat, nat, Places) -> nat, x: State)
    requires Stores(mix)
    ensures Run(ColumnRound() + RowRound(), x) == DoubleRound(mix)(x)
  {
    RunConcat(ColumnRound(), RowRound(), x);
    ColumnRoundIs(mix, x);
    RowRoundIs(mix, ColumnsRound(mix, x));
  }

  lemma RunRepeated(p: seq<Assignment>, n: nat, x: State)
    requires n > 0
    ensures Run(Repeated(p, n), x) == Run(p, Run(Repeated(p, n - 1), x))
  {
    RunConcat(Repeated(p, n - 1), p, x);
  }

  lemma {:induction false} RepeatIs(p: seq<Assignment>, f: State -> State, n: nat, x: State)
    requires forall y: State :: Run(p, y) == f(y)
    ensures Run(Repeated(p, n), x) == Iterate(f, n, x)
  {
    if n > 0 {
      RepeatIs(p, f, n - 1, x);
      RunRepeated(p, n, x);
    }
  }

  lemma RoundsAre(mix: (nat, nat, nat, Places) -> nat, p: seq<Assignment>, n: nat, x: State)
    requires Stores(mix) && p == ColumnRound() + RowRound()
    ensures Run(Repeated(p, n), x) == Iterate(DoubleRound(mix), n, x)
  {
    forall y: State ensures Run(p, y) == DoubleRound(mix)(y) {
      DoubleRoundIs(mix, y);
    }
    RepeatIs(p, DoubleRound(mix), n, x);
  }

  /** The core is ten double-rounds of the specification. */
  lemma CoreIsTenRounds(x: State)
    ensures Core(x) == Iterate(DoubleRound(Mixing(Addition(), Rotation())), 10, x)
  {
    RotationRotates();
    MixStores(Addition(), Rotation());
    RoundsAre(Mixing(Addition(), Rotation()), ColumnRound() + RowRound(), ROUNDS, x);
  }

  /** `_salsa20_core`: its loop, in place, computes the ten double-rounds. */
  method SalsaCore(state: State) returns (out: State)
    ensures out == Core(state) == Iterate(DoubleRound(Mixing(Addition(), Rotation())), 10, state)
  {
    var x := new nat[16](i requires 0 <= i < 16 => state[i]);
    assert x[..] == state;
    for i := 0 to ROUNDS
      invariant x[..] == Run(DoubleRounds(i), state)
    {
      DoubleRoundInPlace(x);
      RunConcat(DoubleRounds(i), ColumnRound() + RowRound(), state);
    }
    out := x[..];
    CoreIsTenRounds(state);
  }
}
