/** The Salsa20 core permutation `_salsa20_core` and its inverse.

    The 32 assignments of the loop body all have the form
    `x[t] ^= _rotl32((x[u] + x[v]) & 0xFFFFFFFF, shift)`; a round is a list of them. */
module Salsa20 {
  import opened PyInts

  const MASK32: nat := 0xffff_ffff
  const TWO_32: nat := 0x1_0000_0000
  const ROUNDS: nat := 10

  /** A word list of the right length. */
  type State = x: seq<nat> | |x| == 16 witness seq(16, i => 0)
  type Index = i: nat | i < 16

  datatype Assignment = Assignment(t: Index, u: Index, v: Index, shift: nat)

  // ---------------------------------------------------------------- one assignment

  /** `a << n` */
  function Shl(a: nat, n: nat): nat
  {
    if n == 0 then a else 2 * Shl(a, n - 1)
  }

  /** `_rotl32` */
  function Rotl32(value: nat, shift: nat): (r: nat)
    ensures r < TWO_32
  {
    BitAnd(BitOr(Shl(value, shift), if shift <= 32 then Shr(value, 32 - shift) else 0), MASK32)
  }

  function Mix(x: State, m: Assignment): State
  {
    x[m.t := BitXor(x[m.t], Rotl32(BitAnd(x[m.u] + x[m.v], MASK32), m.shift))]
  }

  /** The assignments of a list, in order. */
  function Run(p: seq<Assignment>, x: State): State
    decreases |p|, x
  {
    if p == [] then x else Mix(Run(p[..|p| - 1], x), p[|p| - 1])
  }

  // ---------------------------------------------------------------- the rounds

  function Quarter(a: Index, b: Index, c: Index, d: Index): seq<Assignment>
  {
    [Assignment(b, a, d, 7), Assignment(c, b, a, 9), Assignment(d, c, b, 13), Assignment(a, d, c, 18)]
  }

  function ColumnRound(): seq<Assignment>
  {
    Quarter(0, 4, 8, 12) + Quarter(5, 9, 13, 1) + Quarter(10, 14, 2, 6) + Quarter(15, 3, 7, 11)
  }

  function RowRound(): seq<Assignment>
  {
    Quarter(0, 1, 2, 3) + Quarter(5, 6, 7, 4) + Quarter(10, 11, 8, 9) + Quarter(15, 12, 13, 14)
  }

  function Repeated(p: seq<Assignment>, n: nat): seq<Assignment>
    decreases n, p
  {
    if n == 0 then [] else Repeated(p, n - 1) + p
  }

  function DoubleRounds(n: nat): seq<Assignment>
  {
    Repeated(ColumnRound() + RowRound(), n)
  }

  function Core(x: State): State
  {
    Run(DoubleRounds(ROUNDS), x)
  }

  lemma {:induction false} RunConcat(p: seq<Assignment>, q: seq<Assignment>, x: State)
    ensures Run(p + q, x) == Run(q, Run(p, x))
    decreases |q|
  {
    if q == [] {
      assert p + q == p;
    } else {
      RunConcat(p, q[..|q| - 1], x);
      assert (p + q)[..|p + q| - 1] == p + q[..|q| - 1];
    }
  }

  // ---------------------------------------------------------------- the loop, in place

  method MixInPlace(x: array<nat>, t: Index, u: Index, v: Index, shift: nat)
    requires x.Length == 16
    modifies x
    ensures x[..] == Mix(old(x[..]), Assignment(t, u, v, shift))
  {
    x[t] := BitXor(x[t], Rotl32(BitAnd(x[u] + x[v], MASK32), shift));
  }

  method QuarterInPlace(x: array<nat>, a: Index, b: Index, c: Index, d: Index)
    requires x.Length == 16
    modifies x
    ensures x[..] == Run(Quarter(a, b, c, d), old(x[..]))
  {
    ghost var s: State := x[..];
    MixInPlace(x, b, a, d, 7);
    MixInPlace(x, c, b, a, 9);
    MixInPlace(x, d, c, b, 13);
    MixInPlace(x, a, d, c, 18);
    RunQuarter(s, a, b, c, d);
  }

  lemma RunQuarter(x: State, a: Index, b: Index, c: Index, d: Index)
    ensures Run(Quarter(a, b, c, d), x)
         == Mix(Mix(Mix(Mix(x, Assignment(b, a, d, 7)), Assignment(c, b, a, 9)), Assignment(d, c, b, 13)),
           Assignment(a, d, c, 18))
  {
    var p := Quarter(a, b, c, d);
    assert p[..3][..2] == p[..2] && p[..2][..1] == p[..1] && p[..1][..0] == [];
    assert Run(p[..1], x) == Mix(Run(p[..1][..0], x), p[0]);
    assert Run(p[..2], x) == Mix(Run(p[..1], x), p[1]);
    assert Run(p[..3], x) == Mix(Run(p[..2], x), p[2]);
  }

  /** The first or the second sixteen assignments of the loop body. */
  lemma RunFour(p: seq<Assignment>, q: seq<Assignment>, r: seq<Assignment>, s: seq<Assignment>, x: State)
    ensures Run(p + q + r + s, x) == Run(s, Run(r, Run(q, Run(p, x))))
  {
    RunConcat(p + q + r, s, x);
    RunConcat(p + q, r, x);
    RunConcat(p, q, x);
  }

  method DoubleRoundInPlace(x: array<nat>)
    requires x.Length == 16
    modifies x
    ensures x[..] == Run(ColumnRound() + RowRound(), old(x[..]))
  {
    ghost var s: State := x[..];
    QuarterInPlace(x, 0, 4, 8, 12);
    QuarterInPlace(x, 5, 9, 13, 1);
    QuarterInPlace(x, 10, 14, 2, 6);
    QuarterInPlace(x, 15, 3, 7, 11);
    RunFour(Quarter(0, 4, 8, 12), Quarter(5, 9, 13, 1), Quarter(10, 14, 2, 6), Quarter(15, 3, 7, 11), s);
    ghost var t: State := x[..];
    QuarterInPlace(x, 0, 1, 2, 3);
    QuarterInPlace(x, 5, 6, 7, 4);
    QuarterInPlace(x, 10, 11, 8, 9);
    QuarterInPlace(x, 15, 12, 13, 14);
    RunFour(Quarter(0, 1, 2, 3), Quarter(5, 6, 7, 4), Quarter(10, 11, 8, 9), Quarter(15, 12, 13, 14), t);
    RunConcat(ColumnRound(), RowRound(), s);
  }

  // ---------------------------------------------------------------- words stay below 2^32

  predicate Words(x: State)
  {
    forall i | 0 <= i < 16 :: x[i] < TWO_32
  }

  lemma Pow2Is32()
    ensures Pow2(32) == TWO_32
  {
    assert Pow2(8) == 256 && Pow2(16) == 65536 && Pow2(24) == 0x100_0000;
  }

  lemma MixKeepsWords(x: State, m: Assignment)
    requires Words(x)
    ensures Words(Mix(x, m))
  {
    Pow2Is32();
    XorBounded(x[m.t], Rotl32(BitAnd(x[m.u] + x[m.v], MASK32), m.shift), 32);
  }

  lemma {:induction false} RunKeepsWords(p: seq<Assignment>, x: State)
    requires Words(x)
    ensures Words(Run(p, x))
    decreases |p|
  {
    if p != [] {
      RunKeepsWords(p[..|p| - 1], x);
      MixKeepsWords(Run(p[..|p| - 1], x), p[|p| - 1]);
    }
  }

  // ---------------------------------------------------------------- the inverse

  function Reverse(p: seq<Assignment>): (r: seq<Assignment>)
    ensures |r| == |p|
  {
    if p == [] then [] else [p[|p| - 1]] + Reverse(p[..|p| - 1])
  }

  /** All assignments undone, the last one first. */
  function InvCore(x: State): State
  {
    Run(Reverse(DoubleRounds(ROUNDS)), x)
  }

  /** No assignment reads the word it writes. */
  predicate Undoable(p: seq<Assignment>)
  {
    forall i | 0 <= i < |p| :: p[i].u != p[i].t && p[i].v != p[i].t
  }

  lemma MixTwice(x: State, m: Assignment)
    requires m.u != m.t && m.v != m.t
    ensures Mix(Mix(x, m), m) == x
  {
    XorCancel(x[m.t], Rotl32(BitAnd(x[m.u] + x[m.v], MASK32), m.shift));
  }

  lemma {:induction false} ReverseUndoes(p: seq<Assignment>, x: State)
    requires Undoable(p)
    ensures Run(Reverse(p), Run(p, x)) == x
    decreases |p|
  {
    if p == [] {
    } else {
      var q, m := p[..|p| - 1], p[|p| - 1];
      var y := Run(q, x);
      RunConcat([m], Reverse(q), Mix(y, m));
      assert [m][..0] == [];
      assert Run([m], Mix(y, m)) == Mix(Run([m][..0], Mix(y, m)), m);
      MixTwice(y, m);
      ReverseUndoes(q, x);
    }
  }

  lemma {:induction false} ReverseConcat(p: seq<Assignment>, m: Assignment)
    ensures Reverse([m] + p) == Reverse(p) + [m]
    decreases |p|
  {
    if p == [] {
      assert [m] + p == [m] && [m][..0] == [];
    } else {
      var q, l := p[..|p| - 1], p[|p| - 1];
      var mp := [m] + p;
      assert mp[..|mp| - 1] == [m] + q && mp[|mp| - 1] == l;
      ReverseConcat(q, m);
      assert Reverse(mp) == [l] + Reverse([m] + q);
      assert [l] + (Reverse(q) + [m]) == ([l] + Reverse(q)) + [m];
    }
  }

  lemma {:induction false} ReverseTwice(p: seq<Assignment>)
    ensures Reverse(Reverse(p)) == p
    decreases |p|
  {
    if p != [] {
      var q, m := p[..|p| - 1], p[|p| - 1];
      ReverseConcat(Reverse(q), m);
      ReverseTwice(q);
    }
  }

  lemma {:induction false} ReverseUndoable(p: seq<Assignment>)
    requires Undoable(p)
    ensures Undoable(Reverse(p))
    decreases |p|
  {
    if p != [] { ReverseUndoable(p[..|p| - 1]); }
  }

  lemma {:induction false} RepeatedUndoable(p: seq<Assignment>, n: nat)
    requires Undoable(p)
    ensures Undoable(Repeated(p, n))
  {
    if n > 0 { RepeatedUndoable(p, n - 1); }
  }

  lemma RoundsUndoable(n: nat)
    ensures Undoable(DoubleRounds(n))
  {
    assert Undoable(ColumnRound() + RowRound());
    RepeatedUndoable(ColumnRound() + RowRound(), n);
  }

  /** The core is a bijection on 16-word states: InvCore undoes all ten double rounds, from both sides. */
  lemma CoreIsBijection(x: State, y: State)
    ensures Core(x) == y <==> InvCore(y) == x
  {
    var p := DoubleRounds(ROUNDS);
    RoundsUndoable(ROUNDS);
    ReverseUndoes(p, x);
    ReverseUndoable(p);
    ReverseTwice(p);
    ReverseUndoes(Reverse(p), y);
  }

  /** Both directions map 32-bit words to 32-bit words. */
  lemma CoreKeepsWords(x: State)
    requires Words(x)
    ensures Words(Core(x)) && Words(InvCore(x))
  {
    RunKeepsWords(DoubleRounds(ROUNDS), x);
    RunKeepsWords(Reverse(DoubleRounds(ROUNDS)), x);
  }

  // ---------------------------------------------------------------- transposition

  /** The index in the 4x4 matrix with rows and columns exchanged. */
  function Flip(i: Index): Index
  {
    4 * (i % 4) + i / 4
  }

  function Transpose(x: State): State
  {
    seq(16, i requires 0 <= i < 16 => x[Flip(i)])
  }

  function FlipAll(p: seq<Assignment>): (r: seq<Assignment>)
    ensures |r| == |p|
  {
    seq(|p|, i requires 0 <= i < |p| => Assignment(Flip(p[i].t), Flip(p[i].u), Flip(p[i].v), p[i].shift))
  }

  lemma FlipTwice(i: Index)
    ensures Flip(Flip(i)) == i
  {
  }

  lemma TransposeTwice(x: State)
    ensures Transpose(Transpose(x)) == x
  {
    forall i: Index ensures Transpose(Transpose(x))[i] == x[i] {
      FlipTwice(i);
    }
  }

  lemma MixTransposed(x: State, m: Assignment)
    ensures Transpose(Mix(x, m)) == Mix(Transpose(x), Assignment(Flip(m.t), Flip(m.u), Flip(m.v), m.shift))
  {
    FlipTwice(m.t);
    FlipTwice(m.u);
    FlipTwice(m.v);
    var l, r := Transpose(Mix(x, m)), Mix(Transpose(x), Assignment(Flip(m.t), Flip(m.u), Flip(m.v), m.shift));
    forall i: Index ensures l[i] == r[i] {
      FlipTwice(i);
    }
  }

  lemma {:induction false} RunTransposed(p: seq<Assignment>, x: State)
    ensures Transpose(Run(p, x)) == Run(FlipAll(p), Transpose(x))
    decreases |p|
  {
    if p != [] {
      var q, m := p[..|p| - 1], p[|p| - 1];
      RunTransposed(q, x);
      MixTransposed(Run(q, x), m);
      assert FlipAll(p)[..|p| - 1] == FlipAll(q);
    }
  }

  lemma QuarterFlipped(a: Index, b: Index, c: Index, d: Index)
    ensures FlipAll(Quarter(a, b, c, d)) == Quarter(Flip(a), Flip(b), Flip(c), Flip(d))
  {
  }

  lemma FlipConcat(p: seq<Assignment>, q: seq<Assignment>)
    ensures FlipAll(p + q) == FlipAll(p) + FlipAll(q)
  {
  }

  lemma ColumnFlipped()
    ensures FlipAll(ColumnRound()) == RowRound()
  {
    var p, q, r, s := Quarter(0, 4, 8, 12), Quarter(5, 9, 13, 1), Quarter(10, 14, 2, 6), Quarter(15, 3, 7, 11);
    FlipConcat(p + q + r, s);
    FlipConcat(p + q, r);
    FlipConcat(p, q);
    QuarterFlipped(0, 4, 8, 12);
    QuarterFlipped(5, 9, 13, 1);
    QuarterFlipped(10, 14, 2, 6);
    QuarterFlipped(15, 3, 7, 11);
  }

  /** The second half of a double round is the first half conjugated by transposition. */
  lemma RowIsTransposedColumn(x: State)
    ensures Run(RowRound(), x) == Transpose(Run(ColumnRound(), Transpose(x)))
  {
    ColumnFlipped();
    RunTransposed(ColumnRound(), Transpose(x));
    TransposeTwice(x);
  }
}
