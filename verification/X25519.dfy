/** The Montgomery ladder of `_x25519`.

    The loop defers each conditional swap to the next step. It is proved equal to the textbook
    ladder, which swaps and swaps back within a step. That the textbook ladder computes the
    multiple of the input point is proved in `Montgomery`, from the five laws collected there in
    `MontgomeryMultiples`; `MontgomeryCurve` proves these laws of the points of the curve. */
module X25519 {
  import opened PyInts
  import opened ModArith
  import opened Clamp

  /** 2^255 - 19 */
  const P: int := 0x7fff_ffff_ffff_ffff_ffff_ffff_ffff_ffff_ffff_ffff_ffff_ffff_ffff_ffff_ffff_ffed
  const A: int := 486662
  const A24: int := 121665

  /** The pair (x2 : z2), (x3 : z3) of projective coordinates the loop carries. */
  datatype Ladder = Ladder(x2: int, z2: int, x3: int, z3: int)

  function Swap(s: Ladder): Ladder
  {
    Ladder(s.x3, s.z3, s.x2, s.z2)
  }

  /** The arithmetic of one iteration, after the conditional swap. */
  function Step(x1: int, s: Ladder, p: int): Ladder
    requires p > 0
  {
    var a := (s.x2 + s.z2) % p;
    var aa := (a * a) % p;
    var b := (s.x2 - s.z2) % p;
    var bb := (b * b) % p;
    var e := (aa - bb) % p;
    var c := (s.x3 + s.z3) % p;
    var d := (s.x3 - s.z3) % p;
    var da := (d * a) % p;
    var cb := (c * b) % p;
    Ladder((aa * bb) % p, (e * (aa + A24 * e)) % p,
           ((da + cb) * (da + cb)) % p, (x1 * ((da - cb) * (da - cb))) % p)
  }

  /** The textbook ladder modulo p after the bits top - 1 down to t of k. */
  function Textbook(k: nat, x1: int, t: nat, top: nat, p: int): Ladder
    requires t <= top && p > 0
    decreases top - t
  {
    if t == top then Ladder(1, 0, x1, 1)
    else
      var s := Textbook(k, x1, t + 1, top, p);
      if Shr(k, t) % 2 == 1 then Swap(Step(x1, Swap(s), p)) else Step(x1, s, p)
  }

  /** x2 * z2^(p-2) mod p */
  function Finish(s: Ladder): (r: nat)
    ensures r < P
  {
    (s.x2 * (Pow(s.z2, P - 2) % P)) % P
  }

  function ScalarMult(scalar: Bytes, point: Bytes): (r: nat)
    requires |scalar| == 32
    ensures r < P
  {
    Finish(Textbook(FromLE(ClampBytes(scalar)), FromLE(point), 0, 255, P))
  }

  lemma PFits()
    ensures P < Pow256(31) * 128 && P < Pow256(32)
  {
    assert Pow256(8) == 0x1_0000_0000_0000_0000;
    assert Pow256(16) == 0x1_0000_0000_0000_0000_0000_0000_0000_0000;
    assert Pow256(24) == 0x1_0000_0000_0000_0000_0000_0000_0000_0000_0000_0000_0000_0000;
  }

  function X25519Spec(scalar: Bytes, point: Bytes): (r: Bytes)
    requires |scalar| == 32
    ensures |r| == 32
  {
    PFits();
    ToLE(ScalarMult(scalar, point), 32)
  }

  lemma XorBits(a: nat, b: nat)
    requires a <= 1 && b <= 1
    ensures BitXor(a, b) == if a == b then 0 else 1
  {
  }

  /** The arithmetic of one iteration of the loop, on local variables. */
  method LadderStep(x1: int, s2: int, t2: int, s3: int, t3: int) returns (x2: int, z2: int, x3: int, z3: int)
    ensures Ladder(x2, z2, x3, z3) == Step(x1, Ladder(s2, t2, s3, t3), P)
  {
    x2, z2, x3, z3 := s2, t2, s3, t3;
    var a := (x2 + z2) % P;
    var aa := (a * a) % P;
    var b := (x2 - z2) % P;
    var bb := (b * b) % P;
    var e := (aa - bb) % P;
    var c := (x3 + z3) % P;
    var d := (x3 - z3) % P;
    var da := (d * a) % P;
    var cb := (c * b) % P;
    x3 := ((da + cb) * (da + cb)) % P;
    z3 := (x1 * ((da - cb) * (da - cb))) % P;
    x2 := (aa * bb) % P;
    z2 := (e * (aa + A24 * e)) % P;
  }

  /** The loop of `_x25519`, with its delayed swaps. */
  method LadderLoop(scalarInt: nat, x1: int) returns (x2: int, z2: int)
    ensures x2 == Textbook(scalarInt, x1, 0, 255, P).x2 && z2 == Textbook(scalarInt, x1, 0, 255, P).z2
  {
    x2, z2 := 1, 0;
    var x3, z3 := x1, 1;
    var swap := 0;
    var t := 255;
    while t > 0
      invariant 0 <= t <= 255 && (swap == 0 || swap == 1)
      invariant var s := Ladder(x2, z2, x3, z3);
                (if swap == 1 then Swap(s) else s) == Textbook(scalarInt, x1, t, 255, P)
    {
      t := t - 1;
      var bit := Shr(scalarInt, t) % 2;
      XorBits(swap, bit);
      swap := BitXor(swap, bit);
      if swap != 0 {
        x2, x3 := x3, x2;
        z2, z3 := z3, z2;
      }
      swap := bit;
      x2, z2, x3, z3 := LadderStep(x1, x2, z2, x3, z3);
    }
    if swap != 0 {
      x2, x3 := x3, x2;
      z2, z3 := z3, z2;
    }
  }

  /** `_x25519` */
  method X25519(scalar: Bytes, point: Bytes) returns (r: Bytes)
    requires |scalar| == 32
    ensures r == X25519Spec(scalar, point)
  {
    var x2, z2 := LadderLoop(FromLE(ClampBytes(scalar)), FromLE(point));
    PFits();
    r := ToLE((x2 * (Pow(z2, P - 2) % P)) % P, 32);
  }
}
