/** Ed25519 signing as the agent identity code writes it: affine Edwards addition with Fermat
    inverses, double-and-add, and the signature scalar reduced modulo the order of the base point. */
module Ed25519 {
  import opened PyInts
  import opened ModArith
  import opened Clamp
  import opened EdwardsCurve
  import X25519
  import DoubleAndAdd

  const P: int := X25519.P
  /** 2^252 + 27742317777372353535851937790883648493 */
  const Q: int := 7237005577332262213973186563042994240857116359379907606001950938285454250989
  const D: int := 37095705934669439343138083508754565189542113879843219016388785533085940283555

  datatype Point = Point(x: int, y: int)

  const B: Point := Point(
    15112221349535400772501151409588531511454012693041857206046113283949847762202,
    46316835694926478169428394003475163141307993866256225615783033603165251855960)

  const Zero: Point := Point(0, 1)

  predicate Reduced(p: Point)
  {
    0 <= p.x < P && 0 <= p.y < P
  }

  /** The twisted Edwards curve -x^2 + y^2 = 1 + D x^2 y^2. */
  ghost predicate OnCurve(p: Point)
  {
    Reduced(p) && On(p.x, p.y, D, P)
  }

  /** `_edwards_add` */
  function EdwardsAdd(p: Point, q: Point): (r: Point)
    ensures Reduced(r)
  {
    var den1 := Pow(1 + D * p.x * q.x * p.y * q.y, P - 2) % P;
    var x3 := (p.x * q.y + q.x * p.y) * den1 % P;
    var den2 := Pow(1 - D * p.x * q.x * p.y * q.y, P - 2) % P;
    var y3 := (p.y * q.y + p.x * q.x) * den2 % P;
    Point(x3, y3)
  }

  /** `_scalarmult` */
  function ScalarMult(point: Point, scalar: nat): Point
  {
    DoubleAndAdd.Run(EdwardsAdd, Zero, point, scalar)
  }

  method ScalarMultLoop(point: Point, scalar: nat) returns (r: Point)
    ensures r == ScalarMult(point, scalar)
  {
    r := DoubleAndAdd.Multiply(EdwardsAdd, Zero, point, scalar);
  }

  /** The n-fold sum by repeated `_edwards_add`. */
  ghost function NFold(point: Point, n: nat): Point
  {
    DoubleAndAdd.Fold(EdwardsAdd, Zero, point, n)
  }

  // ---------------------------------------------------------------- facts about the constants

  /** D is -121665/121666 and the base point lies on the curve. */
  lemma Constants()
    ensures Cong(D * 121666, -121665, P)
    ensures OnCurve(B)
    ensures !Cong(1 + D, 0, P)
  {
    CongModEq(D * 121666, -121665, P);
    CongModEq(B.y * B.y - B.x * B.x, 1 + D * ((B.x * B.x) * (B.y * B.y)), P);
    CongModEq(1 + D, 0, P);
  }

  // ---------------------------------------------------------------- identity and commutativity

  lemma {:induction false} PowOfOne(e: nat)
    ensures Pow(1, e) == 1
  {
    if e > 0 { PowOfOne(e - 1); }
  }

  lemma IdentityLeft(q: Point)
    requires Reduced(q)
    ensures EdwardsAdd(Zero, q) == q
  {
    PowOfOne(P - 2);
    assert D * 0 * q.x * 1 * q.y == 0;
  }

  lemma Commutes(p: Point, q: Point)
    ensures EdwardsAdd(p, q) == EdwardsAdd(q, p)
  {
    Reorder(p.x, q.x, p.y, q.y);
    assert p.x * q.y + q.x * p.y == q.x * p.y + p.x * q.y;
    assert p.y * q.y + p.x * q.x == q.y * p.y + q.x * p.x;
  }

  lemma Reorder(a: int, b: int, c: int, d: int)
    ensures D * a * b * c * d == D * b * a * d * c
  {
  }

  // ---------------------------------------------------------------- sums are on the curve

  /** 2^((P - 1) / 4), a square root of -1 */
  const I: int := 19681161376707505956807079304988542015446066515923890162744021073123829784752

  lemma RootOfMinusOne()
    ensures Cong(I * I, -1, P)
  {
    CongModEq(I * I, -1, P);
  }

  lemma ProductForm(x1: int, y1: int, x2: int, y2: int, d: int)
    ensures d * x1 * x2 * y1 * y2 == Product(x1, y1, x2, y2, d)
  {
  }

  /** `_edwards_add` keeps to the curve: with D no square modulo P its denominators never vanish there. */
  lemma AddOnCurve(p: Point, q: Point)
    requires IsPrime(P) && NoSquare(D, P) && OnCurve(p) && OnCurve(q)
    ensures OnCurve(EdwardsAdd(p, q))
  {
    RootOfMinusOne();
    ProductForm(p.x, p.y, q.x, q.y, D);
    SumOn(p.x, p.y, q.x, q.y, I, D, P);
  }

  /** What a sum is: its coordinates times the denominators are the numerators of the addition formulas. */
  lemma SumIs(p: Point, q: Point)
    requires IsPrime(P) && NoSquare(D, P) && OnCurve(p) && OnCurve(q)
    ensures var r, e := EdwardsAdd(p, q), D * p.x * q.x * p.y * q.y;
      && Cong(r.x * (1 + e), p.x * q.y + q.x * p.y, P)
      && Cong(r.y * (1 - e), p.y * q.y + p.x * q.x, P)
  {
    RootOfMinusOne();
    ProductForm(p.x, p.y, q.x, q.y, D);
    SumEquations(p.x, p.y, q.x, q.y, I, D, P);
  }

  lemma ZeroOnCurve()
    ensures OnCurve(Zero)
  {
    CongRefl(1, P);
    assert 1 * 1 - 0 * 0 == 1 + D * ((0 * 0) * (1 * 1));
  }

  lemma {:induction false} RunOnCurve(result: Point, addend: Point, n: nat)
    requires IsPrime(P) && NoSquare(D, P) && OnCurve(result) && OnCurve(addend)
    ensures OnCurve(DoubleAndAdd.Run(EdwardsAdd, result, addend, n))
    decreases n
  {
    if n != 0 {
      ShrNext(n, 0);
      AddOnCurve(result, addend);
      AddOnCurve(addend, addend);
      RunOnCurve(if BitAnd(n, 1) == 1 then EdwardsAdd(result, addend)
        else result, EdwardsAdd(addend, addend), Shr(n, 1));
    }
  }

  lemma MultipleOnCurve(n: nat)
    requires IsPrime(P) && NoSquare(D, P)
    ensures OnCurve(ScalarMult(B, n))
  {
    ZeroOnCurve();
    Constants();
    RunOnCurve(Zero, B, n);
  }

  // ---------------------------------------------------------------- multiples

  /** Addition associates on the multiples of one point: the part of the group law taken as given. */
  ghost predicate AssociativeOn(point: Point)
  {
    forall a: nat, b: nat, c: nat :: DoubleAndAdd.Associates(EdwardsAdd, Zero, point, a, b, c)
  }

  lemma MultiplesReduced(point: Point, n: nat)
    ensures Reduced(NFold(point, n))
  {
  }

  lemma LawsHold(point: Point)
    requires Reduced(point) && AssociativeOn(point)
    ensures DoubleAndAdd.Laws(EdwardsAdd, Zero, point)
  {
    IdentityLeft(point);
    forall a: nat ensures DoubleAndAdd.RightIdentity(EdwardsAdd, Zero, point, a) {
      var m := NFold(point, a);
      MultiplesReduced(point, a);
      IdentityLeft(m);
      Commutes(m, Zero);
    }
  }

  /** Double-and-add is n-fold `_edwards_add`. */
  lemma ScalarMultIsNFold(point: Point, n: nat)
    requires Reduced(point) && AssociativeOn(point)
    ensures ScalarMult(point, n) == NFold(point, n)
  {
    LawsHold(point);
    DoubleAndAdd.RunFromZero(EdwardsAdd, Zero, point, n);
  }

  lemma {:induction false} RunReduced(result: Point, addend: Point, n: nat)
    requires Reduced(result)
    ensures Reduced(DoubleAndAdd.Run(EdwardsAdd, result, addend, n))
    decreases n
  {
    if n != 0 {
      ShrNext(n, 0);
      RunReduced(if BitAnd(n, 1) == 1 then EdwardsAdd(result, addend)
        else result, EdwardsAdd(addend, addend), Shr(n, 1));
    }
  }

  // ---------------------------------------------------------------- encoding

  lemma SignBitFits(top: Byte, x: int)
    requires top < 128
    ensures BitOr(top, (x % 2) * 128) == top + 128 * (x % 2) < 256
  {
    if x % 2 == 1 {
      assert Pow2(7) == 128;
      OrAbove(top, 7);
    }
  }

  lemma OrAbove(low: nat, n: nat)
    requires low < Pow2(n)
    ensures BitOr(low, Pow2(n)) == low + Pow2(n)
  {
    OrBit(low, n);
    ShrAll(low, n);
  }

  lemma {:induction false} TopByteOf(v: nat, n: nat, k: nat)
    requires n > 0 && v < Pow256(n - 1) * k
    ensures Pow256(n) == 256 * Pow256(n - 1)
    ensures k <= 256 ==> v < Pow256(n) && ToLE(v, n)[n - 1] < k
    decreases n
  {
    if k <= 256 {
      var h := Pow256(n - 1);
      Monotone(h, k);
      if n > 1 {
        var g := Pow256(n - 2);
        Shrink(v, g, k);
        TopByteOf(v / 256, n - 1, k);
        assert ToLE(v, n)[n - 1] == ToLE(v / 256, n - 1)[n - 2];
      }
    }
  }

  lemma Monotone(h: nat, k: nat)
    requires k <= 256
    ensures h * k <= 256 * h
  {
  }

  lemma Shrink(v: nat, g: nat, k: nat)
    requires v < (256 * g) * k
    ensures v / 256 < g * k
  {
    assert (256 * g) * k == 256 * (g * k);
  }

  lemma YFits(y: nat)
    requires y < P
    ensures y < Pow256(32) && ToLE(y, 32)[31] < 128
  {
    X25519.PFits();
    TopByteOf(y, 32, 128);
  }

  /** `_encode_point`: y in 32 bytes with the parity of x in the top bit. */
  function EncodePoint(p: Point): (r: Bytes)
    requires Reduced(p)
    ensures |r| == 32
  {
    YFits(p.y);
    var bits := ToLE(p.y, 32);
    SignBitFits(bits[31], p.x);
    bits[31 := BitOr(bits[31], (p.x % 2) * 128)]
  }

  // ---------------------------------------------------------------- signing

  function SecretScalar(sha512: Bytes -> Bytes, seed: Bytes): nat
  {
    ClampInt(FromLE(Slice(sha512(seed), 0, 32)))
  }

  function PublicPoint(sha512: Bytes -> Bytes, seed: Bytes): (r: Point)
    ensures Reduced(r)
  {
    RunReduced(Zero, B, SecretScalar(sha512, seed));
    ScalarMult(B, SecretScalar(sha512, seed))
  }

  function Reduce(digest: Bytes): (r: nat)
    ensures r < Q
  {
    FromLE(digest) % Q
  }

  lemma QFits()
    ensures Q < Pow256(32)
  {
    X25519.PFits();
  }

  /** r: the digest of the second half of the expanded seed and the message. */
  function Nonce(sha512: Bytes -> Bytes, seed: Bytes, message: Bytes): nat
  {
    Reduce(sha512(Drop(sha512(seed), 32) + message))
  }

  function Commitment(sha512: Bytes -> Bytes, seed: Bytes, message: Bytes): (r: Point)
    ensures Reduced(r)
  {
    RunReduced(Zero, B, Nonce(sha512, seed, message));
    ScalarMult(B, Nonce(sha512, seed, message))
  }

  /** k: the digest of the encoded commitment, the encoded public key and the message. */
  function Challenge(sha512: Bytes -> Bytes, encodedR: Bytes, public: Bytes, message: Bytes): nat
  {
    Reduce(sha512(encodedR + public + message))
  }

  function ResponseScalar(a: nat, r: nat, k: nat): (s: nat)
    ensures s < Q
  {
    NonNegative(k, a);
    (r + k * a) % Q
  }

  /** `_ed25519_sign` */
  function Sign(sha512: Bytes -> Bytes, seed: Bytes, message: Bytes): (r: Bytes)
    ensures |r| == 64
  {
    var a := SecretScalar(sha512, seed);
    var public := EncodePoint(PublicPoint(sha512, seed));
    var r := Nonce(sha512, seed, message);
    var encodedR := EncodePoint(Commitment(sha512, seed, message));
    var k := Challenge(sha512, encodedR, public, message);
    QFits();
    encodedR + ToLE(ResponseScalar(a, r, k), 32)
  }

  /** `s[n:]` */
  function Drop(s: Bytes, n: nat): Bytes
  {
    if |s| <= n then [] else s[n..]
  }

  lemma NonNegative(a: nat, b: nat)
    ensures a * b >= 0
  {
  }

  /** Section 5.1.7 of RFC 8032 without the cofactor: the signature is an encoded point R of the curve and a scalar s
      below the group order with [s]B == R + [k]A, for a point A of the curve and k the digest, modulo that order, of
      the encoded R as it stands in the signature, the encoded A and the message. */
  ghost predicate Verifies(sha512: Bytes -> Bytes, public: Point, message: Bytes, signature: Bytes)
    requires Reduced(public)
  {
    exists commitment: Point, s: nat :: VerifiesWith(sha512, public, message, signature, commitment, s)
  }

  ghost predicate VerifiesWith(sha512: Bytes -> Bytes, public: Point, message: Bytes, signature: Bytes,
      commitment: Point, s: nat)
    requires Reduced(public)
  {
    && OnCurve(commitment) && OnCurve(public) && s < Q < Pow256(32)
    && signature == EncodePoint(commitment) + ToLE(s, 32)
    && NFold(B, s) == EdwardsAdd(commitment,
         NFold(public, FromLE(sha512(Slice(signature, 0, 32) + EncodePoint(public) + message)) % Q))
  }

  /** The scalar equation s = r + k a mod Q carries over to the points. */
  lemma SignatureEquation(a: nat, r: nat, k: nat)
    requires Reduced(B) && AssociativeOn(B) && NFold(B, Q) == Zero
    ensures NFold(B, ResponseScalar(a, r, k)) == EdwardsAdd(NFold(B, r), NFold(NFold(B, a), k))
  {
    NonNegative(k, a);
    ReducedMultiple(B, r + k * a, Q);
    SumOfMultiples(B, a, r, k);
  }

  lemma ReducedMultiple(point: Point, n: nat, q: nat)
    requires Reduced(point) && AssociativeOn(point) && q > 0 && NFold(point, q) == Zero
    ensures NFold(point, n % q) == NFold(point, n)
  {
    Division(n, q);
    PeriodicMultiple(point, n, q, n / q, n % q);
  }

  lemma Division(n: nat, q: nat)
    requires q > 0
    ensures n / q >= 0 && n % q >= 0 && n == n % q + q * (n / q)
  {
  }

  lemma PeriodicMultiple(point: Point, n: nat, q: nat, m: nat, r: nat)
    requires Reduced(point) && AssociativeOn(point) && NFold(point, q) == Zero && n == r + q * m
    ensures NFold(point, r) == NFold(point, n)
  {
    LawsHold(point);
    DoubleAndAdd.FoldPeriodic(EdwardsAdd, Zero, point, q, m, r);
  }

  lemma SumOfMultiples(point: Point, a: nat, r: nat, k: nat)
    requires Reduced(point) && AssociativeOn(point)
    ensures k * a >= 0 && NFold(point, r + k * a) == EdwardsAdd(NFold(point, r), NFold(NFold(point, a), k))
  {
    LawsHold(point);
    NonNegative(k, a);
    DoubleAndAdd.FoldProduct(EdwardsAdd, Zero, point, a, k);
    assert a * k == k * a;
    DoubleAndAdd.FoldSum(EdwardsAdd, Zero, point, r, k * a);
  }

  /** Every signature the code produces verifies under the public key it derives from the seed. */
  lemma SignatureVerifies(sha512: Bytes -> Bytes, seed: Bytes, message: Bytes)
    requires IsPrime(P) && NoSquare(D, P) && AssociativeOn(B) && NFold(B, Q) == Zero
    ensures Verifies(sha512, PublicPoint(sha512, seed), message, Sign(sha512, seed, message))
  {
    var public := PublicPoint(sha512, seed);
    var commitment := Commitment(sha512, seed, message);
    var k := Challenge(sha512, EncodePoint(commitment), EncodePoint(public), message);
    var a, r := SecretScalar(sha512, seed), Nonce(sha512, seed, message);
    MultipleOnCurve(a);
    MultipleOnCurve(r);
    PointEquation(a, r, k);
    SignatureShape(sha512, seed, message, commitment, public, k);
    Assemble(sha512, public, message, Sign(sha512, seed, message), commitment, ResponseScalar(a, r, k), k);
  }

  lemma Assemble(sha512: Bytes -> Bytes, public: Point, message: Bytes, signature: Bytes, commitment: Point, s: nat,
      k: nat)
    requires OnCurve(public) && OnCurve(commitment) && s < Q < Pow256(32)
    requires k == Challenge(sha512, EncodePoint(commitment), EncodePoint(public), message)
    requires signature == EncodePoint(commitment) + ToLE(s, 32)
    requires NFold(B, s) == EdwardsAdd(commitment, NFold(public, k))
    ensures Verifies(sha512, public, message, signature)
  {
    assert Slice(signature, 0, 32) == EncodePoint(commitment);
    assert VerifiesWith(sha512, public, message, signature, commitment, s);
  }

  lemma SignatureShape(sha512: Bytes -> Bytes, seed: Bytes, message: Bytes, commitment: Point, public: Point, k: nat)
    requires commitment == Commitment(sha512, seed, message) && public == PublicPoint(sha512, seed)
    requires k == Challenge(sha512, EncodePoint(commitment), EncodePoint(public), message)
    ensures var s := ResponseScalar(SecretScalar(sha512, seed), Nonce(sha512, seed, message), k);
            s < Q < Pow256(32) && Sign(sha512, seed, message) == EncodePoint(commitment) + ToLE(s, 32)
  {
    QFits();
  }

  // What is signed, without the functions the signer shares with the verifier.

  lemma SecretScalarIs(sha512: Bytes -> Bytes, seed: Bytes, a: nat)
    requires |sha512(seed)| == 64 && IsClamped(a, FromLE(sha512(seed)[..32]))
    ensures SecretScalar(sha512, seed) == a
  {
    var half := sha512(seed)[..32];
    assert Slice(sha512(seed), 0, 32) == half;
    FromLEBound(half);
    ClampIsBitwise(FromLE(half));
    ClampedIsUnique(a, ClampInt(FromLE(half)), FromLE(half));
  }

  /** The public key is [a]B for the clamped first half of the digest of the seed. */
  lemma PublicKeyIs(sha512: Bytes -> Bytes, seed: Bytes, a: nat)
    requires AssociativeOn(B) && |sha512(seed)| == 64 && IsClamped(a, FromLE(sha512(seed)[..32]))
    ensures PublicPoint(sha512, seed) == NFold(B, a)
  {
    SecretScalarIs(sha512, seed, a);
    Constants();
    ScalarMultIsNFold(B, a);
  }

  /** The signature is the encoded [r]B and the scalar r + k a, for r the digest of the second half of the digest of the
      seed and the message, k the digest of the encoded [r]B, the public key and the message, modulo the group order. */
  lemma SignatureIs(sha512: Bytes -> Bytes, seed: Bytes, message: Bytes, a: nat, r: nat, k: nat)
    requires AssociativeOn(B) && |sha512(seed)| == 64 && IsClamped(a, FromLE(sha512(seed)[..32]))
    requires r == FromLE(sha512(sha512(seed)[32..] + message)) % Q
    requires k == FromLE(sha512(EncodePoint(NFold(B, r)) + EncodePoint(NFold(B, a)) + message)) % Q
    ensures Sign(sha512, seed, message)[..32] == EncodePoint(NFold(B, r))
    ensures k * a >= 0 && FromLE(Sign(sha512, seed, message)[32..]) == (r + k * a) % Q
  {
    PublicKeyIs(sha512, seed, a);
    SecretScalarIs(sha512, seed, a);
    CommitmentIs(sha512, seed, message, r);
    SignParts(sha512, seed, message, a, r, k);
    ResponseIs(a, r, k);
  }

  lemma CommitmentIs(sha512: Bytes -> Bytes, seed: Bytes, message: Bytes, r: nat)
    requires AssociativeOn(B) && |sha512(seed)| == 64
    requires r == FromLE(sha512(sha512(seed)[32..] + message)) % Q
    ensures r == Nonce(sha512, seed, message) && Commitment(sha512, seed, message) == NFold(B, r)
  {
    Constants();
    ScalarMultIsNFold(B, r);
  }

  lemma ResponseIs(a: nat, r: nat, k: nat)
    ensures k * a >= 0 && ResponseScalar(a, r, k) < Pow256(32)
    ensures FromLE(ToLE(ResponseScalar(a, r, k), 32)) == (r + k * a) % Q
  {
    NonNegative(k, a);
    QFits();
    FromToLE(ResponseScalar(a, r, k), 32);
  }

  lemma SignParts(sha512: Bytes -> Bytes, seed: Bytes, message: Bytes, a: nat, r: nat, k: nat)
    requires |sha512(seed)| == 64 && a == SecretScalar(sha512, seed) && r == Nonce(sha512, seed, message)
    requires k == Challenge(sha512, EncodePoint(Commitment(sha512, seed, message)),
      EncodePoint(PublicPoint(sha512, seed)), message)
    ensures Sign(sha512, seed, message)[..32] == EncodePoint(Commitment(sha512, seed, message))
    ensures ResponseScalar(a, r, k) < Pow256(32)
      && Sign(sha512, seed, message)[32..] == ToLE(ResponseScalar(a, r, k), 32)
  {
    QFits();
  }

  lemma PointEquation(a: nat, r: nat, k: nat)
    requires AssociativeOn(B) && NFold(B, Q) == Zero
    ensures NFold(B, ResponseScalar(a, r, k)) == EdwardsAdd(ScalarMult(B, r), NFold(ScalarMult(B, a), k))
  {
    Constants();
    ScalarMultIsNFold(B, a);
    ScalarMultIsNFold(B, r);
    SignatureEquation(a, r, k);
  }

  // ---------------------------------------------------------------- the encoding determines the point

  lemma EncodingParts(p: Point)
    requires Reduced(p)
    ensures p.y < Pow256(32) && ToLE(p.y, 32)[31] < 128
    ensures EncodePoint(p)[..31] == ToLE(p.y, 32)[..31]
    ensures EncodePoint(p)[31] == ToLE(p.y, 32)[31] + 128 * (p.x % 2)
  {
    YFits(p.y);
    SignBitFits(ToLE(p.y, 32)[31], p.x);
  }

  lemma TopParity(e: Bytes, plain: Bytes, parity: nat)
    requires |e| == |plain| == 32 && e[..31] == plain[..31] && plain[31] < 128 && parity < 2
    requires e[31] == plain[31] + 128 * parity
    ensures e[31] / 128 == parity && e[31 := e[31] % 128] == plain
  {
    SameHeadAndTail(e[31 := e[31] % 128], plain);
  }

  lemma ReadBack(y: nat, n: nat, plain: Bytes)
    requires y < Pow256(n) && plain == ToLE(y, n)
    ensures FromLE(plain) == y
  {
    FromToLE(y, n);
  }

  /** An encoded point is its y, little-endian, with the parity of its x in the top bit. */
  lemma EncodedPointIs(p: Point)
    requires Reduced(p)
    ensures var e := EncodePoint(p); e[31] / 128 == p.x % 2 && FromLE(e[31 := e[31] % 128]) == p.y
  {
    EncodingParts(p);
    TopParity(EncodePoint(p), ToLE(p.y, 32), p.x % 2);
    ReadBack(p.y, 32, ToLE(p.y, 32));
  }

  lemma EncodingEqual(p: Point, q: Point)
    requires Reduced(p) && Reduced(q) && EncodePoint(p) == EncodePoint(q)
    ensures p.y == q.y && p.x % 2 == q.x % 2
  {
    EncodingParts(p);
    EncodingParts(q);
    var a, b := ToLE(p.y, 32), ToLE(q.y, 32);
    assert a[31] == b[31] && p.x % 2 == q.x % 2 by { SameTopByte(a[31], p.x % 2, b[31], q.x % 2); }
    SameHeadAndTail(a, b);
    FromToLE(p.y, 32);
    FromToLE(q.y, 32);
  }

  lemma SameTopByte(a: nat, i: nat, b: nat, j: nat)
    requires a < 128 && b < 128 && i < 2 && j < 2 && a + 128 * i == b + 128 * j
    ensures a == b && i == j
  {
  }

  lemma SameHeadAndTail(a: Bytes, b: Bytes)
    requires |a| == |b| == 32 && a[..31] == b[..31] && a[31] == b[31]
    ensures a == b
  {
    assert a == a[..31] + [a[31]];
    assert b == b[..31] + [b[31]];
  }

  /** On the curve x^2 is determined by y, because 1 + d y^2 never vanishes there: f and g are the squares of the two
      x-coordinates, y that of the common y-coordinate. */
  lemma SquareDetermined(f: int, g: int, y: int, d: int, p: int)
    requires IsPrime(p) && !Cong(1 + d, 0, p) && Cong(y - f, 1 + d * (f * y), p) && Cong(y - g, 1 + d * (g * y), p)
    ensures Cong(f - g, 0, p)
  {
    CongAdd(y - f, 1 + d * (f * y), y - g, 1 + d * (g * y), p);
    Rearrange(f, g, y, d, p);
    Euclid(p, f - g, 1 + d * y);
    if Cong(1 + d * y, 0, p) && !Cong(f - g, 0, p) {
      VanishingDenominator(f, y, d, p);
    }
  }

  lemma Rearrange(f: int, g: int, y: int, d: int, p: int)
    requires p > 0 && Cong((y - f) - (y - g), (1 + d * (f * y)) - (1 + d * (g * y)), p)
    ensures Cong((f - g) * (1 + d * y), 0, p)
  {
    var l, r := (y - f) - (y - g), (1 + d * (f * y)) - (1 + d * (g * y));
    CongSym(l, r, p);
    CongRefl(l, p);
    CongAdd(r, l, l, l, p);
    DifferenceTimes(f, g, y, d);
  }

  lemma DifferenceTimes(f: int, g: int, y: int, d: int)
    ensures (1 + d * (f * y)) - (1 + d * (g * y)) - ((y - f) - (y - g)) == (f - g) * (1 + d * y)
  {
    assert (f - g) * (d * y) == d * (f * y) - d * (g * y);
  }

  lemma VanishingDenominator(f: int, y: int, d: int, p: int)
    requires p > 0 && Cong(y - f, 1 + d * (f * y), p) && Cong(1 + d * y, 0, p)
    ensures Cong(1 + d, 0, p)
  {
    CongRefl(f, p);
    CongMul(f, f, 1 + d * y, 0, p);
    TimesDenominator(f, y, d);
    CongAdd(y - f, 1 + d * (f * y), f + d * (f * y), 0, p);
    UnitOrdinate(d * (f * y), y, d, p);
  }

  lemma TimesDenominator(f: int, y: int, d: int)
    ensures f * (1 + d * y) == f + d * (f * y) && f * 0 == 0
  {
    assert f * (d * y) == d * (f * y);
  }

  /** Where y is 1 the denominator 1 + d y is 1 + d. */
  lemma UnitOrdinate(w: int, y: int, d: int, p: int)
    requires p > 0 && Cong(y + w, 1 + w, p) && Cong(1 + d * y, 0, p)
    ensures Cong(1 + d, 0, p)
  {
    CongRefl(w, p);
    CongAdd(y + w, 1 + w, w, w, p);
    CongRefl(d, p);
    CongMul(d, d, y, 1, p);
    CongSym(d * y, d, p);
    CongRefl(1, p);
    CongAdd(1, 1, d, d * y, p);
    CongTrans(1 + d, 1 + d * y, 0, p);
  }

  /** Two points of the curve with the same 32-byte encoding are equal. */
  lemma EncodePointInjective(p: Point, q: Point)
    requires IsPrime(P) && OnCurve(p) && OnCurve(q) && EncodePoint(p) == EncodePoint(q)
    ensures p == q
  {
    EncodingEqual(p, q);
    Constants();
    SquareDetermined(p.x * p.x, q.x * q.x, p.y * p.y, D, P);
    SquareRoots(p.x, q.x);
  }

  lemma SquareRoots(a: int, b: int)
    requires IsPrime(P) && 0 <= a < P && 0 <= b < P && a % 2 == b % 2
    requires Cong(a * a - b * b, 0, P)
    ensures a == b
  {
    assert (a - b) * (a + b) == a * a - b * b;
    Euclid(P, a - b, a + b);
    if Cong(a - b, 0, P) {
      CongRefl(b, P);
      CongAdd(a - b, 0, b, b, P);
      CongReduced(a, b, P);
    } else {
      OppositeParities(a, b);
    }
  }

  lemma OppositeParities(a: int, b: int)
    requires 0 <= a < P && 0 <= b < P && Cong(a + b, 0, P) && a % 2 == b % 2
    ensures a == b
  {
    var k := CongElim(a + b, 0, P);
  }

  /** Nothing else is encoded in the signature: the point and the scalar it is verified with are determined by it. */
  lemma WitnessIsUnique(sha512: Bytes -> Bytes, public: Point, message: Bytes, signature: Bytes, c: Point, s: nat,
      c': Point, s': nat)
    requires IsPrime(P) && Reduced(public)
    requires VerifiesWith(sha512, public, message, signature, c, s)
    requires VerifiesWith(sha512, public, message, signature, c', s')
    ensures c == c' && s == s'
  {
    SameParts(EncodePoint(c), ToLE(s, 32), EncodePoint(c'), ToLE(s', 32));
    EncodePointInjective(c, c');
    FromToLE(s, 32);
    FromToLE(s', 32);
  }

  lemma SameParts(a: Bytes, b: Bytes, a': Bytes, b': Bytes)
    requires |a| == |a'| && a + b == a' + b'
    ensures a == a' && b == b'
  {
    assert a == (a + b)[..|a|] && b == (a + b)[|a|..];
    assert a' == (a' + b')[..|a|] && b' == (a' + b')[|a|..];
  }
}
