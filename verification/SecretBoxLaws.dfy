/** Where every byte of a secret box comes from: the places of key, nonce and constants in the cipher state, the words
    of a block and of the derived key, the bytes of the stream, the layout of the box. */
module SecretBoxLaws {
  import opened Wrappers
  import opened PyInts
  import opened SecretBox
  import Bits
  import Salsa20
  import Salsa20Spec
  import Poly1305
  import X25519
  import Montgomery

  /** The i-th little-endian word of a string. */
  function WordOf(bs: Bytes, i: nat): nat
    requires 4 * i + 4 <= |bs|
  {
    FromLE(bs[4 * i..4 * i + 4])
  }

  /** The sixteen words: "expa", key, "nd 3", nonce, "2-by", key, "te k". */
  lemma StatePlaces(key: Bytes, nonce: Bytes, x: Words16, i: nat)
    requires |key| == 32 && |nonce| == 16 && x == SalsaState(key, nonce) && i < 4
    ensures x[0] == 0x6170_7865 && x[5] == 0x3320_646e && x[10] == 0x7962_2d32 && x[15] == 0x6b20_6574
    ensures x[1 + i] == WordOf(key, i) && x[6 + i] == WordOf(nonce, i) && x[11 + i] == WordOf(key, 4 + i)
  {
    SigmaWords(SIGMA);
    SigmaPlaces(Word, key, nonce);
    InputPlaces(Word, key, nonce, i);
    WordIs(key, i);
    WordIs(key, 4 + i);
    WordIs(nonce, i);
  }

  lemma SigmaPlaces(word: (Bytes, nat) -> Word32, key: Bytes, nonce: Bytes)
    ensures var x := Arranged(word, key, nonce);
      x[0] == word(SIGMA, 0) && x[5] == word(SIGMA, 4) && x[10] == word(SIGMA, 8) && x[15] == word(SIGMA, 12)
  {
  }

  lemma WordIs(bs: Bytes, i: nat)
    requires 4 * i + 4 <= |bs|
    ensures Word(bs, 4 * i) == WordOf(bs, i)
  {
    assert Slice(bs, 4 * i, 4 * i + 4) == bs[4 * i..4 * i + 4];
  }

  lemma FourLE(bs: Bytes, a: int, b: int, c: int, d: int)
    requires |bs| == 4 && bs[0] == a && bs[1] == b && bs[2] == c && bs[3] == d
    ensures FromLE(bs) == a + 0x100 * b + 0x1_0000 * c + 0x100_0000 * d
  {
    var t, u, v := bs[1..], bs[2..], bs[3..];
    assert t[1..] == u && u[1..] == v && v[1..] == [];
    assert FromLE(v) == d && FromLE(u) == c + 256 * FromLE(v);
    assert FromLE(t) == b + 256 * FromLE(u);
  }

  lemma SigmaWord(s: Bytes, lo: nat, a: int, b: int, c: int, d: int)
    requires lo + 4 <= |s| && s[lo] == a && s[lo + 1] == b && s[lo + 2] == c && s[lo + 3] == d
    ensures Word(s, lo) == a + 0x100 * b + 0x1_0000 * c + 0x100_0000 * d
  {
    assert Slice(s, lo, lo + 4) == s[lo..lo + 4];
    FourLE(s[lo..lo + 4], a, b, c, d);
  }

  lemma SigmaWords(s: Bytes)
    requires s == SIGMA
    ensures Word(s, 0) == 0x6170_7865 && Word(s, 4) == 0x3320_646e
    ensures Word(s, 8) == 0x7962_2d32 && Word(s, 12) == 0x6b20_6574
  {
    SigmaWord(s, 0, 0x65, 0x78, 0x70, 0x61);
    SigmaWord(s, 4, 0x6e, 0x64, 0x20, 0x33);
    SigmaWord(s, 8, 0x32, 0x2d, 0x62, 0x79);
    SigmaWord(s, 12, 0x74, 0x65, 0x20, 0x6b);
  }

  // ---------------------------------------------------------------- blocks

  lemma {:induction false} WordBack(ws: seq<Word32>, i: nat)
    requires i < |ws|
    ensures WordOf(WordsToBytes(ws), i) == ws[i]
  {
    FourBytes();
    var bs := WordsToBytes(ws);
    assert bs == ToLE(ws[0], 4) + WordsToBytes(ws[1..]);
    if i == 0 {
      assert bs[..4] == ToLE(ws[0], 4);
      FromToLE(ws[0], 4);
    } else {
      WordBack(ws[1..], i - 1);
      assert bs[4 * i..4 * i + 4] == WordsToBytes(ws[1..])[4 * (i - 1)..4 * (i - 1) + 4];
    }
  }

  /** What the core makes of the state: ten double-rounds of the specification. */
  function TenRounds(x: Salsa20.State): Salsa20.State
  {
    Salsa20Spec.Iterate(
      Salsa20Spec.DoubleRound(Salsa20Spec.Mixing(Salsa20Spec.Addition(), Salsa20Spec.Rotation())), 10, x)
  }

  lemma AddIsSum(a: Word32, b: Word32)
    ensures AddWords(a, b) == (a + b) % 0x1_0000_0000
  {
    Salsa20Spec.Mask(a + b);
  }

  lemma SumWord(core: Words16 -> Words16, x: Words16, i: nat)
    requires i < 16
    ensures WordOf(BlockBytes(core, x), i) == (core(x)[i] as int + x[i] as int) % 0x1_0000_0000
  {
    var y := core(x);
    var ws: seq<Word32> := seq(16, j requires 0 <= j < 16 => AddWords(y[j], x[j]));
    assert BlockBytes(core, x) == WordsToBytes(ws);
    AddIsSum(y[i], x[i]);
    assert ws[i] == AddWords(y[i], x[i]);
    WordBack(ws, i);
  }

  /** The core on words is ten double-rounds of the specification. */
  lemma CoreIs(x: Words16)
    ensures Core32(x) == TenRounds(x)
  {
    Salsa20Spec.CoreIsTenRounds(x);
  }

  lemma SumWordOf(core: Words16 -> Words16, x: Words16, y: Words16, i: nat)
    requires i < 16 && core(x) == y
    ensures WordOf(BlockBytes(core, x), i) == (y[i] as int + x[i] as int) % 0x1_0000_0000
  {
    SumWord(core, x, i);
  }

  lemma CoreValue(core: Words16 -> Words16, x: Words16)
    requires core == Core32
    ensures core(x) == Core32(x)
  {
  }

  /** Every word of a block is a word of the core plus the word of the state. */
  lemma BlockIsSum(key: Bytes, nonce: Bytes, x: Words16, y: Words16, i: nat)
    requires i < 16 && x == SalsaState(key, nonce) && y == Core32(x)
    ensures WordOf(Block(key, nonce), i) == (y[i] as int + x[i] as int) % 0x1_0000_0000
  {
    CoreValue(Core32, x);
    SumWordOf(Core32, x, y, i);
  }

  /** Where the i-th word of a derived key stands in the state: the diagonal, then the words of the nonce. */
  function DerivedPlace(i: nat): nat
    requires i < 8
  {
    if i < 4 then 5 * i else 2 + i
  }

  lemma Selected(core: Words16 -> Words16, x: Words16, i: nat)
    requires i < 8
    ensures WordOf(DerivedBytes(core, x), i) == core(x)[DerivedPlace(i)]
  {
    var out := core(x);
    var ws: seq<Word32> := [out[0], out[5], out[10], out[15], out[6], out[7], out[8], out[9]];
    WordBack(ws, i);
  }

  lemma SumLess(d: int, b: int, y: int, x: int)
    requires d == y && b == (y + x) % 0x1_0000_0000 && 0 <= y < 0x1_0000_0000 && 0 <= x < 0x1_0000_0000
    ensures d == (b - x) % 0x1_0000_0000
  {
  }

  lemma SelectedOf(core: Words16 -> Words16, x: Words16, y: Words16, i: nat)
    requires i < 8 && core(x) == y
    ensures WordOf(DerivedBytes(core, x), i) == y[DerivedPlace(i)]
  {
    Selected(core, x, i);
  }

  /** Every word of a derived key is a word of the core at its place, without the word of the state added. */
  lemma DerivedIsCore(key: Bytes, nonce: Bytes, x: Words16, y: Words16, i: nat)
    requires i < 8 && x == SalsaState(key, nonce) && y == Core32(x)
    ensures WordOf(HSalsa20(nonce, key), i) == y[DerivedPlace(i)]
  {
    CoreValue(Core32, x);
    SelectedOf(Core32, x, y, i);
  }

  lemma BlockLessInput(core: Words16 -> Words16, x: Words16, i: nat, d: int, b: int)
    requires i < 8 && d == WordOf(DerivedBytes(core, x), i) && b == WordOf(BlockBytes(core, x), DerivedPlace(i))
    ensures d == (b - x[DerivedPlace(i)]) % 0x1_0000_0000
  {
    Selected(core, x, i);
    SumWord(core, x, DerivedPlace(i));
    SumLess(d, b, core(x)[DerivedPlace(i)], x[DerivedPlace(i)]);
  }

  /** So it is the word of the block at that place less a known word of the state, a constant or a word of the nonce. */
  lemma DerivedIsBlockLessInput(key: Bytes, nonce: Bytes, x: Words16, i: nat, d: int, b: int)
    requires i < 8 && x == SalsaState(key, nonce)
    requires d == WordOf(HSalsa20(nonce, key), i) && b == WordOf(Block(key, nonce), DerivedPlace(i))
    ensures d == (b - x[DerivedPlace(i)]) % 0x1_0000_0000
  {
    BlockLessInput(Core32, x, i, d, b);
  }

  // ---------------------------------------------------------------- the box

  /** Byte j of the stream whose blocks are given. */
  function StreamByte(block: Counter -> Block64, j: nat): Byte
    requires j < STREAM_LIMIT
  {
    block(j / 64)[j % 64]
  }

  function StreamBytes(block: Counter -> Block64, length: nat): (r: Bytes)
    requires length <= STREAM_LIMIT
    ensures |r| == length
  {
    seq(length, i requires 0 <= i < length => StreamByte(block, i))
  }

  /** `box` is a tag and then the message added bit by bit to the stream from its byte 32 on; the tag is that of the
      ciphertext under the first 32 bytes of the stream. */
  predicate LaidOut(block: Counter -> Block64, mac: (Bytes, Bytes) -> Mac16, message: Bytes, box: Bytes)
    requires |message| + 32 <= STREAM_LIMIT
  {
    && |box| == |message| + 16
    && (forall i | 0 <= i < |message| :: box[16 + i] == BitXor(message[i], StreamByte(block, 32 + i)))
    && box[..16] == mac(box[16..], StreamBytes(block, 32))
  }

  lemma SealedParts(block: Counter -> Block64, mac: (Bytes, Bytes) -> Mac16, message: Bytes, s: Bytes, box: Bytes)
    requires |message| + 32 <= STREAM_LIMIT && s == KeyStream(|message| + 32, block)
    requires box == mac(XorBytes(message, s[32..]), s[..32]) + XorBytes(message, s[32..])
    ensures LaidOut(block, mac, message, box)
  {
    assert s[..32] == StreamBytes(block, 32);
    assert box[16..] == XorBytes(message, s[32..]);
  }

  lemma LaidOutOnce(block: Counter -> Block64, mac: (Bytes, Bytes) -> Mac16, message: Bytes, a: Bytes, b: Bytes)
    requires |message| + 32 <= STREAM_LIMIT && LaidOut(block, mac, message, a) && LaidOut(block, mac, message, b)
    ensures a == b
  {
    forall i | 16 <= i < |a| ensures a[i] == b[i] {
      assert a[16 + (i - 16)] == BitXor(message[i - 16], StreamByte(block, 32 + (i - 16)));
      assert b[16 + (i - 16)] == BitXor(message[i - 16], StreamByte(block, 32 + (i - 16)));
    }
    assert a[16..] == b[16..];
    assert a == a[..16] + a[16..] && b == b[..16] + b[16..];
  }

  lemma SealLayout(block: Counter -> Block64, mac: (Bytes, Bytes) -> Mac16, message: Bytes, box: Bytes)
    requires |message| + 32 <= STREAM_LIMIT
    ensures SealWith(StreamOf(block), mac, message) == Ok(box) <==> LaidOut(block, mac, message, box)
  {
    var n := |message| + 32;
    var s := KeyStream(n, block);
    assert StreamOf(block)(n) == Ok(s);
    assert Slice(s, 32, n) == s[32..] && Slice(s, 0, 32) == s[..32];
    var sealed := mac(XorBytes(message, s[32..]), s[..32]) + XorBytes(message, s[32..]);
    SealedParts(block, mac, message, s, sealed);
    if LaidOut(block, mac, message, box) { LaidOutOnce(block, mac, message, box, sealed); }
  }

  /** The block of a 24-byte nonce and a counter: under the key derived from the first 16 bytes of the nonce, for its
      last eight bytes and the counter in eight bytes. */
  function BoxBlock(nonce: Bytes, key: Bytes): Counter -> Block64
    requires |nonce| == 24
  {
    (counter: Counter) => EightBytes(); Block(HSalsa20(nonce[..16], key), nonce[16..] + ToLE(counter, 8))
  }

  /** What a box is, byte by byte. */
  lemma BoxLayout(message: Bytes, nonce: Bytes, key: Bytes, box: Bytes)
    requires |nonce| == 24 && |message| + 32 <= STREAM_LIMIT
    ensures Seal(message, nonce, key) == Ok(box)
      <==> LaidOut(BoxBlock(nonce, key), (c: Bytes, k: Bytes) => Poly1305.Mac(c, k), message, box)
  {
    assert Slice(nonce, 0, 16) == nonce[..16];
    var block := BlockAt(HSalsa20(nonce[..16], key), nonce[16..]);
    SealLayout(block, Tag(), message, box);
    SameBlocks(nonce, key, block);
  }

  lemma SameBlocks(nonce: Bytes, key: Bytes, block: Counter -> Block64)
    requires |nonce| == 24 && block == BlockAt(HSalsa20(nonce[..16], key), nonce[16..])
    ensures forall c: Counter :: BoxBlock(nonce, key)(c) == block(c)
  {
  }

  /** A sealed box is the ephemeral public key and a box under the key derived from the shared value and a zero nonce;
      the nonce of the box is the digest of the two public keys, the ephemeral one first. */
  lemma SealedBoxLayout(blake2b: Bytes -> Bytes, message: Bytes, recipientPublic: Bytes, ephemeralSecret: Bytes,
      public: Bytes, zeros: Bytes, sealed: Bytes)
    requires |ephemeralSecret| == 32 && public == Montgomery.X25519Base(ephemeralSecret)
    requires |zeros| == 16 && forall i | 0 <= i < 16 :: zeros[i] == 0
    ensures SealedBoxSeal(blake2b, message, recipientPublic, ephemeralSecret) == Ok(sealed) <==>
      && |sealed| >= 32 && sealed[..32] == public
      && Seal(message, blake2b(public + recipientPublic),
           HSalsa20(zeros, X25519.X25519Spec(ephemeralSecret, recipientPublic))) == Ok(sealed[32..])
  {
    assert zeros == seq(16, i => 0);
    var box := Seal(message, blake2b(public + recipientPublic), BeforeNm(recipientPublic, ephemeralSecret));
    if |sealed| >= 32 && sealed[..32] == public {
      PrependInverse(public, box, sealed);
    }
  }
}
