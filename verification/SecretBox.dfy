/** The XSalsa20-Poly1305 secret box and the sealed box built on it. */
module SecretBox {
  import opened Wrappers
  import opened PyInts
  import Salsa20
  import Poly1305
  import X25519
  import Montgomery
  import MontgomeryCurve
  import ModArith

  datatype Error = TooShort | AuthenticationFailed | CounterOverflow
  datatype Result<+T> = Ok(value: T) | Err(error: Error)

  // ---------------------------------------------------------------- the cipher blocks

  type Word32 = w: nat | w < 0x1_0000_0000
  type Words16 = ws: seq<Word32> | |ws| == 16 witness seq(16, i => 0)
  type Block64 = b: Bytes | |b| == 64 witness seq(64, i => 0)
  type Counter = c: nat | c < 0x1_0000_0000_0000_0000

  lemma {:induction false} SmallWord(bs: Bytes)
    requires |bs| <= 4
    ensures FromLE(bs) < 0x1_0000_0000
  {
    FromLEBound(bs);
    assert Pow256(1) == 256 && Pow256(2) == 65536 && Pow256(3) == 0x100_0000 && Pow256(4) == 0x1_0000_0000;
  }

  /** `int.from_bytes(s[lo:lo + 4], "little")` */
  function Word(s: Bytes, lo: nat): Word32
  {
    SmallWord(Slice(s, lo, lo + 4));
    FromLE(Slice(s, lo, lo + 4))
  }

  /** "expand 32-byte k" */
  const SIGMA: Bytes := [101, 120, 112, 97, 110, 100, 32, 51, 50, 45, 98, 121, 116, 101, 32, 107]

  /** `_salsa_state` */
  function SalsaState(key: Bytes, nonce16: Bytes): (x: seq<Word32>)
    ensures |x| == 16
  {
    Arranged(Word, key, nonce16)
  }

  function Arranged(word: (Bytes, nat) -> Word32, key: Bytes, nonce16: Bytes): (x: seq<Word32>)
    ensures |x| == 16
  {
    [ word(SIGMA, 0), word(key, 0), word(key, 4), word(key, 8), word(key, 12),
      word(SIGMA, 4), word(nonce16, 0), word(nonce16, 4), word(nonce16, 8), word(nonce16, 12),
      word(SIGMA, 8), word(key, 16), word(key, 20), word(key, 24), word(key, 28), word(SIGMA, 12) ]
  }

  lemma FromLEInjective(a: Bytes, b: Bytes)
    requires |a| == |b| && FromLE(a) == FromLE(b)
    ensures a == b
  {
    ToFromLE(a);
    ToFromLE(b);
  }

  lemma WordInjective(s: Bytes, t: Bytes, lo: nat)
    requires |s| == |t| && lo + 4 <= |s| && Word(s, lo) == Word(t, lo)
    ensures s[lo..lo + 4] == t[lo..lo + 4]
  {
    FromLEInjective(Slice(s, lo, lo + 4), Slice(t, lo, lo + 4));
  }

  lemma {:induction false} WordsDetermine(s: Bytes, t: Bytes, n: nat)
    requires |s| == |t| == 4 * n
    requires forall i: nat :: i < n ==> Word(s, 4 * i) == Word(t, 4 * i)
    ensures s == t
  {
    forall j | 0 <= j < |s| ensures s[j] == t[j] {
      var i := j / 4;
      WordInjective(s, t, 4 * i);
      assert s[4 * i..4 * i + 4][j - 4 * i] == t[4 * i..4 * i + 4][j - 4 * i];
    }
  }

  /** The cipher state determines a 32-byte key and a 16-byte nonce: no two counters share a state. */
  lemma StateInjective(key: Bytes, nonce: Bytes, key': Bytes, nonce': Bytes)
    requires |key| == |key'| == 32 && |nonce| == |nonce'| == 16
    requires SalsaState(key, nonce) == SalsaState(key', nonce')
    ensures key == key' && nonce == nonce'
  {
    KeyWords(key, nonce, key', nonce');
    NonceWords(key, nonce, key', nonce');
    WordsDetermine(key, key', 8);
    WordsDetermine(nonce, nonce', 4);
  }

  /** Key and nonce in the state: words 1 to 4 and 11 to 14, words 6 to 9. */
  lemma InputPlaces(word: (Bytes, nat) -> Word32, key: Bytes, nonce: Bytes, i: nat)
    requires i < 4
    ensures var x := Arranged(word, key, nonce);
      x[1 + i] == word(key, 4 * i) && x[6 + i] == word(nonce, 4 * i) && x[11 + i] == word(key, 4 * (4 + i))
  {
  }

  lemma SameInputs(word: (Bytes, nat) -> Word32, key: Bytes, nonce: Bytes, key': Bytes, nonce': Bytes, i: nat)
    requires Arranged(word, key, nonce) == Arranged(word, key', nonce') && i < 4
    ensures word(key, 4 * i) == word(key', 4 * i) && word(nonce, 4 * i) == word(nonce', 4 * i)
    ensures word(key, 4 * (4 + i)) == word(key', 4 * (4 + i))
  {
    InputPlaces(word, key, nonce, i);
    InputPlaces(word, key', nonce', i);
  }

  lemma KeyWords(key: Bytes, nonce: Bytes, key': Bytes, nonce': Bytes)
    requires SalsaState(key, nonce) == SalsaState(key', nonce')
    ensures forall i: nat | i < 8 :: Word(key, 4 * i) == Word(key', 4 * i)
  {
    forall i: nat | i < 8 ensures Word(key, 4 * i) == Word(key', 4 * i) {
      if i < 4 {
        SameInputs(Word, key, nonce, key', nonce', i);
      } else {
        SameInputs(Word, key, nonce, key', nonce', i - 4);
      }
    }
  }

  lemma NonceWords(key: Bytes, nonce: Bytes, key': Bytes, nonce': Bytes)
    requires SalsaState(key, nonce) == SalsaState(key', nonce')
    ensures forall i: nat | i < 4 :: Word(nonce, 4 * i) == Word(nonce', 4 * i)
  {
    forall i: nat | i < 4 ensures Word(nonce, 4 * i) == Word(nonce', 4 * i) {
      SameInputs(Word, key, nonce, key', nonce', i);
    }
  }

  lemma FourBytes()
    ensures Pow256(4) == 0x1_0000_0000
  {
    assert Pow256(1) == 256 && Pow256(2) == 65536 && Pow256(3) == 0x100_0000;
  }

  /** The words written one after the other, four bytes each. */
  function WordsToBytes(ws: seq<Word32>): (bs: Bytes)
    ensures |bs| == 4 * |ws|
  {
    FourBytes();
    if ws == [] then [] else ToLE(ws[0], 4) + WordsToBytes(ws[1..])
  }

  /** The core on 32-bit words. */
  function Core32(x: Words16): Words16
  {
    Salsa20.CoreKeepsWords(x);
    var y := Salsa20.Core(x);
    assert forall i | 0 <= i < 16 :: y[i] < 0x1_0000_0000;
    y
  }

  /** `_hsalsa20`: eight of the sixteen words, without the feed-forward. */
  function HSalsa20(nonce16: Bytes, key: Bytes): (r: Bytes)
    ensures |r| == 32
  {
    DerivedBytes(Core32, SalsaState(key, nonce16))
  }

  function DerivedBytes(core: Words16 -> Words16, state: Words16): (r: Bytes)
    ensures |r| == 32
  {
    var out := core(state);
    WordsToBytes([out[0], out[5], out[10], out[15], out[6], out[7], out[8], out[9]])
  }

  /** `(core[i] + state[i]) & 0xFFFFFFFF` */
  function AddWords(a: Word32, b: Word32): Word32
  {
    BitAnd(a + b, Salsa20.MASK32)
  }

  /** `_salsa20_block` */
  function Block(key: Bytes, nonce16: Bytes): Block64
  {
    BlockBytes(Core32, SalsaState(key, nonce16))
  }

  function BlockBytes(core: Words16 -> Words16, state: Words16): Block64
  {
    var out := core(state);
    WordsToBytes(seq(16, i requires 0 <= i < 16 => AddWords(out[i], state[i])))
  }

  // ---------------------------------------------------------------- the key stream

  const COUNTER_LIMIT: nat := 0x1_0000_0000_0000_0000
  const STREAM_LIMIT: nat := 64 * COUNTER_LIMIT

  lemma EightBytes()
    ensures Pow256(8) == 0x1_0000_0000_0000_0000
  {
    FourBytes();
    assert Pow256(5) == 0x100_0000_0000;
  }

  /** Block number `counter` of the stream for a key and a nonce. */
  function BlockAt(key: Bytes, nonce8: Bytes): Counter -> Block64
  {
    (counter: Counter) => EightBytes(); Block(key, nonce8 + ToLE(counter, 8))
  }

  /** Byte i of the stream is byte i % 64 of block i / 64. */
  function KeyStream(length: nat, block: Counter -> Block64): (s: Bytes)
    requires length <= STREAM_LIMIT
    ensures |s| == length
  {
    seq(length, i requires 0 <= i < length => block(i / 64)[i % 64])
  }

  /** A shorter stream is a prefix of a longer one. */
  lemma StreamPrefix(short: nat, long: nat, block: Counter -> Block64)
    requires short <= long <= STREAM_LIMIT
    ensures KeyStream(short, block) == KeyStream(long, block)[..short]
  {
  }

  lemma ExtendStream(block: Counter -> Block64, counter: Counter)
    ensures KeyStream(64 * (counter + 1), block) == KeyStream(64 * counter, block) + block(counter)
  {
    var l, r := KeyStream(64 * (counter + 1), block), KeyStream(64 * counter, block) + block(counter);
    forall i | 0 <= i < |l| ensures l[i] == r[i] {
      if i >= 64 * counter {
        assert i / 64 == counter && i % 64 == i - 64 * counter;
      }
    }
  }

  /** `_salsa20_stream`; the counter has eight bytes, so a longer stream raises OverflowError. */
  function Stream(length: nat, block: Counter -> Block64): (r: Result<Bytes>)
    ensures r.Ok? ==> |r.value| == length
    ensures r.Ok? <==> length <= STREAM_LIMIT
    ensures r.Err? ==> r == Err(CounterOverflow)
  {
    if length <= STREAM_LIMIT then Ok(KeyStream(length, block)) else Err(CounterOverflow)
  }

  method SalsaStreamLoop(length: nat, block: Counter -> Block64) returns (r: Result<Bytes>)
    ensures r == Stream(length, block)
  {
    var output: Bytes := [];
    var counter: nat := 0;
    while |output| < length
      invariant |output| == 64 * counter && counter <= COUNTER_LIMIT
      invariant output == KeyStream(64 * counter, block)
      decreases length - |output|
    {
      if counter >= COUNTER_LIMIT {
        return Err(CounterOverflow);
      }
      ExtendStream(block, counter);
      output := output + block(counter);
      counter := counter + 1;
    }
    StreamPrefix(length, 64 * counter, block);
    r := Ok(output[..length]);
  }

  /** `_xsalsa20_stream` as a function of the length. */
  function XStream(nonce: Bytes, key: Bytes): nat -> Result<Bytes>
  {
    var nonce8 := if |nonce| <= 16 then [] else nonce[16..];
    StreamOf(BlockAt(HSalsa20(Slice(nonce, 0, 16), key), nonce8))
  }

  function StreamOf(block: Counter -> Block64): nat -> Result<Bytes>
  {
    (length: nat) => Stream(length, block)
  }

  // ---------------------------------------------------------------- secret box

  function ByteXor(a: Byte, b: Byte): Byte
  {
    assert Pow2(8) == 256;
    XorBounded(a, b, 8);
    BitXor(a, b)
  }

  /** `bytes(x ^ y for x, y in zip(a, b))` */
  function XorBytes(a: Bytes, b: Bytes): (r: Bytes)
    ensures |r| == if |a| <= |b| then |a| else |b|
  {
    var n := if |a| <= |b| then |a| else |b|;
    seq(n, i requires 0 <= i < n => ByteXor(a[i], b[i]))
  }

  lemma XorBytesTwice(a: Bytes, b: Bytes)
    requires |a| == |b|
    ensures XorBytes(XorBytes(a, b), b) == a
  {
    forall i | 0 <= i < |a| ensures XorBytes(XorBytes(a, b), b)[i] == a[i] {
      XorCancel(a[i], b[i]);
    }
  }

  /** `_constant_time_equal` */
  method ConstantTimeEqual(left: Bytes, right: Bytes) returns (equal: bool)
    ensures equal <==> left == right
  {
    if |left| != |right| {
      return false;
    }
    var diff: nat := 0;
    for i := 0 to |left|
      invariant diff == 0 <==> left[..i] == right[..i]
    {
      XorZeroIff(left[i], right[i]);
      OrZeroIff(diff, BitXor(left[i], right[i]));
      assert left[..i + 1] == left[..i] + [left[i]] && right[..i + 1] == right[..i] + [right[i]];
      diff := BitOr(diff, BitXor(left[i], right[i]));
    }
    assert left[..|left|] == left && right[..|right|] == right;
    equal := diff == 0;
  }

  type Mac16 = m: Bytes | |m| == 16 witness seq(16, i => 0)

  /** The tag of a ciphertext under the first 32 bytes of the stream. */
  function Tag(): (Bytes, Bytes) -> Mac16
  {
    (ciphertext: Bytes, polyKey: Bytes) => Poly1305.Mac(ciphertext, polyKey)
  }

  /** `_secretbox_seal`, given its stream and its authenticator. */
  function SealWith(stream: nat -> Result<Bytes>, mac: (Bytes, Bytes) -> Mac16, message: Bytes): Result<Bytes>
  {
    match stream(|message| + 32)
    case Err(e) => Err(e)
    case Ok(s) =>
      var ciphertext := XorBytes(message, Slice(s, 32, |message| + 32));
      Ok(mac(ciphertext, Slice(s, 0, 32)) + ciphertext)
  }

  /** `_secretbox_open`, given its stream and its authenticator. */
  function OpenWith(stream: nat -> Result<Bytes>, mac: (Bytes, Bytes) -> Mac16, box: Bytes): Result<Bytes>
  {
    if |box| < 16 then Err(TooShort)
    else
      var tag, ciphertext := box[..16], box[16..];
      match stream(|ciphertext| + 32)
      case Err(e) => Err(e)
      case Ok(s) =>
        if mac(ciphertext, Slice(s, 0, 32)) != tag then Err(AuthenticationFailed)
        else Ok(XorBytes(ciphertext, Slice(s, 32, |ciphertext| + 32)))
  }

  function Seal(message: Bytes, nonce: Bytes, key: Bytes): Result<Bytes>
  {
    SealWith(XStream(nonce, key), Tag(), message)
  }

  function Open(box: Bytes, nonce: Bytes, key: Bytes): Result<Bytes>
  {
    OpenWith(XStream(nonce, key), Tag(), box)
  }

  ghost predicate RightLengths(stream: nat -> Result<Bytes>)
  {
    forall n: nat :: stream(n).Ok? ==> |stream(n).value| == n
  }

  lemma SealThenOpen(stream: nat -> Result<Bytes>, mac: (Bytes, Bytes) -> Mac16, message: Bytes, box: Bytes)
    requires RightLengths(stream) && SealWith(stream, mac, message) == Ok(box)
    ensures OpenWith(stream, mac, box) == Ok(message)
  {
    var s := stream(|message| + 32).value;
    var pad := Slice(s, 32, |message| + 32);
    var ciphertext := XorBytes(message, pad);
    assert box[..16] == mac(ciphertext, Slice(s, 0, 32)) && box[16..] == ciphertext;
    XorBytesTwice(message, pad);
  }

  lemma OpenThenSeal(stream: nat -> Result<Bytes>, mac: (Bytes, Bytes) -> Mac16, message: Bytes, box: Bytes)
    requires RightLengths(stream) && OpenWith(stream, mac, box) == Ok(message)
    ensures SealWith(stream, mac, message) == Ok(box)
  {
    var ciphertext := box[16..];
    var s := stream(|ciphertext| + 32).value;
    var pad := Slice(s, 32, |ciphertext| + 32);
    XorBytesTwice(ciphertext, pad);
    assert box == box[..16] + box[16..];
  }

  lemma OpenIffSealedWith(stream: nat -> Result<Bytes>, mac: (Bytes, Bytes) -> Mac16, message: Bytes, box: Bytes)
    requires RightLengths(stream)
    ensures OpenWith(stream, mac, box) == Ok(message) <==> SealWith(stream, mac, message) == Ok(box)
  {
    if SealWith(stream, mac, message) == Ok(box) { SealThenOpen(stream, mac, message, box); }
    if OpenWith(stream, mac, box) == Ok(message) { OpenThenSeal(stream, mac, message, box); }
  }

  lemma StreamLengths(block: Counter -> Block64)
    ensures RightLengths(StreamOf(block))
    ensures forall n: nat :: StreamOf(block)(n) == Stream(n, block)
  {
    forall n: nat ensures StreamOf(block)(n).Ok? ==> |StreamOf(block)(n).value| == n {
      assert StreamOf(block)(n) == Stream(n, block);
    }
  }

  lemma XStreamLengths(nonce: Bytes, key: Bytes)
    ensures RightLengths(XStream(nonce, key))
    ensures forall n: nat :: XStream(nonce, key)(n).Ok? <==> n <= STREAM_LIMIT
    ensures forall n: nat :: XStream(nonce, key)(n).Err? ==> XStream(nonce, key)(n) == Err(CounterOverflow)
  {
    StreamLengths(BlockAt(HSalsa20(Slice(nonce, 0, 16), key), if |nonce| <= 16 then [] else nonce[16..]));
  }

  /** Opening accepts exactly the sealed boxes, and returns the message that was sealed. */
  lemma OpenIffSealed(box: Bytes, message: Bytes, nonce: Bytes, key: Bytes)
    ensures Open(box, nonce, key) == Ok(message) <==> Seal(message, nonce, key) == Ok(box)
  {
    XStreamLengths(nonce, key);
    OpenIffSealedWith(XStream(nonce, key), Tag(), message, box);
  }

  /** Sealing fails only for a message too long for the counter. */
  lemma SealOutcome(message: Bytes, nonce: Bytes, key: Bytes)
    ensures |message| + 32 <= STREAM_LIMIT ==> Seal(message, nonce, key).Ok?
    ensures |message| + 32 > STREAM_LIMIT ==> Seal(message, nonce, key) == Err(CounterOverflow)
  {
    XStreamLengths(nonce, key);
    SealWithOutcome(XStream(nonce, key), Tag(), message);
  }

  lemma SealWithOutcome(stream: nat -> Result<Bytes>, mac: (Bytes, Bytes) -> Mac16, message: Bytes)
    requires forall n: nat :: stream(n).Err? ==> stream(n) == Err(CounterOverflow)
    ensures SealWith(stream, mac, message).Ok? <==> stream(|message| + 32).Ok?
    ensures SealWith(stream, mac, message).Err? ==> SealWith(stream, mac, message) == Err(CounterOverflow)
  {
  }

  /** Opening undoes sealing for every message; one too long for the block counter is refused. */
  lemma OpenUndoesSeal(message: Bytes, nonce: Bytes, key: Bytes)
    ensures var box := Seal(message, nonce, key);
            if |message| + 32 <= STREAM_LIMIT then box.Ok? && Open(box.value, nonce, key) == Ok(message)
            else box == Err(CounterOverflow)
  {
    SealOutcome(message, nonce, key);
    var box := Seal(message, nonce, key);
    if box.Ok? {
      OpenIffSealed(box.value, message, nonce, key);
    }
  }

  // ---------------------------------------------------------------- sealed box

  /** `_crypto_box_beforenm` */
  function BeforeNm(publicKey: Bytes, secretKey: Bytes): Bytes
    requires |secretKey| == 32
  {
    HSalsa20(seq(16, i => 0), X25519.X25519Spec(secretKey, publicKey))
  }

  /** `_sealed_box_seal_for_test` */
  function SealedBoxSeal(blake2b: Bytes -> Bytes, message: Bytes, recipientPublic: Bytes,
      ephemeralSecret: Bytes): Result<Bytes>
    requires |ephemeralSecret| == 32
  {
    var ephemeralPublic := Montgomery.X25519Base(ephemeralSecret);
    var nonce := blake2b(ephemeralPublic + recipientPublic);
    Prepend(ephemeralPublic, Seal(message, nonce, BeforeNm(recipientPublic, ephemeralSecret)))
  }

  function Prepend(head: Bytes, r: Result<Bytes>): Result<Bytes>
  {
    match r case Err(e) => Err(e) case Ok(tail) => Ok(head + tail)
  }

  /** `_sealed_box_open` */
  function SealedBoxOpen(blake2b: Bytes -> Bytes, sealed: Bytes, recipientSecret: Bytes,
      recipientPublic: Bytes): Result<Bytes>
    requires |recipientSecret| == 32
  {
    if |sealed| < 32 + 16 then Err(TooShort)
    else
      var ephemeralPublic, box := sealed[..32], sealed[32..];
      var nonce := blake2b(ephemeralPublic + recipientPublic);
      Open(box, nonce, BeforeNm(ephemeralPublic, recipientSecret))
  }

  lemma PrependInverse(head: Bytes, r: Result<Bytes>, whole: Bytes)
    requires |head| <= |whole| && whole[..|head|] == head
    ensures Prepend(head, r) == Ok(whole) <==> r == Ok(whole[|head|..])
  {
    assert whole == head + whole[|head|..];
    if r.Ok? { assert (head + r.value)[|head|..] == r.value; }
  }

  /** A sealed box is at least 16 bytes long. */
  lemma BoxLength(message: Bytes, nonce: Bytes, key: Bytes, box: Bytes)
    requires Seal(message, nonce, key) == Ok(box)
    ensures |box| >= 16
  {
  }

  /** With agreeing X25519 products, a sealed box that names the ephemeral key opens to a message
      exactly if it is the seal of that message. */
  lemma SealedBoxOpenIffSealed(blake2b: Bytes -> Bytes, sealed: Bytes, message: Bytes, recipientSecret: Bytes,
      recipientPublic: Bytes, ephemeralSecret: Bytes)
    requires |recipientSecret| == 32 && |ephemeralSecret| == 32 && |sealed| >= 32
    requires X25519.X25519Spec(recipientSecret, Montgomery.X25519Base(ephemeralSecret))
      == X25519.X25519Spec(ephemeralSecret, recipientPublic)
    requires sealed[..32] == Montgomery.X25519Base(ephemeralSecret)
    ensures SealedBoxOpen(blake2b, sealed, recipientSecret, recipientPublic) == Ok(message)
       <==> SealedBoxSeal(blake2b, message, recipientPublic, ephemeralSecret) == Ok(sealed)
  {
    var ephemeralPublic := Montgomery.X25519Base(ephemeralSecret);
    var box := sealed[32..];
    var nonce := blake2b(ephemeralPublic + recipientPublic);
    var key := BeforeNm(recipientPublic, ephemeralSecret);
    assert BeforeNm(ephemeralPublic, recipientSecret) == key;
    OpenIffSealed(box, message, nonce, key);
    var s := Seal(message, nonce, key);
    PrependInverse(ephemeralPublic, s, sealed);
    if s == Ok(box) { BoxLength(message, nonce, key, box); }
  }

  /** A recipient whose public key belongs to the secret key opens what was sealed for it. */
  lemma SealedBoxRoundTrip(blake2b: Bytes -> Bytes, message: Bytes, recipientSecret: Bytes, ephemeralSecret: Bytes)
    requires |recipientSecret| == 32 && |ephemeralSecret| == 32 && |message| + 32 <= STREAM_LIMIT
    requires ModArith.IsPrime(X25519.P) && MontgomeryCurve.GroupLaw(X25519.P)
    ensures var public := Montgomery.X25519Base(recipientSecret);
            var sealed := SealedBoxSeal(blake2b, message, public, ephemeralSecret);
            sealed.Ok? && SealedBoxOpen(blake2b, sealed.value, recipientSecret, public) == Ok(message)
  {
    MontgomeryCurve.KeyAgreement(recipientSecret, ephemeralSecret);
    var public := Montgomery.X25519Base(recipientSecret);
    var sealed := SealSucceeds(blake2b, message, public, ephemeralSecret);
    SealedBoxOpenIffSealed(blake2b, sealed, message, recipientSecret, public, ephemeralSecret);
  }

  lemma SealSucceeds(blake2b: Bytes -> Bytes, message: Bytes, recipientPublic: Bytes, ephemeralSecret: Bytes)
      returns (sealed: Bytes)
    requires |ephemeralSecret| == 32 && |message| + 32 <= STREAM_LIMIT
    ensures SealedBoxSeal(blake2b, message, recipientPublic, ephemeralSecret) == Ok(sealed)
    ensures |sealed| >= 32 && sealed[..32] == Montgomery.X25519Base(ephemeralSecret)
  {
    var ephemeralPublic := Montgomery.X25519Base(ephemeralSecret);
    var nonce, key := blake2b(ephemeralPublic + recipientPublic), BeforeNm(recipientPublic, ephemeralSecret);
    SealOutcome(message, nonce, key);
    var s := Seal(message, nonce, key);
    sealed := ephemeralPublic + s.value;
  }
}
