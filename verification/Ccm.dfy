/**
 CCM of RFC 3610 on strings of bits, for any forward block function: the authentication tag, the
 key stream, encryption and decryption, and that decryption undoes encryption and accepts nothing
 else. The bits of a number are written the most significant first.
 */
module Ccm {
  import opened BitArrays

  type Block = s: seq<bool> | |s| == 128 witness Zeros(128)

  type Cipher = Block -> Block

  datatype Error = IvTooShort | InvalidTagLength | TooMuchData | TagMismatch

  datatype Result<T> = Ok(value: T) | Err(error: Error)

  // ----- numbers in bits

  // The w low bits of n
  function NatBits(n: nat, w: nat): (s: seq<bool>)
    ensures |s| == w
  {
    if w == 0 then [] else NatBits(n / 2, w - 1) + [n % 2 == 1]
  }

  function ValueOf(s: seq<bool>): nat {
    if |s| == 0 then 0 else 2 * ValueOf(s[..|s| - 1]) + (if s[|s| - 1] then 1 else 0)
  }

  // The bits of a number plus one, dropping the carry out of the first
  function Increment(s: seq<bool>): (r: seq<bool>)
    ensures |r| == |s|
  {
    if |s| == 0 then []
    else if s[|s| - 1] then Increment(s[..|s| - 1]) + [false]
    else s[..|s| - 1] + [true]
  }

  function Pow2(k: nat): (p: nat)
    ensures p > 0
  {
    if k == 0 then 1 else 2 * Pow2(k - 1)
  }

  lemma {:induction false} IncrementNatBits(n: nat, w: nat)
    ensures Increment(NatBits(n, w)) == NatBits(n + 1, w)
  {
    if w > 0 {
      var s := NatBits(n, w);
      assert s[..w - 1] == NatBits(n / 2, w - 1);
      if n % 2 == 1 {
        IncrementNatBits(n / 2, w - 1);
        assert (n + 1) / 2 == n / 2 + 1;
      } else {
        assert (n + 1) / 2 == n / 2;
      }
    }
  }

  lemma {:induction false} NatBitsOfValue(s: seq<bool>)
    ensures NatBits(ValueOf(s), |s|) == s
  {
    if |s| > 0 {
      NatBitsOfValue(s[..|s| - 1]);
      assert ValueOf(s) / 2 == ValueOf(s[..|s| - 1]);
    }
  }

  // A number's high bits are those of its quotient, its low bits those of its remainder.
  lemma {:induction false} NatBitsSplit(q: nat, r: nat, k: nat, w: nat)
    requires k <= w && r < Pow2(k)
    ensures NatBits(q * Pow2(k) + r, w) == NatBits(q, w - k) + NatBits(r, k)
    decreases k
  {
    if k == 0 {
      assert q * Pow2(0) + r == q;
    } else {
      var h := q * Pow2(k - 1);
      assert q * Pow2(k) == 2 * h;
      NatBitsSplit(q, r / 2, k - 1, w - 1);
      assert (2 * h + r) / 2 == h + r / 2 && (2 * h + r) % 2 == r % 2;
    }
  }

  lemma {:induction false} NatBitsZero(w: nat)
    ensures NatBits(0, w) == Zeros(w)
  {
    if w > 0 {
      NatBitsZero(w - 1);
    }
  }

  // Small numbers have zeros in front.
  lemma NatBitsPad(n: nat, k: nat, w: nat)
    requires k <= w && n < Pow2(k)
    ensures NatBits(n, w) == Zeros(w - k) + NatBits(n, k)
  {
    NatBitsSplit(0, n, k, w);
    NatBitsZero(w - k);
  }

  // ----- blocks

  lemma XorTwice(s: seq<bool>, t: seq<bool>, u: seq<bool>)
    requires |s| == |t| == |u|
    ensures XorBits(s, t) == u <==> XorBits(u, t) == s
  {
    assert XorBits(XorBits(s, t), t) == s;
    assert XorBits(XorBits(u, t), t) == u;
  }

  // Block i of a string, with zeros behind its end
  function PaddedBlock(s: seq<bool>, i: nat): Block {
    seq(128, j requires 0 <= j < 128 => 128 * i + j < |s| && s[128 * i + j])
  }

  function BlockCount(bits: nat): nat {
    (bits + 127) / 128
  }

  // The chain x behind the first k blocks of a string
  function CbcMac(E: Cipher, x: Block, s: seq<bool>, k: nat): Block {
    if k == 0 then x else E(XorBits(CbcMac(E, x, s, k - 1), PaddedBlock(s, k - 1)))
  }

  // ----- section 2.2: authentication

  // The whole bytes as >>> sees them: rounded to zero, modulo 2^32
  function Bytes(bits: int): nat {
    (if bits >= 0 then bits / 8 else -(-bits / 8)) % 0x1_0000_0000
  }

  // The bits in which the text's length and the counter are stored. A nonce that is too long to
  // leave room for them is cut.
  function FieldBits(ivBits: nat, textBits: int): (f: nat)
    requires ivBits >= 56
    ensures 16 <= f <= 64 && 120 - f <= ivBits
  {
    var bytes := Bytes(textBits);
    var f := if bytes / 0x1_0000 == 0 then 16 else if bytes / 0x100_0000 == 0 then 24 else 32;
    if f + ivBits < 120 then 120 - ivBits else f
  }

  function FlagsByte(adata: bool, t: nat, f: nat): (s: seq<bool>)
    requires LegalTag(t) && 16 <= f
    ensures |s| == 8
  {
    NatBits((if adata then 64 else 0) + 8 * ((t / 8 - 2) / 2) + (f / 8 - 1), 8)
  }

  predicate LegalTag(t: nat) {
    t % 16 == 0 && 32 <= t <= 128
  }

  // B_0, as the program forms it: the length is put into the last 32 bits, whatever they hold.
  function FirstBlock(adata: bool, t: nat, nonce: seq<bool>, f: nat, bytes: nat): Block
    requires LegalTag(t) && 16 <= f
  {
    var b := PaddedBlock(FlagsByte(adata, t, f) + nonce, 0);
    b[..96] + Or(b[96..], NatBits(bytes, 32))
  }

  // The additional data behind its length
  function AdataBits(adata: seq<bool>): seq<bool> {
    var c := |adata| / 8;
    if |adata| == 0 then []
    else if c <= 65279 then NatBits(c, 16) + adata
    else if c <= 0xffff_ffff then NatBits(65534, 16) + NatBits(c, 32) + adata
    else adata
  }

  function AuthTag(E: Cipher, text: seq<bool>, nonce: seq<bool>, adata: seq<bool>, t: nat, f: nat): (tag: seq<bool>)
    requires LegalTag(t) && 16 <= f
    ensures |tag| == t
  {
    var x := E(FirstBlock(|adata| > 0, t, nonce, f, |text| / 8));
    var y := CbcMac(E, x, AdataBits(adata), BlockCount(|AdataBits(adata)|));
    CbcMac(E, y, text, BlockCount(|text|))[..t]
  }

  // ----- section 2.3: encryption

  // A_i: the last 32 bits count up.
  function CounterBlock(nonce: seq<bool>, f: nat, i: nat): Block
    requires 16 <= f
  {
    var b := PaddedBlock(NatBits(f / 8 - 1, 8) + nonce, 0);
    b[..96] + NatBits(ValueOf(b[96..]) + i, 32)
  }

  // S_i
  function KeyBlock(E: Cipher, nonce: seq<bool>, f: nat, i: nat): Block
    requires 16 <= f
  {
    E(CounterBlock(nonce, f, i))
  }

  function KeyStream(E: Cipher, nonce: seq<bool>, f: nat, length: nat): (s: seq<bool>)
    requires 16 <= f
    ensures |s| == length
  {
    seq(length, p requires 0 <= p < length => KeyBlock(E, nonce, f, 1 + p / 128)[p % 128])
  }

  // More words than the program takes
  predicate TooLong(bits: nat) {
    WordCount(bits) > 0xffff_ffff
  }

  // 0 stands for a tag length that is not given.
  function TagLength(tlen: nat): nat {
    if tlen == 0 then 64 else tlen
  }

  function EncryptBits(E: Cipher, text: seq<bool>, iv: seq<bool>, adata: seq<bool>, tlen: nat): Result<seq<bool>> {
    var t := TagLength(tlen);
    if |iv| < 56 then Err(IvTooShort)
    else
      var f := FieldBits(|iv|, |text|);
      var nonce := iv[..120 - f];
      if !LegalTag(t) then Err(InvalidTagLength)
      else if TooLong(|adata|) || TooLong(|text|) then Err(TooMuchData)
      else
        var tag := AuthTag(E, text, nonce, adata, t, f);
        Ok(XorBits(text, KeyStream(E, nonce, f, |text|)) + XorBits(tag, KeyBlock(E, nonce, f, 0)[..t]))
  }

  // ----- section 2.5: decryption

  // A ciphertext shorter than the tag is cut at a negative length, counted from its back.
  function DecryptBits(E: Cipher, cipher: seq<bool>, iv: seq<bool>, adata: seq<bool>, tlen: nat): Result<seq<bool>> {
    var t := TagLength(tlen);
    var n := |cipher| - t;
    var part := Clamped(cipher, n);
    if |iv| < 56 then Err(IvTooShort)
    else
      var f := FieldBits(|iv|, n);
      var nonce := iv[..120 - f];
      if !LegalTag(t) then Err(InvalidTagLength)
      else if TooLong(|adata|) || TooLong(|part|) then Err(TooMuchData)
      else
        var text := XorBits(part, KeyStream(E, nonce, f, |part|));
        var tag := Unmasked(Sliced(cipher, n), KeyBlock(E, nonce, f, 0), t);
        if tag == AuthTag(E, text, nonce, adata, t, f) then Ok(text) else Err(TagMismatch)
  }

  // A tag without its mask; it is taken for a block, and cut to its length afterwards.
  function Unmasked(tag: seq<bool>, s: Block, t: nat): seq<bool> {
    Clamped(XorBits(PaddedBlock(tag, 0), s), t)
  }

  lemma UnmaskedIs(tag: seq<bool>, s: Block, t: nat)
    requires |tag| == t <= 128
    ensures Unmasked(tag, s, t) == XorBits(tag, s[..t])
  {}

  lemma CutAtTag(cipher: seq<bool>, n: nat)
    requires n <= |cipher|
    ensures Clamped(cipher, n) == cipher[..n] && Sliced(cipher, n) == cipher[n..]
  {}

  lemma EncryptedLength(E: Cipher, text: seq<bool>, iv: seq<bool>, adata: seq<bool>, tlen: nat)
    requires EncryptBits(E, text, iv, adata, tlen).Ok?
    ensures |EncryptBits(E, text, iv, adata, tlen).value| == |text| + TagLength(tlen)
  {
    hide AuthTag, KeyStream, KeyBlock, FieldBits;
  }

  // Decryption accepts exactly the encryptions, and gives back what was encrypted, among the ciphertexts that
  // are long enough for a tag.
  lemma {:induction false} DecryptInvertsEncrypt(
    E: Cipher, cipher: seq<bool>, text: seq<bool>, iv: seq<bool>, adata: seq<bool>, tlen: nat)
    ensures |cipher| >= TagLength(tlen) && DecryptBits(E, cipher, iv, adata, tlen) == Ok(text)
            <==> EncryptBits(E, text, iv, adata, tlen) == Ok(cipher)
  {
    hide AuthTag, KeyStream, KeyBlock, FieldBits, XorBits, TooLong, Clamped, Sliced, Unmasked;
    var t := TagLength(tlen);
    var n := |cipher| - t;
    if EncryptBits(E, text, iv, adata, tlen) == Ok(cipher) {
      EncryptedLength(E, text, iv, adata, tlen);
    }
    if n >= 0 && |iv| >= 56 && LegalTag(t) {
      CutAtTag(cipher, n);
      if |text| == n {
        var f := FieldBits(|iv|, n);
        var nonce := iv[..120 - f];
        var stream, mask := KeyStream(E, nonce, f, n), KeyBlock(E, nonce, f, 0);
        var tag := AuthTag(E, text, nonce, adata, t, f);
        UnmaskedIs(cipher[n..], mask, t);
        XorTwice(text, stream, cipher[..n]);
        XorTwice(tag, mask[..t], cipher[n..]);
        Halves(cipher, n, XorBits(text, stream), XorBits(tag, mask[..t]));
      }
    }
  }

  // A shorter one is not refused as such: with a block function that is constant, the empty ciphertext decrypts
  // to the empty text.
  lemma {:induction false} NothingDecrypts(E: Cipher, iv: seq<bool>)
    requires |iv| >= 56 && forall x :: E(x) == Zeros(128)
    ensures DecryptBits(E, [], iv, [], 64) == Ok([])
    ensures EncryptBits(E, [], iv, [], 64) == Ok(Zeros(64))
  {
    hide FirstBlock, CounterBlock, FieldBits;
    var f := FieldBits(|iv|, -64);
    var g := FieldBits(|iv|, 0);
    assert AuthTag(E, [], iv[..120 - f], [], 64, f) == Zeros(64);
    assert AuthTag(E, [], iv[..120 - g], [], 64, g) == Zeros(64);
    assert Unmasked([], Zeros(128), 64) == Zeros(64);
    assert XorBits([], []) == [];
    assert XorBits(Zeros(64), Zeros(128)[..64]) == Zeros(64);
    assert [] + Zeros(64) == Zeros(64);
  }

  lemma Halves(s: seq<bool>, n: nat, u: seq<bool>, v: seq<bool>)
    requires n <= |s| && |u| == n
    ensures s == u + v <==> s[..n] == u && s[n..] == v
  {}

  // What was encrypted comes back, for every text, nonce and additional data that encryption takes.
  lemma {:induction false} RoundTrip(E: Cipher, text: seq<bool>, iv: seq<bool>, adata: seq<bool>, tlen: nat)
    requires |iv| >= 56 && LegalTag(TagLength(tlen)) && !TooLong(|adata|) && !TooLong(|text|)
    ensures EncryptBits(E, text, iv, adata, tlen).Ok?
    ensures |EncryptBits(E, text, iv, adata, tlen).value| == |text| + TagLength(tlen)
    ensures DecryptBits(E, EncryptBits(E, text, iv, adata, tlen).value, iv, adata, tlen) == Ok(text)
  {
    hide AuthTag, KeyStream, KeyBlock, FieldBits, XorBits, LegalTag, TooLong, DecryptBits;
    EncryptedLength(E, text, iv, adata, tlen);
    DecryptInvertsEncrypt(E, EncryptBits(E, text, iv, adata, tlen).value, text, iv, adata, tlen);
  }

  // ----- the blocks of the standard

  // With whole bytes, and a length that fits, B_0 is flags, nonce and length.
  lemma {:induction false} FirstBlockIsStandard(adata: bool, t: nat, nonce: seq<bool>, f: nat, bytes: nat)
    requires LegalTag(t) && 16 <= f <= 64 && |nonce| == 120 - f
    requires bytes < Pow2(32) && bytes < Pow2(f)
    ensures FirstBlock(adata, t, nonce, f, bytes) == FlagsByte(adata, t, f) + nonce + NatBits(bytes, f)
  {
    hide FlagsByte, Or, NatBits, Pow2, PaddedBlock;
    var head := FlagsByte(adata, t, f) + nonce;
    HeadBlock(head, f);
    if f >= 32 {
      NatBitsPad(bytes, 32, f);
      OrZeros(NatBits(bytes, 32));
      assert head + Zeros(f) == head + Zeros(f - 32) + Zeros(32);
      assert (head + Zeros(f))[..96] == head + Zeros(f - 32);
      assert (head + Zeros(f))[96..] == Zeros(32);
    } else {
      NatBitsPad(bytes, f, 32);
      OrBehind(head[96..], NatBits(bytes, f));
      assert (head + Zeros(f))[..96] == head[..96];
      assert (head + Zeros(f))[96..] == head[96..] + Zeros(f);
      assert head == head[..96] + head[96..];
    }
  }

  lemma HeadBlock(head: seq<bool>, f: nat)
    requires |head| == 128 - f && f <= 64
    ensures PaddedBlock(head, 0) == head + Zeros(f)
  {}

  lemma OrZeros(x: Bits32)
    ensures Or(Zeros(32), x) == x
  {}

  lemma OrBehind(x: seq<bool>, y: seq<bool>)
    requires |x| + |y| == 32
    ensures Or(x + Zeros(|y|), Zeros(|x|) + y) == x + y
  {}

  // A_i is flags, nonce and counter.
  lemma {:induction false} CounterBlockIsStandard(nonce: seq<bool>, f: nat, i: nat)
    requires 16 <= f <= 64 && |nonce| == 120 - f
    requires i < Pow2(32) && i < Pow2(f)
    ensures CounterBlock(nonce, f, i) == NatBits(f / 8 - 1, 8) + nonce + NatBits(i, f)
  {
    hide NatBits, Pow2, PaddedBlock, ValueOf;
    var head := NatBits(f / 8 - 1, 8) + nonce;
    HeadBlock(head, f);
    if f >= 32 {
      NatBitsPad(i, 32, f);
      ValueBehind([], 32);
      assert [] + Zeros(32) == Zeros(32);
      assert ValueOf([]) == 0 by { EmptyValue(); }
      assert (head + Zeros(f))[..96] == head + Zeros(f - 32);
      assert (head + Zeros(f))[96..] == Zeros(32);
    } else {
      ValueBehind(head[96..], f);
      NatBitsSplit(ValueOf(head[96..]), i, f, 32);
      NatBitsOfValue(head[96..]);
      assert (head + Zeros(f))[..96] == head[..96];
      assert (head + Zeros(f))[96..] == head[96..] + Zeros(f);
      assert head == head[..96] + head[96..];
    }
  }

  lemma EmptyValue()
    ensures ValueOf([]) == 0
  {}

  lemma {:induction false} ValueBehind(s: seq<bool>, k: nat)
    ensures ValueOf(s + Zeros(k)) == ValueOf(s) * Pow2(k)
  {
    if k == 0 {
      assert s + Zeros(0) == s;
    } else {
      ValueBehind(s, k - 1);
      var u := s + Zeros(k);
      assert u[..|u| - 1] == s + Zeros(k - 1);
      DoubleProduct(ValueOf(s), Pow2(k - 1));
    }
  }

  lemma DoubleProduct(a: nat, b: nat)
    ensures 2 * (a * b) == a * (2 * b)
  {}

  // The field holds the length of a text below 4 GiB and the number of each of its blocks.
  lemma {:induction false} FieldHolds(ivBits: nat, textBits: nat, i: nat)
    requires ivBits >= 56 && textBits / 8 < Pow2(32) && i <= BlockCount(textBits)
    ensures textBits / 8 < Pow2(FieldBits(ivBits, textBits)) && i < Pow2(FieldBits(ivBits, textBits)) && i < Pow2(32)
  {
    Powers();
    var f := FieldBits(ivBits, textBits);
    var g := if textBits / 8 < 0x1_0000 then 16 else if textBits / 8 < 0x100_0000 then 24 else 32;
    assert g <= f;
    Pow2Monotonic(g, f);
    assert textBits < 8 * (textBits / 8 + 1);
  }

  lemma Powers()
    ensures Pow2(16) == 0x1_0000 && Pow2(24) == 0x100_0000 && Pow2(32) == 0x1_0000_0000
  {
    assert Pow2(8) == 256;
    assert Pow2(16) == 256 * Pow2(8);
    assert Pow2(24) == 256 * Pow2(16);
    assert Pow2(32) == 256 * Pow2(24);
  }

  lemma {:induction false} Pow2Monotonic(a: nat, b: nat)
    requires a <= b
    ensures Pow2(a) <= Pow2(b)
    decreases b
  {
    if a < b {
      Pow2Monotonic(a, b - 1);
    }
  }
}
