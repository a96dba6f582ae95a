/**
 What CCM computes, by the definitions of RFC 3610 and without those of the program's model: the blocks are told by
 the values of their fields, and the tag by the chain over them.
 */
module CcmStandard {
  import opened BitArrays
  import opened Ccm

  // ----- the fields

  // 8 L, the bits of the length field: at least two bytes, at least the room that the nonce leaves, and enough whole
  // bytes for the length; no more than one of these asks for
  ghost predicate IsField(f: nat, ivBits: nat, bytes: nat) {
    && f >= 16 && f + ivBits >= 120 && bytes < Pow2(f - f % 8)
    && (f == 16 || f + ivBits == 120 || (f % 8 == 0 && bytes >= Pow2(f - 8)))
  }

  // B_0: a reserved bit, whether there is additional data, (M - 2) / 2 and L - 1 of three bits each, the nonce, and
  // the length of the text
  ghost predicate IsFirst(b: Block, adata: bool, t: nat, f: nat, nonce: seq<bool>, bytes: nat) {
    && 16 <= f <= 64 && |nonce| == 120 - f
    && b[0] == false && b[1] == adata
    && ValueOf(b[2..5]) + 1 == t / 16 && ValueOf(b[5..8]) + 1 == f / 8
    && b[8..128 - f] == nonce
    && ValueOf(b[128 - f..]) == bytes
  }

  // A_i: L - 1, the nonce, and i
  ghost predicate IsCounter(b: Block, f: nat, nonce: seq<bool>, i: nat) {
    && 16 <= f <= 64 && |nonce| == 120 - f
    && ValueOf(b[..8]) + 1 == f / 8
    && b[8..128 - f] == nonce
    && ValueOf(b[128 - f..]) == i
  }

  // The length of the additional data in front of it: none if there is none, two bytes below 0xFF00, and otherwise
  // 0xFFFE and four bytes
  ghost predicate IsPrefix(prefix: seq<bool>, bits: nat) {
    var bytes := bits / 8;
    if bits == 0 then prefix == []
    else if bytes < 0xff00 then |prefix| == 16 && ValueOf(prefix) == bytes
    else |prefix| == 48 && ValueOf(prefix[..16]) == 0xfffe && ValueOf(prefix[16..]) == bytes
  }

  // The blocks B_i that hold a string, padded with zeros
  ghost predicate AreBlocks(B: seq<Block>, s: seq<bool>) {
    && 128 * |B| - 128 < |s| <= 128 * |B|
    && forall i, j | 0 <= i < |B| && 0 <= j < 128 :: B[i][j] == (128 * i + j < |s| && s[128 * i + j])
  }

  // X_1 = E(B_0), X_i+1 = E(X_i xor B_i)
  ghost predicate IsChain(E: Cipher, X: seq<Block>, first: Block, B: seq<Block>) {
    && |X| == |B| + 1 && X[0] == E(first)
    && forall i | 0 <= i < |B| :: LinkIs(E, X, B[i], i)
  }

  ghost predicate LinkIs(E: Cipher, X: seq<Block>, b: Block, i: nat)
    requires i + 1 < |X|
  {
    X[i + 1] == E(XorBits(X[i], b))
  }

  // ----- values and bits

  lemma {:induction false} ValueBound(s: seq<bool>)
    ensures ValueOf(s) < Pow2(|s|)
  {
    if |s| > 0 {
      ValueBound(s[..|s| - 1]);
    }
  }

  lemma {:induction false} ValueOfNatBits(n: nat, w: nat)
    requires n < Pow2(w)
    ensures ValueOf(NatBits(n, w)) == n
  {
    if w > 0 {
      ValueOfNatBits(n / 2, w - 1);
      assert NatBits(n, w)[..w - 1] == NatBits(n / 2, w - 1);
    }
  }

  // The bits of a field are told by its value.
  lemma BitsOfValue(s: seq<bool>, n: nat)
    ensures ValueOf(s) == n ==> s == NatBits(n, |s|)
  {
    NatBitsOfValue(s);
  }

  lemma FieldIsFieldBits(f: nat, ivBits: nat, textBits: nat)
    requires ivBits >= 56 && textBits / 8 < Pow2(32) && IsField(f, ivBits, textBits / 8)
    ensures f == FieldBits(ivBits, textBits)
  {
    hide Pow2;
    Powers();
    var bytes := textBits / 8;
    SmallFields(f, bytes);
    if f > 16 && f + ivBits > 120 {
      FieldSteps(f, bytes);
    }
  }

  // Which whole bytes are least for a length
  lemma FieldSteps(f: nat, bytes: nat)
    requires f % 8 == 0 && f > 16 && Pow2(f - 8) <= bytes < Pow2(f) && bytes < Pow2(32)
    ensures f == 24 || f == 32
    ensures f == 24 <==> bytes < 0x100_0000
    ensures bytes >= 0x1_0000
  {
    Powers();
    if f > 32 {
      Pow2Monotonic(32, f - 8);
    }
  }

  lemma SmallFields(f: nat, bytes: nat)
    requires f >= 16 && bytes < Pow2(f - f % 8)
    ensures f < 24 ==> bytes < 0x1_0000
    ensures f < 32 ==> bytes < 0x100_0000
  {
    Powers();
    var g := f - f % 8;
    if f < 24 {
      Pow2Monotonic(g, 16);
    }
    if f < 32 {
      Pow2Monotonic(g, 24);
    }
  }

  // A block is told by its fields.
  lemma FirstIs(b: Block, adata: bool, t: nat, f: nat, nonce: seq<bool>, bytes: nat)
    requires LegalTag(t) && IsFirst(b, adata, t, f, nonce, bytes) && bytes < Pow2(32) && bytes < Pow2(f)
    ensures b == FirstBlock(adata, t, nonce, f, bytes)
  {
    hide NatBits, ValueOf, FlagsByte, Pow2, FirstBlock;
    FirstBlockIsStandard(adata, t, nonce, f, bytes);
    BitsOfValue(b[128 - f..], bytes);
    assert b == b[..8] + b[8..128 - f] + b[128 - f..];
    assert b[..8][2..5] == b[2..5] && b[..8][5..8] == b[5..8];
    FlagsAre(b[..8], adata, t, f);
  }

  lemma FlagsAre(flags: seq<bool>, adata: bool, t: nat, f: nat)
    requires LegalTag(t) && 16 <= f <= 64 && |flags| == 8 && flags[0] == false && flags[1] == adata
    requires ValueOf(flags[2..5]) + 1 == t / 16 && ValueOf(flags[5..8]) + 1 == f / 8
    ensures flags == FlagsByte(adata, t, f)
  {
    hide NatBits, ValueOf, Pow2;
    var a, m, l := if adata then 1 else 0, t / 16 - 1, f / 8 - 1;
    BitsOfValue(flags[2..5], m);
    BitsOfValue(flags[5..8], l);
    EightPowers();
    assert (t / 8 - 2) / 2 == m;
    NatBitsSplit(a, 8 * m + l, 6, 8);
    NatBitsSplit(m, l, 3, 6);
    TwoBits(adata);
    assert flags == flags[..2] + flags[2..5] + flags[5..8];
  }

  lemma EightPowers()
    ensures Pow2(3) == 8 && Pow2(6) == 64
  {
    assert Pow2(3) == 2 * Pow2(2);
    assert Pow2(6) == 8 * Pow2(3);
  }

  lemma TwoBits(b: bool)
    ensures NatBits(if b then 1 else 0, 2) == [false, b]
  {
    assert NatBits(0, 1) == [false];
    assert NatBits(0, 2) == [false, false];
    assert NatBits(1, 2) == NatBits(0, 1) + [true];
  }

  lemma CounterIs(b: Block, f: nat, nonce: seq<bool>, i: nat)
    requires IsCounter(b, f, nonce, i) && i < Pow2(32) && i < Pow2(f)
    ensures b == CounterBlock(nonce, f, i)
  {
    hide NatBits, ValueOf, Pow2, CounterBlock;
    CounterBlockIsStandard(nonce, f, i);
    BitsOfValue(b[..8], f / 8 - 1);
    BitsOfValue(b[128 - f..], i);
    assert b == b[..8] + b[8..128 - f] + b[128 - f..];
  }

  lemma PrefixIs(prefix: seq<bool>, adata: seq<bool>)
    requires IsPrefix(prefix, |adata|) && |adata| / 8 < Pow2(32)
    ensures prefix + adata == AdataBits(adata)
  {
    hide NatBits, ValueOf, Pow2;
    Powers();
    if |adata| > 0 {
      if |adata| / 8 < 0xff00 {
        BitsOfValue(prefix, |adata| / 8);
      } else {
        BitsOfValue(prefix[..16], 0xfffe);
        BitsOfValue(prefix[16..], |adata| / 8);
        assert prefix == prefix[..16] + prefix[16..];
      }
    }
  }

  // ----- the chain

  lemma BlocksAre(B: seq<Block>, s: seq<bool>)
    requires AreBlocks(B, s)
    ensures |B| == BlockCount(|s|) && forall i | 0 <= i < |B| :: B[i] == PaddedBlock(s, i)
  {
    forall i | 0 <= i < |B|
      ensures B[i] == PaddedBlock(s, i)
    {
      assert forall j | 0 <= j < 128 :: B[i][j] == PaddedBlock(s, i)[j];
    }
  }

  // The chain over two strings is that over the second behind that over the first.
  lemma {:induction false} ChainIs(
    E: Cipher, X: seq<Block>, first: Block, B: seq<Block>, C: seq<Block>, s: seq<bool>, u: seq<bool>, k: nat)
    requires IsChain(E, X, first, B + C) && AreBlocks(B, s) && AreBlocks(C, u) && k <= |B| + |C|
    ensures X[k] == if k <= |B| then CbcMac(E, E(first), s, k)
                    else CbcMac(E, CbcMac(E, E(first), s, |B|), u, k - |B|)
  {
    hide PaddedBlock, AreBlocks, XorBits;
    BlocksAre(B, s);
    BlocksAre(C, u);
    if k > 0 {
      ChainIs(E, X, first, B, C, s, u, k - 1);
      assert LinkIs(E, X, (B + C)[k - 1], k - 1);
    }
  }

  // ----- encryption

  // The encryption of a text below 4 GiB with additional data below 4 GiB, for every block function E, IV of 7 bytes
  // or more, and tag length of 4 to 16 bytes, 8 if none is given: the text xor the key stream E(A_1) E(A_2) ..., and
  // the first bits of the last X xor those of E(A_0). B holds the blocks of the additional data behind its length,
  // and C those of the text.
  lemma {:induction false} EncryptIsStandard(
    E: Cipher, text: seq<bool>, iv: seq<bool>, adata: seq<bool>, tlen: nat, t: nat, f: nat, prefix: seq<bool>,
    first: Block, A: seq<Block>, B: seq<Block>, C: seq<Block>, X: seq<Block>, cipher: seq<bool>)
    requires |iv| >= 56 && |text| / 8 < Pow2(32) && |adata| / 8 < Pow2(32)
    requires t == (if tlen == 0 then 64 else tlen) && t in {32, 48, 64, 80, 96, 112, 128}
    requires IsField(f, |iv|, |text| / 8) && f <= 64
    requires IsFirst(first, |adata| > 0, t, f, iv[..120 - f], |text| / 8)
    requires 128 * |A| - 256 < |text| <= 128 * |A| - 128
    requires forall i | 0 <= i < |A| :: IsCounter(A[i], f, iv[..120 - f], i)
    requires IsPrefix(prefix, |adata|) && AreBlocks(B, prefix + adata) && AreBlocks(C, text)
    requires IsChain(E, X, first, B + C)
    requires |cipher| == |text| + t
    requires forall p | 0 <= p < |text| :: cipher[p] == (text[p] != E(A[1 + p / 128])[p % 128])
    requires forall p | 0 <= p < t :: cipher[|text| + p] == (X[|B| + |C|][p] != E(A[0])[p])
    ensures EncryptBits(E, text, iv, adata, tlen) == Ok(cipher)
  {
    hide Pow2, IsFirst, IsCounter, IsPrefix, AreBlocks, IsChain, IsField, FieldBits, CounterBlock, FirstBlock;
    hide CbcMac, AdataBits, KeyBlock;
    FieldIsFieldBits(f, |iv|, |text|);
    ShortEnough(|text|);
    ShortEnough(|adata|);
    var nonce := iv[..120 - f];
    StandardTag(E, text, iv, adata, t, f, prefix, first, B, C, X);
    StandardStream(E, text, iv, f, A);
    var tag := AuthTag(E, text, nonce, adata, t, f);
    assert cipher[..|text|] == XorBits(text, KeyStream(E, nonce, f, |text|));
    var mask := KeyBlock(E, nonce, f, 0);
    assert mask == E(A[0]);
    forall p | 0 <= p < t
      ensures cipher[|text|..][p] == XorBits(tag, mask[..t])[p]
    {
      assert tag[p] == X[|B| + |C|][p] && mask[..t][p] == mask[p];
    }
    assert cipher[|text|..] == XorBits(tag, mask[..t]);
    assert cipher == cipher[..|text|] + cipher[|text|..];
  }

  lemma ShortEnough(bits: nat)
    requires bits / 8 < Pow2(32)
    ensures !TooLong(bits)
  {
    Powers();
  }

  lemma FieldFits(f: nat, textBits: nat, ivBits: nat, i: nat)
    requires ivBits >= 56 && textBits / 8 < Pow2(32) && IsField(f, ivBits, textBits / 8) && i <= BlockCount(textBits)
    ensures textBits / 8 < Pow2(f) && i < Pow2(f) && i < Pow2(32)
  {
    hide Pow2, IsField;
    FieldIsFieldBits(f, ivBits, textBits);
    FieldHolds(ivBits, textBits, i);
  }

  lemma StandardTag(
    E: Cipher, text: seq<bool>, iv: seq<bool>, adata: seq<bool>, t: nat, f: nat, prefix: seq<bool>,
    first: Block, B: seq<Block>, C: seq<Block>, X: seq<Block>)
    requires |iv| >= 56 && |text| / 8 < Pow2(32) && |adata| / 8 < Pow2(32) && LegalTag(t)
    requires IsField(f, |iv|, |text| / 8) && f <= 64 && f + |iv| >= 120
    requires IsFirst(first, |adata| > 0, t, f, iv[..120 - f], |text| / 8)
    requires IsPrefix(prefix, |adata|) && AreBlocks(B, prefix + adata) && AreBlocks(C, text)
    requires IsChain(E, X, first, B + C)
    ensures |X| == |B| + |C| + 1 && f >= 16
    ensures AuthTag(E, text, iv[..120 - f], adata, t, f) == X[|B| + |C|][..t]
  {
    hide Pow2, IsFirst, IsPrefix, AreBlocks, FirstBlock, CbcMac, AdataBits;
    FieldFits(f, |text|, |iv|, 0);
    FirstIs(first, |adata| > 0, t, f, iv[..120 - f], |text| / 8);
    PrefixIs(prefix, adata);
    BlocksAre(B, prefix + adata);
    BlocksAre(C, text);
    ChainIs(E, X, first, B, C, prefix + adata, text, |B|);
    ChainIs(E, X, first, B, C, prefix + adata, text, |B| + |C|);
    if |C| == 0 {
      NoChain(E, CbcMac(E, E(first), prefix + adata, |B|), text);
    }
  }

  lemma NoChain(E: Cipher, x: Block, s: seq<bool>)
    ensures CbcMac(E, x, s, 0) == x
  {}

  lemma StandardStream(E: Cipher, text: seq<bool>, iv: seq<bool>, f: nat, A: seq<Block>)
    requires |iv| >= 56 && |text| / 8 < Pow2(32) && IsField(f, |iv|, |text| / 8) && f <= 64 && f + |iv| >= 120
    requires |A| <= BlockCount(|text|) + 1 && f >= 16
    requires forall i | 0 <= i < |A| :: IsCounter(A[i], f, iv[..120 - f], i)
    ensures forall i | 0 <= i < |A| :: KeyBlock(E, iv[..120 - f], f, i) == E(A[i])
  {
    hide Pow2, IsField, IsCounter, CounterBlock;
    forall i | 0 <= i < |A|
      ensures KeyBlock(E, iv[..120 - f], f, i) == E(A[i])
    {
      FieldFits(f, |text|, |iv|, i);
      CounterIs(A[i], f, iv[..120 - f], i);
    }
  }

  // When encryption fails, and with which error
  lemma {:induction false} EncryptFails(E: Cipher, text: seq<bool>, iv: seq<bool>, adata: seq<bool>, tlen: nat)
    ensures var r := EncryptBits(E, text, iv, adata, tlen);
            && (r == Err(IvTooShort) <==> |iv| < 56)
            && (r == Err(InvalidTagLength) <==> |iv| >= 56 && tlen !in {0, 32, 48, 64, 80, 96, 112, 128})
            && (r == Err(TooMuchData) <==>
                  && |iv| >= 56 && tlen in {0, 32, 48, 64, 80, 96, 112, 128}
                  && (|adata| > 32 * 0xffff_ffff || |text| > 32 * 0xffff_ffff))
            && r != Err(TagMismatch)
  {
    hide AuthTag, KeyStream, KeyBlock, FieldBits, XorBits;
  }

  // When decryption fails, and with which error, for a ciphertext that is long enough for a tag
  lemma {:induction false} DecryptFails(E: Cipher, cipher: seq<bool>, iv: seq<bool>, adata: seq<bool>, tlen: nat)
    requires |cipher| >= if tlen == 0 then 64 else tlen
    ensures var r := DecryptBits(E, cipher, iv, adata, tlen);
            var n := |cipher| - if tlen == 0 then 64 else tlen;
            && (r == Err(IvTooShort) <==> |iv| < 56)
            && (r == Err(InvalidTagLength) <==> |iv| >= 56 && tlen !in {0, 32, 48, 64, 80, 96, 112, 128})
            && (r == Err(TooMuchData) <==>
                  && |iv| >= 56 && tlen in {0, 32, 48, 64, 80, 96, 112, 128}
                  && (|adata| > 32 * 0xffff_ffff || n > 32 * 0xffff_ffff))
  {
    hide AuthTag, KeyStream, KeyBlock, FieldBits, XorBits, Sliced, Clamped, Unmasked;
    CutAtTag(cipher, |cipher| - TagLength(tlen));
  }

  // A negative number of bits is rounded to zero bytes and taken modulo 2^32.
  lemma {:induction false} NegativeBytes(k: nat, r: nat)
    requires r < 8 && k <= 0x1_0000_0000
    ensures Bytes(-8 * k - r) == if k == 0 then 0 else 0x1_0000_0000 - k
  {
    assert (8 * k + r) / 8 == k;
  }
}
