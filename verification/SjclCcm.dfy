/**
 sjcl.mode.ccm of desktop/Cipher/sjcl.js on arrays of words, proved against CCM on strings of bits.
 The block function is a parameter; it sees the bits of four words.
 */
module SjclCcm {
  import opened BitArrays
  import opened Ccm

  // ----- four words

  type Quad = q: seq<Bits32> | |q| == 4 witness [Zeros(32), Zeros(32), Zeros(32), Zeros(32)]

  function Join(q: Quad): Block {
    var s: seq<bool> := q[0];
    s + q[1] + q[2] + q[3]
  }

  function Split(b: Block): Quad {
    [b[..32], b[32..64], b[64..96], b[96..]]
  }

  function EncryptWords(E: Cipher, q: Quad): Quad {
    Split(E(Join(q)))
  }

  lemma JoinSplit(b: Block)
    ensures Join(Split(b)) == b
  {}

  // k of sjcl.bitArray
  function XorWords(x: Quad, y: Quad): Quad {
    [XorBits(x[0], y[0]), XorBits(x[1], y[1]), XorBits(x[2], y[2]), XorBits(x[3], y[3])]
  }

  lemma JoinXor(x: Quad, y: Quad)
    ensures Join(XorWords(x, y)) == XorBits(Join(x), Join(y))
  {
    hide XorBits;
    var s: seq<bool>, t: seq<bool> := x[0], y[0];
    XorAppend(s, t, x[1], y[1]);
    XorAppend(s + x[1], t + y[1], x[2], y[2]);
    XorAppend(s + x[1] + x[2], t + y[1] + y[2], x[3], y[3]);
  }

  lemma XorAppend(s: seq<bool>, t: seq<bool>, u: seq<bool>, v: seq<bool>)
    requires |s| == |t| && |u| == |v|
    ensures XorBits(s + u, t + v) == XorBits(s, t) + XorBits(u, v)
  {}

  // The bits of a word, 0 behind the end of the array
  function WordAt(a: seq<Word>, i: nat): Bits32 {
    if i < |a| then a[i].bits else Zeros(32)
  }

  // The four words from d on: slice, and concat with three zeros
  function QuadAt(a: seq<Word>, d: nat): Quad {
    [WordAt(a, d), WordAt(a, d + 1), WordAt(a, d + 2), WordAt(a, d + 3)]
  }

  lemma WordAtBits(a: seq<Word>, i: nat, j: nat)
    requires Valid(a) && j < 32
    ensures WordAt(a, i)[j] == (32 * i + j < |Bits(a)| && Bits(a)[32 * i + j])
  {
    hide Valid, Flat, Bits;
    ValidLength(a);
    if i < |a| {
      FlatWord(a, i);
      assert Flat(a)[32 * i..32 * i + 32][j] == Flat(a)[32 * i + j];
    }
  }

  lemma QuadAtBits(a: seq<Word>, i: nat)
    requires Valid(a)
    ensures Join(QuadAt(a, 4 * i)) == PaddedBlock(Bits(a), i)
  {
    hide Valid, Bits, WordAt;
    ValidLength(a);
    forall p | 0 <= p < 128
      ensures Join(QuadAt(a, 4 * i))[p] == PaddedBlock(Bits(a), i)[p]
    {
      var k, j := p / 32, p % 32;
      WordAtBits(a, 4 * i + k, j);
      JoinAt(QuadAt(a, 4 * i), k, j);
    }
  }

  lemma JoinAt(q: Quad, k: nat, j: nat)
    requires k < 4 && j < 32
    ensures Join(q)[32 * k + j] == q[k][j]
  {}

  function Plain(q: Quad): seq<Word> {
    [Word(q[0], 0), Word(q[1], 0), Word(q[2], 0), Word(q[3], 0)]
  }

  lemma PlainBits(q: Quad)
    ensures Valid(Plain(q)) && Bits(Plain(q)) == Join(q)
  {
    hide Flat, Join;
    forall i | 0 <= i < 128
      ensures Flat(Plain(q))[i] == Join(q)[i]
    {
      FlatWord(Plain(q), i / 32);
      assert Flat(Plain(q))[32 * (i / 32)..32 * (i / 32) + 32][i % 32] == Flat(Plain(q))[i];
      JoinAt(q, i / 32, i % 32);
    }
    assert Flat(Plain(q)) == Join(q) + Zeros(0);
    FromFlat(Plain(q), Join(q), 0);
  }

  // ----- G: the tag

  // Either loop of G: chain the words of an array.
  method Chain(E: Cipher, x: Quad, g: seq<Word>) returns (f: Quad)
    requires Valid(g)
    ensures Join(f) == CbcMac(E, Join(x), Bits(g), BlockCount(|Bits(g)|))
  {
    hide Valid, Join, Split, XorWords, PaddedBlock, Bits, QuadAt;
    ValidLength(g);
    f := x;
    var d := 0;
    ghost var i := 0;
    while d < |g|
      invariant d == 4 * i && i <= BlockCount(|Bits(g)|)
      invariant Join(f) == CbcMac(E, Join(x), Bits(g), i)
    {
      QuadAtBits(g, i);
      JoinXor(f, QuadAt(g, d));
      f := EncryptWords(E, XorWords(f, QuadAt(g, d)));
      JoinSplit(E(XorBits(CbcMac(E, Join(x), Bits(g), i), PaddedBlock(Bits(g), i))));
      d := d + 4;
      i := i + 1;
    }
    assert i == BlockCount(|Bits(g)|);
  }

  // The flags of B_0, put together by bit operations
  function FlagsWord(adata: bool, e: nat, f: nat): Word
    requires LegalTag(e) && 16 <= f
  {
    Word(Or(Or(NatBits(if adata then 64 else 0, 32), Shl(NatBits(e / 8 - 2, 32), 2)), NatBits(f / 8 - 1, 32)), 0)
  }

  // The first byte of an array: partial of 8 bits
  lemma ByteArray(w: Word)
    ensures Valid([Partial(8, w, false)]) && BitLength([Partial(8, w, false)]) == 8
    ensures Bits([Partial(8, w, false)]) == w.bits[24..]
  {
    hide Flat;
    FlatOne(Partial(8, w, false));
    FromFlat([Partial(8, w, false)], w.bits[24..], 24);
  }

  lemma NumberByte(n: nat)
    ensures NatBits(n, 32)[24..] == NatBits(n, 8)
  {
    NatBitsSuffix(n, 8, 32);
  }

  lemma {:induction false} NatBitsSuffix(n: nat, k: nat, w: nat)
    requires k <= w
    ensures NatBits(n, w)[w - k..] == NatBits(n, k)
  {
    if k > 0 {
      NatBitsSuffix(n / 2, k - 1, w - 1);
    }
  }

  lemma {:induction false} FlagsWordIsByte(adata: bool, e: nat, f: nat)
    requires LegalTag(e) && 16 <= f <= 64
    ensures FlagsWord(adata, e, f).bits[24..] == FlagsByte(adata, e, f)
  {
    hide NatBits, FlagsWord, Pow2;
    var a: nat := if adata then 1 else 0;
    var m := (e / 8 - 2) / 2;
    var l := f / 8 - 1;
    SmallPowers();
    assert e / 8 - 2 == m * Pow2(1) + 0;
    NatBitsSplit(m, 0, 1, 30);
    NatBitsPad(m, 3, 29);
    NatBitsPad(l, 3, 32);
    NatBitsSplit(a, 0, 6, 32);
    NatBitsSuffix(a, 2, 26);
    NatBitsSplit(a, 8 * m + l, 6, 8);
    NatBitsSplit(m, l, 3, 6);
    NatBitsSuffix(e / 8 - 2, 30, 32);
    NatBitsZero(6);
    NatBitsZero(1);
    FlagsPieces(adata, e, f, NatBits(a, 2), NatBits(m, 3), NatBits(l, 3));
  }

  lemma SmallPowers()
    ensures Pow2(1) == 2 && Pow2(3) == 8 && Pow2(6) == 64
  {
    assert Pow2(3) == 2 * Pow2(2);
    assert Pow2(6) == 8 * Pow2(3);
  }

  lemma FlagsPieces(adata: bool, e: nat, f: nat, a: seq<bool>, m: seq<bool>, l: seq<bool>)
    requires LegalTag(e) && 16 <= f <= 64 && |a| == 2 && |m| == |l| == 3
    requires NatBits(if adata then 64 else 0, 32)[24..] == a + Zeros(6)
    requires NatBits(e / 8 - 2, 32)[2..] == Zeros(26) + m + Zeros(1)
    requires NatBits(f / 8 - 1, 32) == Zeros(29) + l
    ensures FlagsWord(adata, e, f).bits[24..] == a + m + l
  {
    hide NatBits;
    var shifted := Shl(NatBits(e / 8 - 2, 32), 2);
    assert shifted[24..] == Zeros(2) + m + Zeros(3);
  }

  // Or a number into the fourth word: the words between are 0, and so is the tag.
  function OrFourth(q: Quad, n: nat): Quad {
    q[3 := Or(q[3], NatBits(n, 32))]
  }

  lemma OrFourthBits(q: Quad, n: nat)
    ensures Join(OrFourth(q, n)) == Join(q)[..96] + Or(Join(q)[96..], NatBits(n, 32))
  {
    hide Or, NatBits;
  }

  method G(E: Cipher, b: seq<Word>, c: seq<Word>, d: seq<Word>, e: nat, f: nat) returns (r: Result<seq<Word>>)
    requires Valid(b) && Valid(c) && Valid(d) && 16 <= f <= 64 && |Bits(c)| == 120 - f
    ensures r == Err(InvalidTagLength) <==> !LegalTag(e)
    ensures r == Err(TooMuchData) <==> LegalTag(e) && (TooLong(|Bits(d)|) || TooLong(|Bits(b)|))
    ensures r.Ok? <==> LegalTag(e) && !TooLong(|Bits(d)|) && !TooLong(|Bits(b)|)
    ensures r.Ok? ==> Valid(r.value) && Bits(r.value) == AuthTag(E, Bits(b), Bits(c), Bits(d), e, f)
  {
    hide Valid, Flat, Bits, Join, Split, FlagsWord, FlagsByte, CbcMac, Or, NatBits, OrFourth, PaddedBlock, QuadAt;
    hide EncryptWords;
    ValidLength(b);
    ValidLength(c);
    ValidLength(d);
    if e % 16 != 0 || e < 32 || e > 128 {
      return Err(InvalidTagLength);
    }
    if |d| > 0xffff_ffff || |b| > 0xffff_ffff {
      return Err(TooMuchData);
    }
    var flags := FlagsWord(|d| > 0, e, f);
    ByteArray(flags);
    FlagsWordIsByte(|d| > 0, e, f);
    var head := Concat([Partial(8, flags, false)], c);
    var x := First(E, head, Bits(head), BitLength(b) / 8);
    assert |d| > 0 <==> |Bits(d)| > 0;
    ghost var x0 := Join(x);
    assert x0 == E(FirstBlock(|Bits(d)| > 0, e, Bits(c), f, |Bits(b)| / 8));
    NoBlocks(E, x0);
    if |d| > 0 {
      var g := Header(d);
      x := Chain(E, x, g);
    }
    assert Join(x) == CbcMac(E, x0, AdataBits(Bits(d)), BlockCount(|AdataBits(Bits(d))|));
    x := Chain(E, x, b);
    PlainBits(x);
    PrefixClamped(Join(x), e);
    var tag := Clamp(Plain(x), e);
    r := Ok(tag);
  }

  lemma NoBlocks(E: Cipher, x: Block)
    ensures CbcMac(E, x, [], 0) == x
  {}

  // f[3] |= length, and the first use of the block function
  method First(E: Cipher, head: seq<Word>, ghost bits: seq<bool>, bytes: nat) returns (x: Quad)
    requires Valid(head) && bits == Bits(head)
    ensures Join(x) == E(PaddedBlock(bits, 0)[..96] + Or(PaddedBlock(bits, 0)[96..], NatBits(bytes, 32)))
  {
    hide Valid, Bits, Join, Split, Or, NatBits, OrFourth, PaddedBlock, QuadAt;
    QuadAtBits(head, 0);
    OrFourthBits(QuadAt(head, 4 * 0), bytes);
    x := EncryptWords(E, OrFourth(QuadAt(head, 0), bytes));
    JoinSplit(E(Join(OrFourth(QuadAt(head, 0), bytes))));
  }

  // The additional data behind its length
  method Header(d: seq<Word>) returns (g: seq<Word>)
    requires Valid(d) && |d| > 0
    ensures Valid(g) && Bits(g) == AdataBits(Bits(d))
  {
    hide Valid, Flat, Bits, NatBits;
    ValidLength(d);
    var c := BitLength(d) / 8;
    g := [];
    EmptyValid();
    if c <= 65279 {
      g := [Partial(16, Word(NatBits(c, 32), 0), false)];
      ShortNumber(c);
    } else if c <= 0xffff_ffff {
      ShortNumber(65534);
      FullNumber(c);
      g := Concat([Partial(16, Word(NatBits(65534, 32), 0), false)], [Word(NatBits(c, 32), 0)]);
    }
    g := Concat(g, d);
  }

  lemma ShortNumber(c: nat)
    ensures var a := [Partial(16, Word(NatBits(c, 32), 0), false)];
            Valid(a) && BitLength(a) == 16 && Bits(a) == NatBits(c, 16)
  {
    hide Flat, NatBits;
    var w := Partial(16, Word(NatBits(c, 32), 0), false);
    FlatOne(w);
    NatBitsSuffix(c, 16, 32);
    FromFlat([w], NatBits(c, 16), 16);
  }

  lemma FullNumber(c: nat)
    ensures var a := [Word(NatBits(c, 32), 0)];
            Valid(a) && BitLength(a) == 32 && Bits(a) == NatBits(c, 32)
  {
    hide Flat, NatBits;
    var w := Word(NatBits(c, 32), 0);
    FlatOne(w);
    assert NatBits(c, 32) == NatBits(c, 32) + Zeros(0);
    FromFlat([w], NatBits(c, 32), 0);
  }

  // ----- I: the key stream

  // data[i] ^= x, which drops a partial length; the array grows as needed.
  function XorWord(data: seq<Word>, i: nat, x: Bits32): seq<Word>
    requires i <= |data|
  {
    var w := Word(XorBits(WordAt(data, i), x), 0);
    if i < |data| then data[i := w] else data + [w]
  }

  method XorInto(data: seq<Word>, g: nat, s: Quad) returns (r: seq<Word>)
    requires g < |data|
    ensures |r| == if g + 4 <= |data| then |data| else g + 4
    ensures forall w | 0 <= w < |r| ::
              r[w] == if g <= w < g + 4 then Word(XorBits(WordAt(data, w), s[w - g]), 0) else data[w]
  {
    hide XorBits;
    r := XorWord(data, g, s[0]);
    r := XorWord(r, g + 1, s[1]);
    r := XorWord(r, g + 2, s[2]);
    r := XorWord(r, g + 3, s[3]);
  }

  // The words of the key stream, from the block after the first
  function StreamWord(E: Cipher, c: seq<bool>, f: nat, w: nat): Bits32
    requires 16 <= f
  {
    Split(KeyBlock(E, c, f, 1 + w / 4))[w % 4]
  }

  ghost predicate Streamed(E: Cipher, b: seq<Word>, data: seq<Word>, c: seq<bool>, f: nat, g: nat)
    requires 16 <= f
  {
    forall w | 0 <= w < |data| ::
      if w < g then data[w] == Word(XorBits(WordAt(b, w), StreamWord(E, c, f, w)), 0) else w < |b| && data[w] == b[w]
  }

  lemma StreamedMore(E: Cipher, b: seq<Word>, data: seq<Word>, r: seq<Word>, c: seq<bool>, f: nat, i: nat, s: Quad)
    requires 16 <= f && Streamed(E, b, data, c, f, 4 * i) && 4 * i < |b| == |data|
    requires s == Split(KeyBlock(E, c, f, 1 + i))
    requires |r| == if 4 * i + 4 <= |data| then |data| else 4 * i + 4
    requires forall w | 0 <= w < |r| ::
               r[w] == if 4 * i <= w < 4 * i + 4 then Word(XorBits(WordAt(data, w), s[w - 4 * i]), 0) else data[w]
    ensures Streamed(E, b, r, c, f, 4 * i + 4)
  {
    hide XorBits, Split, KeyBlock;
    forall w | 0 <= w < |r|
      ensures if w < 4 * i + 4 then r[w] == Word(XorBits(WordAt(b, w), StreamWord(E, c, f, w)), 0)
              else w < |b| && r[w] == b[w]
    {
      if 4 * i <= w < 4 * i + 4 {
        assert w / 4 == i && w % 4 == w - 4 * i;
      }
    }
  }

  lemma StreamedBits(E: Cipher, b: seq<Word>, data: seq<Word>, c: seq<bool>, f: nat)
    requires Valid(b) && 16 <= f && Streamed(E, b, data, c, f, |data|) && |b| <= |data|
    ensures Valid(data) && |Bits(b)| <= |Bits(data)|
    ensures Bits(data)[..|Bits(b)|] == XorBits(Bits(b), KeyStream(E, c, f, |Bits(b)|))
  {
    hide Split, KeyBlock, Bits, Flat, Valid;
    ValidLength(b);
    assert Flat(data) == Flat(data) + Zeros(0);
    FromFlat(data, Flat(data), 0);
    var n := |Bits(b)|;
    forall p | 0 <= p < n
      ensures Flat(data)[p] == XorBits(Bits(b), KeyStream(E, c, f, n))[p]
    {
      StreamedBit(E, b, data, c, f, p, p / 32, p % 32);
    }
  }

  lemma StreamedBit(E: Cipher, b: seq<Word>, data: seq<Word>, c: seq<bool>, f: nat, p: nat, w: nat, j: nat)
    requires Valid(b) && 16 <= f && Streamed(E, b, data, c, f, |data|) && |b| <= |data|
    requires p < |Bits(b)| && p == 32 * w + j && j < 32
    ensures w < |data| && Flat(data)[p] == (Bits(b)[p] != KeyBlock(E, c, f, 1 + p / 128)[p % 128])
  {
    hide Split, KeyBlock, Bits, Flat, Valid;
    ValidLength(b);
    FlatWord(data, w);
    assert Flat(data)[32 * w..32 * w + 32][j] == Flat(data)[p];
    WordAtBits(b, w, j);
    assert p / 128 == w / 4 && p % 128 == 32 * (w % 4) + j;
    SplitAt(KeyBlock(E, c, f, 1 + w / 4), w % 4, j);
  }

  lemma SplitAt(b: Block, k: nat, j: nat)
    requires k < 4 && j < 32
    ensures Split(b)[k][j] == b[32 * k + j]
  {}

  // The words of counter block i
  ghost predicate Counts(q: Quad, c: seq<bool>, f: nat, i: nat)
    requires 16 <= f
  {
    Join(q) == CounterBlock(c, f, i)
  }

  lemma CountsFirst(q: Quad, c: seq<bool>, f: nat)
    requires 16 <= f && Join(q) == PaddedBlock(NatBits(f / 8 - 1, 8) + c, 0)
    ensures Counts(q, c, f, 0)
  {
    hide NatBits, ValueOf, PaddedBlock;
    NatBitsOfValue(Join(q)[96..]);
  }

  lemma CountsNext(q: Quad, c: seq<bool>, f: nat, i: nat)
    requires 16 <= f && Counts(q, c, f, i)
    ensures |Increment(q[3])| == 32 && Counts(q[3 := Increment(q[3])], c, f, i + 1)
  {
    hide NatBits, ValueOf, PaddedBlock, Increment;
    var b := PaddedBlock(NatBits(f / 8 - 1, 8) + c, 0);
    assert q[3] == Join(q)[96..] && q[3] == NatBits(ValueOf(b[96..]) + i, 32);
    assert Join(q)[..96] == b[..96];
    IncrementNatBits(ValueOf(b[96..]) + i, 32);
  }

  lemma KeyBlockWords(E: Cipher, q: Quad, c: seq<bool>, f: nat, i: nat)
    requires 16 <= f && Counts(q, c, f, i)
    ensures EncryptWords(E, q) == Split(KeyBlock(E, c, f, i)) && Join(EncryptWords(E, q)) == KeyBlock(E, c, f, i)
  {
    hide Join, Split, CounterBlock;
    JoinSplit(KeyBlock(E, c, f, i));
  }

  method I(E: Cipher, b: seq<Word>, c: seq<Word>, d: seq<Word>, e: nat, f: nat)
    returns (tag: seq<Word>, data: seq<Word>)
    requires Valid(b) && Valid(c) && Valid(d) && 16 <= f <= 64 && |Bits(c)| == 120 - f
    ensures Valid(tag) && Bits(tag) == Unmasked(Bits(d), KeyBlock(E, Bits(c), f, 0), e)
    ensures Valid(data) && Bits(data) == XorBits(Bits(b), KeyStream(E, Bits(c), f, |Bits(b)|))
  {
    hide Valid, Flat, Bits, Join, Split, NatBits, Increment, PaddedBlock, QuadAt, EncryptWords, XorWords, Counts;
    hide Clamped, KeyBlock, XorBits, Streamed;
    ghost var nonce := Bits(c);
    var k := BitLength(b);
    ValidLength(b);
    var ctr := FirstCounter(c, f);
    KeyBlockWords(E, ctr, nonce, f, 0);
    tag := MaskTag(d, EncryptWords(E, ctr), e);
    if |b| == 0 {
      EmptyValid();
      return tag, [];
    }
    data := b;
    var g := 0;
    ghost var i := 0;
    assert Streamed(E, b, data, nonce, f, 0) by { StreamedNone(E, b, nonce, f); }
    while g < |b|
      invariant g == 4 * i && |data| == (if g <= |b| then |b| else g)
      invariant Counts(ctr, nonce, f, i)
      invariant Streamed(E, b, data, nonce, f, g)
    {
      CountsNext(ctr, nonce, f, i);
      ctr := ctr[3 := Increment(ctr[3])];
      KeyBlockWords(E, ctr, nonce, f, i + 1);
      var s := EncryptWords(E, ctr);
      var r := XorInto(data, g, s);
      StreamedMore(E, b, data, r, nonce, f, i, s);
      data := r;
      g := g + 4;
      i := i + 1;
    }
    assert |data| == g;
    StreamedBits(E, b, data, nonce, f);
    PrefixClamped(Bits(data), k);
    data := Clamp(data, k);
  }

  lemma StreamedNone(E: Cipher, b: seq<Word>, c: seq<bool>, f: nat)
    requires 16 <= f
    ensures Streamed(E, b, b, c, f, 0)
  {}

  lemma PrefixClamped(s: seq<bool>, n: nat)
    requires n <= |s|
    ensures Clamped(s, n) == s[..n]
  {
    CutAtTag(s, n);
  }

  method FirstCounter(c: seq<Word>, f: nat) returns (ctr: Quad)
    requires Valid(c) && 16 <= f <= 64
    ensures Counts(ctr, Bits(c), f, 0)
  {
    hide Valid, Flat, Bits, Join, NatBits, PaddedBlock, QuadAt, Counts;
    var w := Word(NatBits(f / 8 - 1, 32), 0);
    ByteArray(w);
    NumberByte(f / 8 - 1);
    var head := Concat([Partial(8, w, false)], c);
    QuadAtBits(head, 0);
    ctr := QuadAt(head, 0);
    CountsFirst(ctr, Bits(c), f);
  }

  method MaskTag(d: seq<Word>, s: Quad, e: nat) returns (tag: seq<Word>)
    requires Valid(d)
    ensures Valid(tag) && Bits(tag) == Unmasked(Bits(d), Join(s), e)
  {
    hide Valid, Flat, Bits, Join, PaddedBlock, QuadAt, XorWords, Clamped;
    QuadAtBits(d, 0);
    var x := XorWords(QuadAt(d, 0), s);
    JoinXor(QuadAt(d, 0), s);
    PlainBits(x);
    tag := BitSlice(Plain(x), 0, Before(e));
    assert Sliced(Join(x), 0) == Join(x);
  }

  // ----- encrypt and decrypt

  ghost predicate ValidResult(r: Result<seq<Word>>) {
    r.Ok? ==> Valid(r.value)
  }

  // The result in bits
  ghost function ResultBits(r: Result<seq<Word>>): Result<seq<bool>>
    requires ValidResult(r)
  {
    match r
    case Ok(a) => Ok(Bits(a))
    case Err(e) => Err(e)
  }

  // Eight times the number of bytes for the length; the nonce need not be whole bytes.
  method FieldWidth(ivBits: nat, textBits: int) returns (f: nat)
    requires ivBits >= 56
    ensures f == FieldBits(ivBits, textBits)
  {
    Powers();
    var k := Bytes(textBits);
    var l := 2;
    while l < 4 && k / Pow2(8 * l) != 0
      invariant 2 <= l <= 4
      invariant l > 2 ==> k / 0x1_0000 != 0
      invariant l > 3 ==> k / 0x100_0000 != 0
    {
      l := l + 1;
    }
    f := 8 * l;
    if f + ivBits < 120 {
      f := 120 - ivBits;
    }
  }

  method Encrypt(E: Cipher, plaintext: seq<Word>, iv: seq<Word>, adata: seq<Word>, tlen: nat)
    returns (r: Result<seq<Word>>)
    requires Valid(plaintext) && Valid(iv) && Valid(adata)
    ensures ValidResult(r)
    ensures ResultBits(r) == EncryptBits(E, Bits(plaintext), Bits(iv), Bits(adata), tlen)
  {
    hide Valid, Flat, Bits, AuthTag, KeyBlock, KeyStream, FieldBits, PaddedBlock, Clamped, XorBits, LegalTag, TooLong;
    hide Unmasked;
    ValidLength(plaintext);
    ValidLength(iv);
    var e := if tlen == 0 then 64 else tlen;
    if BitLength(iv) < 56 {
      return Err(IvTooShort);
    }
    var f := FieldWidth(BitLength(iv), BitLength(plaintext));
    var c := Clamp(iv, 120 - f);
    PrefixClamped(Bits(iv), 120 - f);
    var tag := G(E, plaintext, c, adata, e, f);
    if tag.Err? {
      return tag;
    }
    LegalLength(e);
    var masked, data := I(E, plaintext, c, tag.value, e, f);
    UnmaskedIs(Bits(tag.value), KeyBlock(E, Bits(c), f, 0), e);
    var joined := Concat(data, masked);
    r := Ok(joined);
  }

  lemma LegalLength(t: nat)
    requires LegalTag(t)
    ensures 32 <= t <= 128
  {}

  method Decrypt(E: Cipher, ciphertext: seq<Word>, iv: seq<Word>, adata: seq<Word>, tlen: nat)
    returns (r: Result<seq<Word>>)
    requires Valid(ciphertext) && Valid(iv) && Valid(adata)
    ensures ValidResult(r)
    ensures ResultBits(r) == DecryptBits(E, Bits(ciphertext), Bits(iv), Bits(adata), tlen)
  {
    hide Valid, Flat, Bits, AuthTag, KeyBlock, KeyStream, FieldBits, PaddedBlock, Clamped, XorBits, LegalTag, TooLong;
    hide Sliced, Unmasked;
    ValidLength(ciphertext);
    ValidLength(iv);
    var e := if tlen == 0 then 64 else tlen;
    var h := BitLength(ciphertext) - e;
    var text := Clamp(ciphertext, h);
    var tag := BitSlice(ciphertext, h, Unbounded);
    if BitLength(iv) < 56 {
      return Err(IvTooShort);
    }
    var f := FieldWidth(BitLength(iv), h);
    var c := Clamp(iv, 120 - f);
    PrefixClamped(Bits(iv), 120 - f);
    var unmasked, data := I(E, text, c, tag, e, f);
    var expected := G(E, data, c, adata, e, f);
    if expected.Err? {
      return expected;
    }
    LegalLength(e);
    var equal := Equal(unmasked, expected.value);
    if !equal {
      return Err(TagMismatch);
    }
    r := Ok(data);
  }

  // A text that is encrypted and decrypted comes back, and as the same array.
  method RoundTrip(E: Cipher, plaintext: seq<Word>, iv: seq<Word>, adata: seq<Word>, tlen: nat)
    returns (decrypted: Result<seq<Word>>)
    requires Valid(plaintext) && Valid(iv) && Valid(adata)
    requires BitLength(iv) >= 56 && LegalTag(TagLength(tlen)) && |adata| <= 0xffff_ffff && |plaintext| <= 0xffff_ffff
    ensures decrypted == Ok(plaintext)
  {
    hide Valid, Flat, Bits, EncryptBits, DecryptBits, LegalTag;
    ValidLength(plaintext);
    ValidLength(iv);
    ValidLength(adata);
    var encrypted := Encrypt(E, plaintext, iv, adata, tlen);
    Ccm.RoundTrip(E, Bits(plaintext), Bits(iv), Bits(adata), tlen);
    decrypted := Decrypt(E, encrypted.value, iv, adata, tlen);
    Canonical(plaintext, decrypted.value);
  }
}
