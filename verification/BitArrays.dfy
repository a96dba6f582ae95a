/**
 sjcl.bitArray of desktop/Cipher/sjcl.js: strings of bits packed into 32-bit words, the last of
 which may be partial. A word is given by its 32 bits, the most significant first, since the bit
 operations of the language see no more of a number than these.
 */
module BitArrays {

  // ----- 32-bit words

  function Zeros(n: nat): (s: seq<bool>)
    ensures |s| == n
  {
    seq(n, _ => false)
  }

  type Bits32 = s: seq<bool> | |s| == 32 witness Zeros(32)

  function Or(x: Bits32, y: Bits32): Bits32 {
    seq(32, i requires 0 <= i < 32 => x[i] || y[i])
  }

  function And(x: Bits32, y: Bits32): Bits32 {
    seq(32, i requires 0 <= i < 32 => x[i] && y[i])
  }

  function XorBits(s: seq<bool>, t: seq<bool>): (r: seq<bool>)
    requires |s| == |t|
    ensures |r| == |s|
  {
    seq(|s|, i requires 0 <= i < |s| => s[i] != t[i])
  }

  // <<
  function Shl(x: Bits32, k: nat): Bits32
    requires k <= 32
  {
    x[k..] + Zeros(k)
  }

  // >>>
  function Shr(x: Bits32, k: nat): Bits32
    requires k <= 32
  {
    Zeros(k) + x[..32 - k]
  }

  // >>
  function SignedShr(x: Bits32, k: nat): Bits32
    requires k <= 32
  {
    seq(k, _ => x[0]) + x[..32 - k]
  }

  // ----- numbers in an array

  // The number is the value of its bits plus tag times 2 to the 40; tag 0 is a full word.
  datatype Word = Word(bits: Bits32, tag: nat)

  const TAG_UNIT := 0x100_0000_0000

  // Math.round
  function Round(x: real): int {
    (x + 0.5).Floor
  }

  // Dividing and rounding finds the tag, whether the value is taken as signed or as unsigned.
  lemma {:induction false} TagOfNumber(value: int, tag: nat)
    requires -0x8000_0000 <= value < 0x1_0000_0000
    ensures Round((value + tag * TAG_UNIT) as real / TAG_UNIT as real) == tag
  {
    var v := value as real / TAG_UNIT as real;
    assert (value + tag * TAG_UNIT) as real / TAG_UNIT as real == v + tag as real;
    assert -0.5 <= v < 0.5;
  }

  function GetPartial(w: Word): nat {
    if w.tag == 0 then 32 else w.tag
  }

  function Partial(length: nat, x: Word, atEnd: bool): Word
    requires length <= 32
  {
    if length == 32 then x else Word(if atEnd then x.bits else Shl(x.bits, 32 - length), length)
  }

  function BitLength(a: seq<Word>): nat {
    if |a| == 0 then 0 else (|a| - 1) * 32 + GetPartial(a[|a| - 1])
  }

  // ----- the string of bits an array stands for

  function Flat(a: seq<Word>): (s: seq<bool>)
    ensures |s| == 32 * |a|
  {
    seq(32 * |a|, i requires 0 <= i < 32 * |a| => a[i / 32].bits[i % 32])
  }

  predicate AllFull(a: seq<Word>) {
    forall i | 0 <= i < |a| :: a[i].tag == 0
  }

  // Only the last word may be partial, and its unused bits are 0.
  ghost predicate Valid(a: seq<Word>) {
    && (forall i | 0 <= i < |a| - 1 :: a[i].tag == 0)
    && (|a| > 0 ==> a[|a| - 1].tag < 32)
    && BitLength(a) <= 32 * |a|
    && Flat(a)[BitLength(a)..] == Zeros(32 * |a| - BitLength(a))
  }

  ghost function Bits(a: seq<Word>): seq<bool>
    requires Valid(a)
  {
    Flat(a)[..BitLength(a)]
  }

  // The number of words that hold so many bits
  function WordCount(bits: nat): nat {
    (bits + 31) / 32
  }

  lemma ValidLength(a: seq<Word>)
    requires Valid(a)
    ensures BitLength(a) <= 32 * |a|
    ensures |Bits(a)| == BitLength(a) && |a| == WordCount(BitLength(a))
    ensures Flat(a) == Bits(a) + Zeros(32 * |a| - BitLength(a))
    ensures |a| > 0 ==> 1 <= GetPartial(a[|a| - 1]) <= 32
  {
    hide Flat;
    assert Flat(a) == Flat(a)[..BitLength(a)] + Flat(a)[BitLength(a)..];
  }

  lemma FlatAppend(a: seq<Word>, b: seq<Word>)
    ensures Flat(a + b) == Flat(a) + Flat(b)
  {}

  lemma FlatOne(w: Word)
    ensures Flat([w]) == w.bits
  {}

  // An array is told by its full words, the bits of its last word, and its length.
  lemma FromFlat(a: seq<Word>, s: seq<bool>, k: nat)
    requires forall i | 0 <= i < |a| - 1 :: a[i].tag == 0
    requires |a| > 0 ==> a[|a| - 1].tag < 32
    requires BitLength(a) == |s| && Flat(a) == s + Zeros(k)
    ensures Valid(a) && Bits(a) == s
  {
    hide Flat;
  }

  // No string of bits has two arrays.
  lemma {:induction false} Canonical(a: seq<Word>, b: seq<Word>)
    requires Valid(a) && Valid(b) && Bits(a) == Bits(b)
    ensures a == b
  {
    hide Flat, Valid, Zeros;
    ValidLength(a);
    ValidLength(b);
    SameFlat(a, b);
    if |a| > 0 {
      SameTag(a, b);
    }
    forall i | 0 <= i < |a|
      ensures a[i] == b[i]
    {
      InnerTags(a, i);
      InnerTags(b, i);
    }
  }

  lemma InnerTags(a: seq<Word>, i: nat)
    requires Valid(a) && i < |a|
    ensures i < |a| - 1 ==> a[i].tag == 0
  {}

  lemma SameTag(a: seq<Word>, b: seq<Word>)
    requires Valid(a) && Valid(b) && BitLength(a) == BitLength(b) && |a| == |b| > 0
    ensures a[|a| - 1].tag == b[|a| - 1].tag
  {}

  lemma SameFlat(a: seq<Word>, b: seq<Word>)
    requires |a| == |b| && Flat(a) == Flat(b)
    ensures forall i | 0 <= i < |a| :: a[i].bits == b[i].bits
  {
    forall i | 0 <= i < |a|
      ensures a[i].bits == b[i].bits
    {
      FlatWord(a, i);
      FlatWord(b, i);
    }
  }

  lemma FlatWord(a: seq<Word>, i: nat)
    requires i < |a|
    ensures 32 * i + 32 <= |Flat(a)| && Flat(a)[32 * i..32 * i + 32] == a[i].bits
  {
    forall j | 0 <= j < 32
      ensures Flat(a)[32 * i + j] == a[i].bits[j]
    {
      assert (32 * i + j) / 32 == i && (32 * i + j) % 32 == j;
    }
  }

  // ----- shifting one array behind another: P

  // What the loop of P has done to the bits: c carries b of them.
  lemma ShiftStep(c: Bits32, x: Bits32, b: nat)
    requires 0 < b < 32 && c[b..] == Zeros(32 - b)
    ensures Or(c, Shr(x, b)) == c[..b] + x[..32 - b]
    ensures Shl(x, 32 - b)[..b] == x[32 - b..] && Shl(x, 32 - b)[b..] == Zeros(32 - b)
  {
    assert forall i | b <= i < 32 :: c[i] == c[b..][i - b];
  }

  // Everything after the first loop of P, for a shift that is not a multiple of 32
  method ShiftBehind(a: seq<Word>, shift: nat, carry: Bits32, out: seq<Word>) returns (d: seq<Word>)
    requires Valid(a) && 0 < shift < 32 && carry[shift..] == Zeros(32 - shift)
    requires AllFull(out)
    ensures Valid(d) && Bits(d) == Flat(out) + carry[..shift] + Bits(a)
  {
    hide Flat, Or, Shr, Shl, Valid;
    ValidLength(a);
    var c := carry;
    d := out;
    for e := 0 to |a|
      invariant c[shift..] == Zeros(32 - shift)
      invariant |d| == |out| + e
      invariant AllFull(d)
      invariant Flat(d) + c[..shift] == Flat(out) + carry[..shift] + Flat(a[..e])
      invariant e == 0 ==> d == out && c == carry
      invariant e > 0 ==> c[..shift] == a[e - 1].bits[32 - shift..]
    {
      var x := a[e].bits;
      ShiftStep(c, x, shift);
      ShiftFlat(d, Word(Or(c, Shr(x, shift)), 0), c, x, shift);
      PrefixFlat(a, e);
      d := d + [Word(Or(c, Shr(x, shift)), 0)];
      c := Shl(x, 32 - shift);
    }
    assert a[..|a|] == a;
    ghost var before := d;
    // an empty array counts as ending in a full word
    var length := if |a| == 0 then 32 else GetPartial(a[|a| - 1]);
    var last;
    if shift + length > 32 {
      last := Word(c, 0);
    } else {
      last := d[|d| - 1];
      d := d[..|d| - 1];
    }
    d := d + [Partial((shift + length) % 32, last, true)];
    if shift + length > 32 {
      ShiftedOver(a, length, before, d, c, shift, Flat(out) + carry[..shift]);
    } else {
      ShiftedWithin(a, before, d, c, shift, Flat(out) + carry[..shift]);
    }
  }

  // The bits that a carry adds: its first ones, and zeros for a shift of more than a word
  function Carried(carry: Bits32, shift: nat): seq<bool> {
    if shift <= 32 then carry[..shift] else carry + Zeros(shift - 32)
  }

  method P(a: seq<Word>, shift: nat, carry: Bits32, out: seq<Word>) returns (d: seq<Word>)
    requires Valid(a) && AllFull(out) && (0 < shift < 32 ==> carry[shift..] == Zeros(32 - shift))
    ensures Valid(d) && Bits(d) == Flat(out) + Carried(carry, shift) + Bits(a)
  {
    hide Flat, Valid, Carried, Zeros, Bits;
    d := out;
    var b, c := shift, carry;
    while b >= 32
      invariant 0 <= b <= shift
      invariant AllFull(d) && (0 < b < 32 ==> c[b..] == Zeros(32 - b))
      invariant Flat(d) + Carried(c, b) == Flat(out) + Carried(carry, shift)
    {
      PushedCarry(d, c, b);
      ZeroCarry(b - 32);
      d := d + [Word(c, 0)];
      c := Zeros(32);
      b := b - 32;
    }
    CarriedWithin(c, b);
    if b == 0 {
      FullAppend(d, a);
      d := d + a;
    } else {
      d := ShiftBehind(a, b, c, d);
    }
  }

  lemma PushedCarry(d: seq<Word>, c: Bits32, b: nat)
    requires b >= 32
    ensures Flat(d + [Word(c, 0)]) + Carried(Zeros(32), b - 32) == Flat(d) + Carried(c, b)
  {
    hide Flat;
    FlatAppend(d, [Word(c, 0)]);
    FlatOne(Word(c, 0));
    assert Carried(c, b) == c + Zeros(b - 32);
    assert Carried(Zeros(32), b - 32) == Zeros(b - 32);
  }

  lemma CarriedWithin(c: Bits32, b: nat)
    requires b < 32
    ensures Carried(c, b) == c[..b]
  {}

  lemma ZeroCarry(shift: nat)
    ensures 0 < shift < 32 ==> Zeros(32)[shift..] == Zeros(32 - shift)
    ensures shift <= 32 ==> Carried(Zeros(32), shift) == Zeros(shift)
  {}

  lemma FullAppend(d: seq<Word>, a: seq<Word>)
    requires AllFull(d) && Valid(a)
    ensures Valid(d + a) && Bits(d + a) == Flat(d) + Bits(a)
  {
    hide Flat;
    FlatAppend(d, a);
    ValidLength(a);
    assert Flat(d + a) == Flat(d) + Bits(a) + Zeros(32 * |a| - BitLength(a));
    FromFlat(d + a, Flat(d) + Bits(a), 32 * |a| - BitLength(a));
  }

  lemma EmptyFlat()
    ensures Flat([]) == []
  {}

  lemma PrefixFlat(a: seq<Word>, e: nat)
    requires e < |a|
    ensures Flat(a[..e + 1]) == Flat(a[..e]) + a[e].bits
  {
    hide Flat;
    assert a[..e + 1] == a[..e] + [a[e]];
    FlatAppend(a[..e], [a[e]]);
    FlatOne(a[e]);
  }

  lemma ShiftFlat(d: seq<Word>, w: Word, c: Bits32, x: Bits32, b: nat)
    requires 0 < b < 32 && w.bits == c[..b] + x[..32 - b]
    ensures Flat(d + [w]) + x[32 - b..] == Flat(d) + c[..b] + x
  {
    hide Flat;
    FlatAppend(d, [w]);
    FlatOne(w);
    assert x == x[..32 - b] + x[32 - b..];
  }

  // The last bits need a word of their own.
  lemma ShiftedOver(a: seq<Word>, length: nat, before: seq<Word>, d: seq<Word>, c: Bits32, shift: nat, front: seq<bool>)
    requires Valid(a) && length == (if |a| == 0 then 32 else GetPartial(a[|a| - 1]))
    requires AllFull(before) && 0 < shift < 32 < shift + length
    requires c[shift..] == Zeros(32 - shift) && Flat(before) + c[..shift] == front + Flat(a)
    requires d == before + [Partial((shift + length) % 32, Word(c, 0), true)]
    ensures Valid(d) && Bits(d) == front + Bits(a)
  {
    hide Flat, Valid;
    ValidLength(a);
    var w := d[|before|];
    FlatAppend(before, [w]);
    FlatOne(w);
    assert c == c[..shift] + Zeros(32 - shift);
    var pad := 32 * |a| - BitLength(a);
    assert Flat(d) == front + Flat(a) + Zeros(32 - shift);
    assert Flat(d) == front + Bits(a) + Zeros(pad + 32 - shift);
    assert |front| + 32 * |a| == 32 * |before| + shift;
    FromFlat(d, front + Bits(a), pad + 32 - shift);
  }

  // The last bits fit in the word before; what is carried is 0.
  lemma ShiftedWithin(a: seq<Word>, before: seq<Word>, d: seq<Word>, c: Bits32, shift: nat, front: seq<bool>)
    requires Valid(a) && |a| > 0 && 0 < shift < 32 && shift + GetPartial(a[|a| - 1]) <= 32
    requires |before| > 0 && AllFull(before)
    requires Flat(before) + c[..shift] == front + Flat(a)
    requires d == before[..|before| - 1] + [Partial((shift + GetPartial(a[|a| - 1])) % 32, before[|before| - 1], true)]
    ensures Valid(d) && Bits(d) == front + Bits(a)
  {
    hide Flat, Valid;
    ValidLength(a);
    SameBitsFlat(before, d);
    var pad := 32 * |a| - BitLength(a);
    assert |front| + 32 * |a| == 32 * |before| + shift;
    assert front + Flat(a) == front + Bits(a) + Zeros(pad);
    assert Flat(d) == (front + Bits(a) + Zeros(pad))[..32 * |before|];
    assert Flat(d) == front + Bits(a) + Zeros(pad - shift);
    FromFlat(d, front + Bits(a), pad - shift);
  }

  lemma SameBitsFlat(a: seq<Word>, b: seq<Word>)
    requires |a| == |b| && forall i | 0 <= i < |a| :: a[i].bits == b[i].bits
    ensures Flat(a) == Flat(b)
  {}

  // ----- the operations

  method Concat(a: seq<Word>, b: seq<Word>) returns (r: seq<Word>)
    requires Valid(a) && Valid(b)
    ensures Valid(r) && Bits(r) == Bits(a) + Bits(b)
  {
    hide Flat, Valid;
    ValidLength(a);
    ValidLength(b);
    if |a| == 0 || |b| == 0 {
      assert a + b == if |a| == 0 then b else a;
      return a + b;
    }
    var c := a[|a| - 1];
    var d := GetPartial(c);
    LastWord(a);
    if d == 32 {
      FullConcat(a, b);
      return a + b;
    }
    r := P(b, d, c.bits, a[..|a| - 1]);
  }

  // An array's bits are those of its full words and the first ones of its last word.
  lemma LastWord(a: seq<Word>)
    requires Valid(a) && |a| > 0
    ensures var d := GetPartial(a[|a| - 1]);
            && d <= 32
            && a[|a| - 1].bits[d..] == Zeros(32 - d)
            && Bits(a) == Flat(a[..|a| - 1]) + a[|a| - 1].bits[..d]
            && AllFull(a[..|a| - 1])
  {
    hide Flat;
    var k := |a| - 1;
    PrefixFlat(a, k);
    assert a[..k + 1] == a;
    var d := GetPartial(a[k]);
    assert Flat(a)[BitLength(a)..] == a[k].bits[d..];
  }

  lemma FullConcat(a: seq<Word>, b: seq<Word>)
    requires Valid(a) && Valid(b) && |a| > 0 && |b| > 0 && GetPartial(a[|a| - 1]) == 32
    ensures Valid(a + b) && Bits(a + b) == Bits(a) + Bits(b)
  {
    hide Flat;
    FlatAppend(a, b);
    ValidLength(b);
    ValidLength(a);
    assert Flat(a) == Bits(a);
    assert Flat(a + b) == Bits(a) + Bits(b) + Zeros(32 * |b| - BitLength(b));
    FromFlat(a + b, Bits(a) + Bits(b), 32 * |b| - BitLength(b));
  }

  // The length to which clamp cuts an array of some words: a negative length is counted from the end of
  // the last word, as slice counts it, unless it is less than a word.
  function ClampLength(words: nat, n: int): nat {
    if n >= 0 then n else if n > -32 || 32 * words + n < 0 then 0 else 32 * words + n
  }

  // What clamp makes of a string: a length beyond the end adds zeros up to it, but only inside the
  // last word.
  function Clamped(s: seq<bool>, n: int): seq<bool> {
    ClampedTo(s, ClampLength(WordCount(|s|), n))
  }

  function ClampedTo(s: seq<bool>, n: nat): seq<bool> {
    if n <= |s| then s[..n]
    else if n < 32 * WordCount(|s|) then s + Zeros(n - |s|)
    else s
  }

  // a.slice(0, end), where a negative end counts from the back
  function SliceEnd(words: nat, end: int): nat
    requires end <= words
  {
    if end >= 0 then end else if words + end < 0 then 0 else words + end
  }

  // Math.ceil(n / 32)
  function CeilWords(n: int): int {
    (n + 31) / 32
  }

  method Clamp(a: seq<Word>, n: int) returns (r: seq<Word>)
    requires Valid(a)
    ensures Valid(r) && Bits(r) == Clamped(Bits(a), n)
  {
    hide Flat, Valid, And, SignedShr, ClampedTo, ClampLength, SliceEnd, CeilWords;
    ValidLength(a);
    ghost var m := ClampLength(|a|, n);
    ClampWords(|a|, n);
    if |a| * 32 < n {
      BeyondTheEnd(a, m);
      return a;
    }
    r := a[..SliceEnd(|a|, CeilWords(n))];
    var c := |r|;
    var b := n % 32;
    if c > 0 && b > 0 {
      var x := r[c - 1];
      r := r[c - 1 := Partial(b, Word(And(x.bits, SignedShr([true] + Zeros(31), b - 1)), 0), true)];
      MaskKeeps(x.bits, b);
      ClampedInside(a, m, r);
    } else {
      ClampedBetween(a, m);
    }
  }

  lemma ClampWords(words: nat, n: int)
    ensures n > 32 * words ==> ClampLength(words, n) == n
    ensures n <= 32 * words ==>
              && CeilWords(n) <= words
              && SliceEnd(words, CeilWords(n)) == WordCount(ClampLength(words, n)) <= words
              && ClampLength(words, n) <= 32 * words
              && (ClampLength(words, n) > 0 ==> ClampLength(words, n) % 32 == n % 32)
  {
    if n < 0 {
      assert (32 * words + n + 31) / 32 == words + (n + 31) / 32;
      assert (32 * words + n) % 32 == n % 32;
    }
  }

  lemma BeyondTheEnd(a: seq<Word>, n: nat)
    requires Valid(a) && |a| * 32 < n
    ensures ClampedTo(Bits(a), n) == Bits(a)
  {
    ValidLength(a);
  }

  lemma MaskKeeps(x: Bits32, b: nat)
    requires 0 < b < 32
    ensures And(x, SignedShr([true] + Zeros(31), b - 1)) == x[..b] + Zeros(32 - b)
  {}

  lemma ClampedInside(a: seq<Word>, n: nat, r: seq<Word>)
    requires Valid(a) && n <= 32 * |a| && n % 32 != 0 && |r| == WordCount(n)
    requires forall i | 0 <= i < |r| - 1 :: r[i] == a[i]
    requires r[|r| - 1] == Word(a[|r| - 1].bits[..n % 32] + Zeros(32 - n % 32), n % 32)
    ensures Valid(r) && Bits(r) == ClampedTo(Bits(a), n)
  {
    hide Flat, Valid;
    var k := |r| - 1;
    assert n == 32 * k + n % 32;
    var front := a[..k];
    assert r == front + [r[k]];
    FlatAppend(front, [r[k]]);
    FlatOne(r[k]);
    FlatPrefix(a, k);
    FlatWord(a, k);
    ValidLength(a);
    assert Flat(r) == Flat(a)[..n] + Zeros(32 - n % 32) by {
      assert Flat(a)[..n] == Flat(a)[..32 * k] + Flat(a)[32 * k..32 * k + 32][..n % 32];
    }
    assert Flat(a)[..n] == ClampedTo(Bits(a), n);
    forall i | 0 <= i < |r| - 1
      ensures r[i].tag == 0
    {
      InnerTags(a, i);
    }
    FromFlat(r, ClampedTo(Bits(a), n), 32 - n % 32);
  }

  lemma FlatPrefix(a: seq<Word>, k: nat)
    requires k <= |a|
    ensures Flat(a[..k]) == Flat(a)[..32 * k]
  {
    hide Flat;
    assert a == a[..k] + a[k..];
    FlatAppend(a[..k], a[k..]);
  }

  lemma FlatSuffix(a: seq<Word>, k: nat)
    requires k <= |a|
    ensures Flat(a[k..]) == Flat(a)[32 * k..]
  {
    hide Flat;
    assert a == a[..k] + a[k..];
    FlatAppend(a[..k], a[k..]);
  }

  lemma ClampedBetween(a: seq<Word>, n: nat)
    requires Valid(a) && n <= 32 * |a| && n % 32 == 0
    ensures Valid(a[..WordCount(n)]) && Bits(a[..WordCount(n)]) == ClampedTo(Bits(a), n)
  {
    hide Flat, Valid;
    var k := WordCount(n);
    assert n == 32 * k;
    ValidLength(a);
    if k == |a| {
      assert a[..k] == a;
    } else {
      FlatPrefix(a, k);
      forall i | 0 <= i < k
        ensures a[..k][i].tag == 0
      {
        InnerTags(a, i);
      }
      assert Flat(a)[..n] == Bits(a)[..n];
      FromFlat(a[..k], Bits(a)[..n], 0);
    }
  }

  // end is Unbounded where the source leaves it undefined.
  datatype Bound = Unbounded | Before(end: int)

  function From(s: seq<bool>, start: nat): seq<bool> {
    if start <= |s| then s[start..] else []
  }

  // a.slice(start / 32), which drops the fraction; a negative start counts from the back, except -0.
  function SliceStart(words: nat, start: int): nat {
    if start >= 0 then start / 32
    else if (-start) / 32 == 0 then 0
    else if words < (-start) / 32 then 0
    else words - (-start) / 32
  }

  // The bits from start on, whose word and place in it are found separately
  function Sliced(s: seq<bool>, start: int): seq<bool> {
    From(s, 32 * SliceStart(WordCount(|s|), start) + start % 32)
  }

  // A negative start is counted in words from the end of the last one, rounded to a later word, and in bits from
  // the start of that word.
  lemma {:induction false} SlicedFromBack(s: seq<bool>, k: nat, r: nat)
    requires r < 32 && 32 * k + r > 0
    ensures var words := (|s| + 31) / 32;
            var start := (if k == 0 || words < k then 0 else 32 * (words - k)) + (if r == 0 then 0 else 32 - r);
            Sliced(s, -32 * k - r) == if start <= |s| then s[start..] else []
  {
    var n := 32 * k + r;
    assert n / 32 == k && (-n) % 32 == if r == 0 then 0 else 32 - r;
  }

  // The bits behind the first m: P behind a word of zeros, and the first word dropped
  method DropBits(a: seq<Word>, m: nat) returns (r: seq<Word>)
    requires Valid(a) && m < 32
    ensures Valid(r) && Bits(r) == From(Bits(a), m)
  {
    hide Flat, Valid, Carried, Zeros, Bits, From;
    ValidLength(a);
    var shift := 32 - m;
    // the carry is undefined, which the bit operations take for 0
    ZeroCarry(shift);
    r := P(a, shift, Zeros(32), []);
    SlicedInside(Bits(a), r, m);
    r := r[1..];
  }

  method BitSlice(a: seq<Word>, start: int, bound: Bound) returns (r: seq<Word>)
    requires Valid(a)
    ensures Valid(r)
    ensures Bits(r) ==
            if bound.Unbounded? then Sliced(Bits(a), start)
            else Clamped(Sliced(Bits(a), start), bound.end - start)
  {
    hide Flat, Valid, Clamped, From, SliceStart, Carried, Zeros, Bits;
    ValidLength(a);
    var k, m := SliceStart(|a|, start), start % 32;
    var rest := if k <= |a| then a[k..] else [];
    FromWord(a, k);
    r := DropBits(rest, m);
    FromTwice(Bits(a), k, m);
    if bound.Before? {
      r := Clamp(r, bound.end - start);
    }
  }

  lemma FromTwice(s: seq<bool>, k: nat, m: nat)
    ensures From(s, 32 * k + m) == From(From(s, 32 * k), m)
  {}

  lemma FromWord(a: seq<Word>, k: nat)
    requires Valid(a)
    ensures var rest := if k <= |a| then a[k..] else [];
            Valid(rest) && Bits(rest) == From(Bits(a), 32 * k)
  {
    hide Flat, Valid;
    ValidLength(a);
    if k < |a| {
      FlatSuffix(a, k);
      var rest := a[k..];
      forall i | 0 <= i < |rest| - 1
        ensures rest[i].tag == 0
      {
        InnerTags(a, i + k);
      }
      LastTag(a);
      FromFlat(rest, Bits(a)[32 * k..], 32 * |a| - BitLength(a));
    } else {
      EmptyValid();
      var rest := if k <= |a| then a[k..] else [];
      assert rest == [] && From(Bits(a), 32 * k) == [];
    }
  }

  lemma LastTag(a: seq<Word>)
    requires Valid(a)
    ensures |a| > 0 ==> a[|a| - 1].tag < 32
  {}

  lemma EmptyValid()
    ensures Valid([]) && Bits([]) == []
  {}

  // P has put 32 - m zeros in front of the bits; without its first word, m bits are gone.
  lemma SlicedInside(s: seq<bool>, r: seq<Word>, m: nat)
    requires m < 32 && Valid(r) && Bits(r) == Flat([]) + Carried(Zeros(32), 32 - m) + s
    ensures |r| > 0 && Valid(r[1..]) && Bits(r[1..]) == From(s, m)
  {
    hide Flat, Valid, Carried;
    EmptyFlat();
    ZeroCarry(32 - m);
    ValidLength(r);
    FromWord(r, 1);
    assert Bits(r) == Zeros(32 - m) + s;
  }

  method Equal(a: seq<Word>, b: seq<Word>) returns (equal: bool)
    requires Valid(a) && Valid(b)
    ensures equal <==> Bits(a) == Bits(b)
    ensures equal <==> a == b
  {
    hide Flat, Valid, Or, XorBits;
    ValidLength(a);
    ValidLength(b);
    if BitLength(a) != BitLength(b) {
      return false;
    }
    var c: Bits32 := Zeros(32);
    for d := 0 to |a|
      invariant c == Zeros(32) <==> forall i | 0 <= i < d :: a[i].bits == b[i].bits
    {
      OrXorZero(c, a[d].bits, b[d].bits);
      c := Or(c, XorBits(a[d].bits, b[d].bits));
    }
    if c == Zeros(32) {
      SameBitsFlat(a, b);
    }
    assert Bits(a) == Bits(b) ==> a == b by {
      if Bits(a) == Bits(b) {
        Canonical(a, b);
      }
    }
    return c == Zeros(32);
  }

  lemma OrXorZero(c: Bits32, x: Bits32, y: Bits32)
    ensures Or(c, XorBits(x, y)) == Zeros(32) <==> c == Zeros(32) && x == y
  {
    if Or(c, XorBits(x, y)) == Zeros(32) {
      forall i | 0 <= i < 32
        ensures c[i] == false && x[i] == y[i]
      {
        assert Or(c, XorBits(x, y))[i] == Zeros(32)[i];
      }
    }
  }
}
