/**
 ECCoder of desktop/ECCoder.py, the single-threaded path: a message is cut into blocks of k
 bytes, the last one padded with '}', and each block becomes an n-byte codeword.
 */
module ECCoder {
  import F = GF256
  import opened Polynomials
  import opened RSCode
  import opened Decoder
  import opened ErrorCorrection

  const NUL: Elem := F.ZERO
  // '}'
  const PADDING: Elem := F.Elem(125)

  function Paddings(n: nat): seq<Elem> {
    seq(n, _ => PADDING)
  }

  // str.rstrip of the padding character
  function RStrip(c: seq<Elem>): seq<Elem> {
    if |c| > 0 && c[|c| - 1] == PADDING then RStrip(c[..|c| - 1]) else c
  }

  // _pad, for a block length k
  function Pad(s: seq<Elem>, k: nat): seq<Elem>
    requires k > 0
  {
    if |s| == k then s else s + Paddings(k - |s| % k)
  }

  // The blocks of a message: size bytes each, except perhaps the last
  function Chunks(message: seq<Elem>, size: nat): seq<seq<Elem>>
    requires size > 0
  {
    if |message| == 0 then []
    else if |message| <= size then [message]
    else [message[..size]] + Chunks(message[size..], size)
  }

  function PadAll(chunks: seq<seq<Elem>>, k: nat): seq<seq<Elem>>
    requires k > 0
  {
    seq(|chunks|, i requires 0 <= i < |chunks| => Pad(chunks[i], k))
  }

  // The list comprehension of _chunk
  method Cut(message: seq<Elem>, size: nat) returns (chunked: seq<seq<Elem>>)
    requires size > 0
    ensures chunked == Chunks(message, size)
  {
    chunked := [];
    var i := 0;
    while i < |message|
      invariant 0 <= i
      invariant i <= |message| ==> chunked + Chunks(message[i..], size) == Chunks(message, size)
      invariant i > |message| ==> chunked == Chunks(message, size)
    {
      ghost var rest := message[i..];
      if i + size < |message| {
        assert rest[..size] == message[i..i + size];
        assert rest[size..] == message[i + size..];
        chunked := chunked + [message[i..i + size]];
      } else {
        chunked := chunked + [message[i..]];
      }
      i := i + size;
    }
  }

  // _chunk; for a block length of 0 the source's range raises an error.
  method Chunk(coder: RSCoder, message: seq<Elem>, encode: bool) returns (chunked: seq<seq<Elem>>)
    requires coder.Valid() && (encode ==> coder.k > 0)
    ensures chunked == if encode then PadAll(Chunks(message, coder.k), coder.k) else Chunks(message, coder.n)
  {
    hide Pad, Chunks, Generator;
    chunked := Cut(message, if encode then coder.k else coder.n);
    ghost var chunks := chunked;
    var c := 0;
    while c < |chunked|
      invariant 0 <= c <= |chunked| == |chunks|
      invariant forall i | 0 <= i < |chunked| ::
                  chunked[i] == if encode && i < c then Pad(chunks[i], coder.k) else chunks[i]
    {
      if encode {
        chunked := chunked[c := Pad(chunked[c], coder.k)];
      }
      c := c + 1;
    }
  }

  // The blocks can all be encoded.
  ghost predicate Fit(blocks: seq<seq<Elem>>, k: nat) {
    forall i | 0 <= i < |blocks| :: |blocks[i]| <= k
  }

  // The concatenated codewords of the blocks
  function EncodeBlocks(coder: RSCoder, blocks: seq<seq<Elem>>): seq<Elem>
    requires coder.Valid() && Fit(blocks, coder.k)
  {
    if |blocks| == 0 then [] else Encode(coder, blocks[0]).value + EncodeBlocks(coder, blocks[1..])
  }

  // The concatenated messages of the blocks, padding removed
  function DecodeBlocks(coder: RSCoder, blocks: seq<seq<Elem>>): seq<Elem>
    requires coder.Valid()
  {
    if |blocks| == 0 then [] else RStrip(Decoded(coder, blocks[0], false)) + DecodeBlocks(coder, blocks[1..])
  }

  // A block of 1 to k bytes is padded to k bytes.
  lemma PadIs(s: seq<Elem>, k: nat)
    requires 0 < |s| <= k
    ensures Pad(s, k) == s + Paddings(k - |s|)
  {
    if |s| < k {
      SmallMod(|s|, k);
    } else {
      assert s + Paddings(0) == s;
    }
  }

  lemma SmallMod(a: nat, k: nat)
    requires a < k
    ensures a % k == a
  {}

  lemma {:induction false} ChunkLengths(message: seq<Elem>, k: nat)
    requires k > 0
    ensures forall i | 0 <= i < |Chunks(message, k)| :: 0 < |Chunks(message, k)[i]| <= k
  {
    if |message| > k {
      ChunkLengths(message[k..], k);
    }
  }

  lemma PaddedFit(message: seq<Elem>, k: nat)
    requires k > 0
    ensures Fit(PadAll(Chunks(message, k), k), k)
  {
    hide Pad, Chunks;
    var chunks := Chunks(message, k);
    ChunkLengths(message, k);
    forall i | 0 <= i < |chunks|
      ensures |Pad(chunks[i], k)| == k
    {
      PadIs(chunks[i], k);
    }
  }

  function EncodeMessage(coder: RSCoder, message: seq<Elem>): seq<Elem>
    requires coder.Valid() && coder.k > 0
  {
    PaddedFit(message, coder.k);
    EncodeBlocks(coder, PadAll(Chunks(message, coder.k), coder.k))
  }

  function DecodeMessage(coder: RSCoder, received: seq<Elem>): seq<Elem>
    requires coder.Valid()
  {
    DecodeBlocks(coder, Chunks(received, coder.n))
  }

  lemma ShortIsEncoded(coder: RSCoder, block: seq<Elem>)
    requires coder.Valid() && |block| <= coder.k
    ensures Encode(coder, block).Ok?
  {
    hide EncodePoly, Generator;
  }

  // _single_coder
  method SingleCoder(coder: RSCoder, message: seq<Elem>, toEncode: bool) returns (coded: seq<Elem>)
    requires coder.Valid() && (toEncode ==> coder.k > 0)
    ensures coded == if toEncode then EncodeMessage(coder, message) else DecodeMessage(coder, message)
  {
    hide Encode, Decoded, Generator, RStrip, Pad, Chunks;
    var blocks := Chunk(coder, message, toEncode);
    if toEncode {
      PaddedFit(message, coder.k);
    }
    coded := [];
    var b := 0;
    while b < |blocks|
      invariant 0 <= b <= |blocks|
      invariant toEncode ==>
                  && Fit(blocks[b..], coder.k)
                  && coded + EncodeBlocks(coder, blocks[b..]) == EncodeMessage(coder, message)
      invariant !toEncode ==> coded + DecodeBlocks(coder, blocks[b..]) == DecodeMessage(coder, message)
    {
      var block := blocks[b];
      assert blocks[b..][1..] == blocks[b + 1..];
      var codedBlock;
      if toEncode {
        ShortIsEncoded(coder, block);
        codedBlock := Encode(coder, block).value;
      } else {
        var decoded := Decode(coder, block, false);
        codedBlock := RStrip(decoded);
      }
      coded := coded + codedBlock;
      b := b + 1;
    }
  }

  // ----- padding and stripping

  lemma {:induction false} LStripPadded(c: seq<Elem>, p: nat)
    ensures LStrip(c + Paddings(p)) == LStrip(c) + Paddings(p)
  {
    if |c| == 0 {
      assert c + Paddings(p) == Paddings(p);
      assert PADDING != NUL;
    } else if c[0] == NUL {
      assert (c + Paddings(p))[1..] == c[1..] + Paddings(p);
      LStripPadded(c[1..], p);
    }
  }

  lemma {:induction false} RStripPadded(c: seq<Elem>, p: nat)
    ensures RStrip(c + Paddings(p)) == RStrip(c)
  {
    if p == 0 {
      assert c + Paddings(0) == c;
    } else {
      assert (c + Paddings(p))[..|c| + p - 1] == c + Paddings(p - 1);
      RStripPadded(c, p - 1);
    }
  }

  lemma {:induction false} RStripIdentity(c: seq<Elem>)
    ensures |RStrip(c)| <= |c|
    ensures RStrip(c) == c <==> c == [] || c[|c| - 1] != PADDING
  {
    if |c| > 0 && c[|c| - 1] == PADDING {
      RStripIdentity(c[..|c| - 1]);
    }
  }

  // What encoding and decoding one block leaves of it
  function Survivor(chunk: seq<Elem>): seq<Elem> {
    RStrip(LStrip(chunk))
  }

  lemma SurvivorOfPadded(chunk: seq<Elem>, k: nat)
    requires 0 < |chunk| <= k
    ensures RStrip(LStrip(Pad(chunk, k))) == Survivor(chunk)
  {
    hide LStrip, RStrip, Pad, Paddings;
    PadIs(chunk, k);
    LStripPadded(chunk, k - |chunk|);
    RStripPadded(LStrip(chunk), k - |chunk|);
  }

  // A block survives unless it starts with NUL or ends with the padding character.
  ghost predicate Sound(chunk: seq<Elem>) {
    |chunk| > 0 && chunk[0] != NUL && chunk[|chunk| - 1] != PADDING
  }

  lemma SurvivorIdentity(chunk: seq<Elem>)
    requires |chunk| > 0
    ensures |Survivor(chunk)| <= |chunk|
    ensures Survivor(chunk) == chunk <==> Sound(chunk)
  {
    LStripIdentity(chunk);
    RStripIdentity(LStrip(chunk));
    hide LStrip, RStrip;
    if Survivor(chunk) == chunk {
      assert |LStrip(chunk)| == |chunk|;
      LStripLength(chunk);
    }
  }

  lemma {:induction false} LStripLength(c: seq<Elem>)
    requires |LStrip(c)| == |c|
    ensures LStrip(c) == c
  {
    if |c| > 0 && c[0] == F.ZERO {
      LStripIdentity(c[1..]);
    }
  }

  // ----- the round trip

  // Two strings of codewords of length n that differ in at most t bytes per codeword
  ghost predicate Close(received: seq<Elem>, code: seq<Elem>, n: nat, t: nat)
    requires n > 0
    decreases |code|
  {
    |received| == |code|
    && if |code| < n then received == code
       else Distance(received[..n], code[..n]) <= t && Close(received[n..], code[n..], n, t)
  }

  // What survives of a message, block by block
  function Survivors(message: seq<Elem>, k: nat): seq<Elem>
    requires k > 0
  {
    if |message| == 0 then []
    else if |message| <= k then Survivor(message)
    else Survivor(message[..k]) + Survivors(message[k..], k)
  }

  lemma ChunksUnfold(message: seq<Elem>, size: nat, first: seq<Elem>, rest: seq<Elem>)
    requires size > 0 && message == first + rest && |first| > 0
    requires |first| == size || (|first| < size && rest == [])
    ensures Chunks(message, size) == [first] + Chunks(rest, size)
  {
    if |message| > size {
      assert message[..size] == first && message[size..] == rest;
    } else {
      assert message == first && rest == [];
    }
  }

  lemma EncodeUnfold(coder: RSCoder, first: seq<Elem>, rest: seq<Elem>)
    requires coder.Valid() && 0 < |first| <= coder.k && (|first| == coder.k || rest == [])
    ensures var block := Pad(first, coder.k);
            && |block| == coder.k && Encode(coder, block).Ok? && |Encode(coder, block).value| == coder.n
            && EncodeMessage(coder, first + rest) == Encode(coder, block).value + EncodeMessage(coder, rest)
  {
    hide Encode, Generator, Pad, Chunks;
    var k := coder.k;
    PadIs(first, k);
    PaddedFit(first + rest, k);
    PaddedFit(rest, k);
    var q := EncodeShape(coder, Pad(first, k));
    ChunksUnfold(first + rest, k, first, rest);
    var blocks := PadAll(Chunks(first + rest, k), k);
    assert blocks[0] == Pad(first, k);
    assert blocks[1..] == PadAll(Chunks(rest, k), k);
  }

  lemma DecodeUnfold(coder: RSCoder, first: seq<Elem>, rest: seq<Elem>)
    requires coder.Valid() && |first| == coder.n
    ensures DecodeMessage(coder, first + rest) == RStrip(Decoded(coder, first, false)) + DecodeMessage(coder, rest)
  {
    hide Decoded, RStrip, Generator, Chunks;
    ChunksUnfold(first + rest, coder.n, first, rest);
    var blocks := Chunks(first + rest, coder.n);
    assert blocks[1..] == Chunks(rest, coder.n);
  }

  // One block of the round trip
  lemma BlockSurvives(coder: RSCoder, chunk: seq<Elem>, received: seq<Elem>)
    requires coder.Valid() && 0 < |chunk| <= coder.k && |received| == coder.n
    requires |Pad(chunk, coder.k)| == coder.k && Encode(coder, Pad(chunk, coder.k)).Ok?
    requires |Encode(coder, Pad(chunk, coder.k)).value| == coder.n
    requires Distance(received, Encode(coder, Pad(chunk, coder.k)).value) <= (coder.n - coder.k) / 2
    ensures RStrip(Decoded(coder, received, false)) == Survivor(chunk)
  {
    hide Encode, Decoded, Generator, Distance, LStrip, RStrip, Pad, Survivor;
    DecodeCorrectsErrors(coder, Pad(chunk, coder.k), received, false);
    SurvivorOfPadded(chunk, coder.k);
  }

  // With few errors in each codeword, decoding gives what survives of each block.
  lemma {:induction false} DecodeGivesSurvivors(coder: RSCoder, message: seq<Elem>, received: seq<Elem>)
    requires coder.Valid() && coder.k > 0
    requires Close(received, EncodeMessage(coder, message), coder.n, (coder.n - coder.k) / 2)
    ensures DecodeMessage(coder, received) == Survivors(message, coder.k)
    decreases |message|
  {
    hide Encode, Decoded, Generator, Distance, RStrip, Survivor, Pad, EncodeMessage, DecodeMessage;
    var n, k := coder.n, coder.k;
    if |message| == 0 {
      NoBlocks(coder);
      assert message == [] && received == [];
    } else {
      var size := if |message| <= k then |message| else k;
      var first, rest := message[..size], message[size..];
      assert message == first + rest;
      EncodeUnfold(coder, first, rest);
      var code := EncodeMessage(coder, message);
      var c := Encode(coder, Pad(first, k)).value;
      assert code[..n] == c && code[n..] == EncodeMessage(coder, rest);
      DecodeGivesSurvivors(coder, rest, received[n..]);
      assert received == received[..n] + received[n..];
      DecodeUnfold(coder, received[..n], received[n..]);
      BlockSurvives(coder, first, received[..n]);
      if |message| <= k {
        assert first == message && rest == [];
        assert Survivors(rest, k) == [];
      }
    }
  }

  lemma NoBlocks(coder: RSCoder)
    requires coder.Valid()
    ensures coder.k > 0 ==> EncodeMessage(coder, []) == []
    ensures DecodeMessage(coder, []) == []
  {}

  ghost predicate AllSound(message: seq<Elem>, k: nat)
    requires k > 0
  {
    if |message| == 0 then true
    else if |message| <= k then Sound(message)
    else Sound(message[..k]) && AllSound(message[k..], k)
  }

  lemma {:induction false} SurvivorsIdentity(message: seq<Elem>, k: nat)
    requires k > 0
    ensures |Survivors(message, k)| <= |message|
    ensures Survivors(message, k) == message <==> AllSound(message, k)
  {
    hide Survivor, Sound;
    if |message| == 0 {
    } else if |message| <= k {
      SurvivorIdentity(message);
    } else {
      var first, rest := message[..k], message[k..];
      SurvivorIdentity(first);
      SurvivorsIdentity(rest, k);
      var s, t := Survivor(first), Survivors(rest, k);
      assert message == first + rest;
      if s + t == message {
        assert |s| == k;
        assert s == (s + t)[..k] && t == (s + t)[k..];
      }
    }
  }

  // With at most (n - k) / 2 byte errors in every codeword, decode undoes encode exactly for the
  // messages none of whose blocks starts with NUL or ends with '}'.
  lemma {:induction false} RoundTrip(coder: RSCoder, message: seq<Elem>, received: seq<Elem>)
    requires coder.Valid() && coder.k > 0
    requires Close(received, EncodeMessage(coder, message), coder.n, (coder.n - coder.k) / 2)
    ensures DecodeMessage(coder, received) == message <==> AllSound(message, coder.k)
  {
    hide EncodeMessage, DecodeMessage, Generator, Close, Survivors, AllSound;
    DecodeGivesSurvivors(coder, message, received);
    SurvivorsIdentity(message, coder.k);
  }

  lemma {:induction false} PlainIsSound(message: seq<Elem>, k: nat)
    requires k > 0 && NUL !in message && PADDING !in message
    ensures AllSound(message, k)
  {
    if |message| > k {
      PlainIsSound(message[k..], k);
    }
  }

  // In particular for every message that contains neither character.
  lemma {:induction false} PlainRoundTrip(coder: RSCoder, message: seq<Elem>, received: seq<Elem>)
    requires coder.Valid() && coder.k > 0
    requires NUL !in message && PADDING !in message
    requires Close(received, EncodeMessage(coder, message), coder.n, (coder.n - coder.k) / 2)
    ensures DecodeMessage(coder, received) == message
  {
    hide EncodeMessage, DecodeMessage, Generator, Close, AllSound;
    PlainIsSound(message, coder.k);
    RoundTrip(coder, message, received);
  }

  // k bytes of a message, or as many as there are and '}', which is 125, in place of the others
  function BytesAt(message: seq<Elem>, k: nat, from: nat): (block: seq<Elem>)
    requires from < |message|
    ensures |block| == k
  {
    if from + k <= |message| then message[from..from + k]
    else message[from..] + seq(k - (|message| - from), _ => F.Elem(125))
  }

  // The encoded message is its codewords one behind the other, each for the next k bytes.
  lemma {:induction false} EncodedBlock(coder: RSCoder, message: seq<Elem>, i: nat, at: nat, from: nat)
    requires coder.Valid() && coder.k > 0 && at == coder.n * i && from == coder.k * i < |message|
    ensures at + coder.n <= |EncodeMessage(coder, message)|
    ensures Encode(coder, BytesAt(message, coder.k, from)) == Ok(EncodeMessage(coder, message)[at..at + coder.n])
    decreases i
  {
    hide *;
    var first, rest := FirstBlock(coder, message);
    var head := Encode(coder, BytesAt(message, coder.k, 0)).value;
    if i == 0 {
      NoneBefore(coder.n, coder.k);
      assert (head + EncodeMessage(coder, rest))[0..coder.n] == head;
    } else {
      NextBlock(coder.n, i);
      NextBlock(coder.k, i);
      NotNegative(coder.n, coder.k, i - 1);
      BytesShift(message, coder.k, from);
      EncodedBlock(coder, rest, i - 1, at - coder.n, from - coder.k);
      Behind(head, EncodeMessage(coder, rest), at - coder.n, coder.n);
    }
  }

  lemma FirstBlock(coder: RSCoder, message: seq<Elem>) returns (first: seq<Elem>, rest: seq<Elem>)
    requires coder.Valid() && coder.k > 0 && |message| > 0
    ensures rest == (if coder.k <= |message| then message[coder.k..] else [])
    ensures Encode(coder, BytesAt(message, coder.k, 0)).Ok?
    ensures |Encode(coder, BytesAt(message, coder.k, 0)).value| == coder.n
    ensures EncodeMessage(coder, message)
            == Encode(coder, BytesAt(message, coder.k, 0)).value + EncodeMessage(coder, rest)
  {
    hide Encode, EncodeMessage, Generator, Pad;
    var k := coder.k;
    first := if k <= |message| then message[..k] else message;
    rest := if k <= |message| then message[k..] else [];
    assert message == first + rest;
    PadIs(first, k);
    EncodeUnfold(coder, first, rest);
    assert Pad(first, k) == BytesAt(message, k, 0);
  }

  lemma NoneBefore(n: nat, k: nat)
    ensures n * 0 == 0 && k * 0 == 0
  {}

  lemma NotNegative(n: nat, k: nat, i: nat)
    ensures n * i >= 0 && k * i >= 0
  {}

  lemma BytesShift(message: seq<Elem>, k: nat, from: nat)
    requires k <= from < |message|
    ensures BytesAt(message[k..], k, from - k) == BytesAt(message, k, from)
  {}

  lemma Behind(head: seq<Elem>, tail: seq<Elem>, at: nat, n: nat)
    requires |head| == n && at + n <= |tail|
    ensures (head + tail)[at + n..at + n + n] == tail[at..at + n]
  {}

  lemma NextBlock(n: nat, i: nat)
    requires i > 0
    ensures n * i == n * (i - 1) + n
  {}

  // Not for a padding character or a NUL alone: decoding gives nothing, although nothing was damaged.
  lemma {:induction false} EdgeIsLost(coder: RSCoder)
    requires coder.Valid() && coder.k > 0
    ensures DecodeMessage(coder, EncodeMessage(coder, [F.Elem(125)])) == []
    ensures DecodeMessage(coder, EncodeMessage(coder, [F.Elem(0)])) == []
  {
    hide EncodeMessage, DecodeMessage, Generator, Close;
    var t := (coder.n - coder.k) / 2;
    CloseToItself(EncodeMessage(coder, [PADDING]), coder.n, t);
    CloseToItself(EncodeMessage(coder, [NUL]), coder.n, t);
    DecodeGivesSurvivors(coder, [PADDING], EncodeMessage(coder, [PADDING]));
    DecodeGivesSurvivors(coder, [NUL], EncodeMessage(coder, [NUL]));
    EdgeSurvivors(coder.k);
  }

  lemma EdgeSurvivors(k: nat)
    requires k > 0
    ensures Survivors([PADDING], k) == Survivors([NUL], k) == []
  {
    assert RStrip([PADDING]) == RStrip([PADDING][..0]) == [];
    assert LStrip([NUL]) == LStrip([NUL][1..]) == [];
    LStripIdentity([PADDING]);
  }

  lemma {:induction false} CloseToItself(code: seq<Elem>, n: nat, t: nat)
    requires n > 0
    ensures Close(code, code, n, t)
    decreases |code|
  {
    if |code| >= n {
      DistanceZero(code[..n], code[..n]);
      CloseToItself(code[n..], n, t);
    }
  }
}
