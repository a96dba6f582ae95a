/**
 What decoding an image of the site's bacchant encoder gives, for given random levels. They start in the
 wrong column when the text is all beside the header, and then fall on squares of header and text.
 */
module SiteFilling {
  import opened Base64Symbols
  import opened Bacchant
  import opened BacchantImage
  import opened BacchantBlocks
  import opened BacchantWriter
  import opened SiteBlocks
  import G = Grid

  // The number of the block of symbol i of the header
  function HeaderBlock(width: nat, i: nat): nat {
    i / 4 * (width / 2) + i % 4
  }

  // The random symbols that fall on squares of the header are the header's.
  ghost predicate HeaderAgrees(width: nat, fill: nat -> nat, first: nat) {
    forall i | 0 <= i < 16 && HeaderBlock(width, i) > first :: fill(HeaderBlock(width, i)) == SymbolOf(NAME, i)
  }

  // Those that fall on squares of the text are the text's.
  ghost predicate TextAgrees(width: nat, text: string, fill: nat -> nat, first: nat)
    requires width >= HEADER_SIZE
  {
    forall i | 0 <= i < 2 * |text| && SlotNumber(width, i) > first ::
      fill(SlotNumber(width, i)) == SymbolOf(text, i)
  }

  lemma TextNotEmpty(payload: string)
    ensures |FullText(payload)| >= 8
  {
    hide LengthField;
    LengthFieldParses(|payload|, 8);
  }

  // ----- the squares of a drawn image

  // The symbol that a square of the header shows
  function HeaderShown(width: nat, fill: nat -> nat, first: nat, i: nat): (symbol: nat)
    requires i < 16 && forall q :: fill(q) < 8
    ensures symbol < 8
  {
    if HeaderBlock(width, i) > first then fill(HeaderBlock(width, i)) else SymbolOf(NAME, i)
  }

  // The symbol that a square of the text shows
  function TextShown(width: nat, text: string, fill: nat -> nat, first: nat, i: nat): (symbol: nat)
    requires width >= HEADER_SIZE && i < 2 * |text| && forall q :: fill(q) < 8
    ensures symbol < 8
  {
    if SlotNumber(width, i) > first then fill(SlotNumber(width, i)) else SymbolOf(text, i)
  }

  lemma HeaderSquare(
    written: seq<Byte>, image: seq<Byte>, width: nat, height: nat, text: string, fill: nat -> nat, i: nat)
    requires HasRoom(width, height, |text|) && |text| > 0 && (forall q :: fill(q) < 8) && i < 16
    requires IsDrawn(written, image, width, height, text, fill)
    ensures var symbol := HeaderShown(width, fill, FirstFilled(width, |text|), i);
            BlockIs(image, width, i % 4 * BLOCK_SIZE, i / 4 * BLOCK_SIZE, Level(symbol))
  {
    hide SymbolOf, Level, Slot, SlotNumber, BlockIs, FirstFilled, HasRoom;
    RoomSize(width, height, |text|);
    HeaderNumber(width, i);
    G.RowMonotonic(4, height / 2, width / 2);
    var q := HeaderBlock(width, i);
    assert HeaderBlockIs(written, width, i);
    if q <= FirstFilled(width, |text|) {
      assert BlockAt(written, width, q, Level(SymbolOf(NAME, i)));
    }
    assert BlockAt(image, width, q, Level(HeaderShown(width, fill, FirstFilled(width, |text|), i)));
  }

  lemma TextSquare(
    written: seq<Byte>, image: seq<Byte>, width: nat, height: nat, text: string, fill: nat -> nat, i: nat)
    requires HasRoom(width, height, |text|) && |text| > 0 && (forall q :: fill(q) < 8) && i < 2 * |text|
    requires IsDrawn(written, image, width, height, text, fill)
    ensures var symbol := TextShown(width, text, fill, FirstFilled(width, |text|), i);
            BlockIs(image, width, Slot(width, i).x, Slot(width, i).y, Level(symbol))
  {
    hide SymbolOf, Level, Slot, SlotNumber, BlockIs, FirstFilled, HasRoom;
    RoomSize(width, height, |text|);
    SlotNumberIs(width, i);
    SlotNumberInside(width, height, |text|, i);
    var q := SlotNumber(width, i);
    assert TextBlockIs(written, width, text, i);
    if q <= FirstFilled(width, |text|) {
      assert BlockAt(written, width, q, Level(SymbolOf(text, i)));
    }
    assert BlockAt(image, width, q, Level(TextShown(width, text, fill, FirstFilled(width, |text|), i)));
  }

  lemma SquareReads(image: seq<Byte>, width: nat, x: nat, y: nat, symbol: nat)
    requires symbol < 8 && BlockIs(image, width, x, y, Level(symbol))
    ensures Near(Total(image, width, x, y), symbol) && Bin(image, width, x, y) == symbol
  {
    hide BlockIs, Level, Total, Near, BinOf;
    BlockIsNear(image, width, x, y, symbol);
    NearIsRead(Total(image, width, x, y), symbol);
  }

  // ----- reading them

  // A character tells the two symbols it is made of.
  lemma CharTells(b0: nat, b1: nat, ch: char)
    requires b0 <= 7 && b1 <= 7 && CharOf(b0 * 8 + b1) == ch
    ensures IsBase64(ch) && SymbolIndex(ch) / 8 == b0 && SymbolIndex(ch) % 8 == b1
  {
    hide CharOf, IndexOf;
    IndexOfChar(b0 * 8 + b1);
  }

  lemma AgreeingHeaderReads(
    written: seq<Byte>, image: seq<Byte>, width: nat, height: nat, text: string, fill: nat -> nat)
    requires HasRoom(width, height, |text|) && |text| > 0 && forall q :: fill(q) < 8
    requires IsDrawn(written, image, width, height, text, fill)
    requires HeaderAgrees(width, fill, FirstFilled(width, |text|))
    ensures HeaderNear(image, width)
  {
    hide HasRoom, IsDrawn, FirstFilled, BlockIs, Level, SymbolOf, Near, Total, HeaderBlock;
    RoomSize(width, height, |text|);
    forall i | 0 <= i < 16
      ensures HeaderNearAt(image, width, i)
    {
      HeaderSquare(written, image, width, height, text, fill, i);
      SquareReads(image, width, i % 4 * BLOCK_SIZE, i / 4 * BLOCK_SIZE, SymbolOf(NAME, i));
    }
  }

  lemma AgreeingTextReads(
    written: seq<Byte>, image: seq<Byte>, width: nat, height: nat, text: string, fill: nat -> nat)
    requires HasRoom(width, height, |text|) && |text| > 0 && forall q :: fill(q) < 8
    requires IsDrawn(written, image, width, height, text, fill)
    requires TextAgrees(width, text, fill, FirstFilled(width, |text|))
    ensures TextNear(image, width, text)
  {
    hide HasRoom, IsDrawn, FirstFilled, BlockIs, Level, SymbolOf, Near, Total, Slot, SlotNumber;
    RoomSize(width, height, |text|);
    forall i | 0 <= i < 2 * |text|
      ensures TextNearAt(image, width, text, i)
    {
      TextSquare(written, image, width, height, text, fill, i);
      SquareReads(image, width, Slot(width, i).x, Slot(width, i).y, SymbolOf(text, i));
    }
  }

  lemma HeaderChar(image: seq<Byte>, width: nat, k: nat, x: nat, y: nat, ch: char)
    requires k < 8 && x == k % 2 * 4 && y == k / 2 * 2 && ch == NAME[k]
    requires Header(image, width) == NAME
    ensures CharAt(image, width, x, y) == ch
  {
    hide CharAt;
    assert ch == Header(image, width)[k];
  }

  // A header that is read as the name has only squares that agree with it.
  lemma ReadHeaderAgrees(
    written: seq<Byte>, image: seq<Byte>, width: nat, height: nat, text: string, fill: nat -> nat)
    requires HasRoom(width, height, |text|) && |text| > 0 && forall q :: fill(q) < 8
    requires IsDrawn(written, image, width, height, text, fill) && Header(image, width) == NAME
    ensures HeaderAgrees(width, fill, FirstFilled(width, |text|))
  {
    hide HasRoom, IsDrawn, FirstFilled, BlockIs, Level, SymbolIndex, Near, Bin, Header, HeaderBlock, CharOf, IsBase64;
    RoomSize(width, height, |text|);
    forall i | 0 <= i < 16 && HeaderBlock(width, i) > FirstFilled(width, |text|)
      ensures fill(HeaderBlock(width, i)) == SymbolOf(NAME, i)
    {
      HeaderSquare(written, image, width, height, text, fill, i);
      SquareReads(image, width, i % 4 * BLOCK_SIZE, i / 4 * BLOCK_SIZE, fill(HeaderBlock(width, i)));
      var k := i / 2;
      HeaderPlaces(k);
      HeaderChar(image, width, k, k % 2 * 4, k / 2 * 2, NAME[k]);
      CharTells(Bin(image, width, k % 2 * 4, k / 2 * 2), Bin(image, width, k % 2 * 4 + 2, k / 2 * 2), NAME[k]);
      assert i == 2 * k || i == 2 * k + 1;
    }
  }

  // A cell that shows the character of the text has two squares that agree with it.
  lemma ReadCharAgrees(
    written: seq<Byte>, image: seq<Byte>, n: nat, height: nat, text: string, fill: nat -> nat, c: nat)
    requires n >= 2 && HasRoom(4 * n, height, |text|) && (forall q :: fill(q) < 8) && c < |text|
    requires IsDrawn(written, image, 4 * n, height, text, fill) && ShowsAt(image, n, c, text[c])
    ensures var first := FirstFilled(4 * n, |text|);
            && IsBase64(text[c])
            && TextShown(4 * n, text, fill, first, 2 * c) == SymbolOf(text, 2 * c)
            && TextShown(4 * n, text, fill, first, 2 * c + 1) == SymbolOf(text, 2 * c + 1)
  {
    hide HasRoom, IsDrawn, FirstFilled, BlockIs, Level, Near, Bin, TextShown, SymbolIndex, CharOf, IsBase64, Slot;
    hide G.CellOf;
    var first := FirstFilled(4 * n, |text|);
    SlotsOfCell(n, c);
    TextSquare(written, image, 4 * n, height, text, fill, 2 * c);
    TextSquare(written, image, 4 * n, height, text, fill, 2 * c + 1);
    var b0 := TextShown(4 * n, text, fill, first, 2 * c);
    var b1 := TextShown(4 * n, text, fill, first, 2 * c + 1);
    SquareReads(image, 4 * n, Slot(4 * n, 2 * c).x, Slot(4 * n, 2 * c).y, b0);
    SquareReads(image, 4 * n, Slot(4 * n, 2 * c + 1).x, Slot(4 * n, 2 * c + 1).y, b1);
    CharTells(b0, b1, text[c]);
  }

  // ----- the length

  // The random levels leave the cells of the length alone, unless the payload has but one character or none.
  lemma LengthKept(n: nat, length: nat, i: nat)
    requires n >= 3 && length >= 10 && i < 2 * LengthCells(n)
    ensures SlotNumber(4 * n, i) <= FirstFilled(4 * n, length)
  {
    var b, w, j := 2 * n - 4, 2 * n, 2 * length - 1;
    G.DivModIdentity(i, b);
    G.DivModUnique(i, b, 0, i);
    if j < b * 4 {
      G.DivModIdentity(j, b);
      if j < b {
        G.DivModUnique(j, b, 0, j);
      } else {
        G.RowAbove(j, b, 1);
        G.RowMonotonic(1, j / b, w);
      }
    } else {
      G.DivModIdentity(j + 16, w);
    }
  }

  // They fall on the last row of the header's squares when the payload has one character.
  lemma HeaderHit(n: nat, length: nat)
    requires n >= 2 && length == 9 && !ReachesBelow(4 * n, length)
    ensures FirstFilled(4 * n, length) < 3 * (2 * n) == HeaderBlock(4 * n, 12)
  {
    var b, w := 2 * n - 4, 2 * n;
    G.DivModIdentity(17, b);
    G.RowBelow(17, b, 3);
    G.RowMonotonic(17 / b, 2, w);
  }

  lemma ShownLength(
    written: seq<Byte>, image: seq<Byte>, n: nat, height: nat, payload: string, fill: nat -> nat)
    requires n >= 3 && |payload| >= 2 && HasRoom(4 * n, height, |FullText(payload)|) && forall q :: fill(q) < 8
    requires |FullText(payload)| > 0 && IsDrawn(written, image, 4 * n, height, FullText(payload), fill)
    ensures |LengthField(|payload|)| >= 8
    ensures ShownText(image, n, LengthCells(n)) == LengthField(|payload|)[..LengthCells(n)]
  {
    hide HasRoom, IsDrawn, FirstFilled, BlockIs, Level, Near, Total, LengthField, Cleaned, SlotNumber, Slot, CharAt;
    hide G.CellOf;
    hide FullText, SymbolOf, LengthCells;
    var text, h := FullText(payload), LengthCells(n);
    CleanedFullText(payload);
    TextLength(payload);
    FewLengthCells(n);
    forall c | 0 <= c < h
      ensures ShownText(image, n, h)[c] == LengthField(|payload|)[c]
    {
      LengthKept(n, |text|, 2 * c);
      LengthKept(n, |text|, 2 * c + 1);
      TextSquare(written, image, 4 * n, height, text, fill, 2 * c);
      TextSquare(written, image, 4 * n, height, text, fill, 2 * c + 1);
      SquareReads(image, 4 * n, Slot(4 * n, 2 * c).x, Slot(4 * n, 2 * c).y, SymbolOf(text, 2 * c));
      SquareReads(image, 4 * n, Slot(4 * n, 2 * c + 1).x, Slot(4 * n, 2 * c + 1).y, SymbolOf(text, 2 * c + 1));
      CellReadsAt(image, n, text, c);
    }
  }

  lemma FewLengthCells(n: nat)
    requires n >= 3
    ensures 1 <= LengthCells(n) <= 8 && (LengthCells(n) == 8 <==> n >= 10)
  {}

  lemma TextLength(payload: string)
    ensures |FullText(payload)| >= 8 + |payload| && (|payload| < 100000000 ==> |FullText(payload)| == 8 + |payload|)
  {
    hide LengthField;
    LengthFieldParses(|payload|, 8);
  }

  // ----- what is read

  // With two characters or more, the whole text must be shown.
  lemma ReadTextAgrees(
    written: seq<Byte>, image: seq<Byte>, n: nat, rows: nat, payload: string, fill: nat -> nat)
    requires n >= 3 && HasRoom(4 * n, 2 * rows, |FullText(payload)|) && |payload| != 1 && forall q :: fill(q) < 8
    requires |FullText(payload)| > 0 && IsDrawn(written, image, 4 * n, 2 * rows, FullText(payload), fill)
    requires PayloadShown(image, n, rows, payload)
    ensures ComesBack(n, payload)
    ensures TextAgrees(4 * n, FullText(payload), fill, FirstFilled(4 * n, |FullText(payload)|))
  {
    hide HasRoom, IsDrawn, FirstFilled, LengthField, ParseLength, SlotNumber, SymbolOf, ShownText, LengthCells;
    hide FullText;
    ShownLength(written, image, n, 2 * rows, payload, fill);
    FewLengthCells(n);
    LengthFieldParses(|payload|, LengthCells(n));
    assert n >= 10 && |payload| < 100000000;
    PayloadAgrees(written, image, n, rows, payload, fill);
  }

  lemma PayloadAgrees(
    written: seq<Byte>, image: seq<Byte>, n: nat, rows: nat, payload: string, fill: nat -> nat)
    requires n >= 10 && HasRoom(4 * n, 2 * rows, |FullText(payload)|) && forall q :: fill(q) < 8
    requires 2 <= |payload| < 100000000
    requires |FullText(payload)| > 0 && IsDrawn(written, image, 4 * n, 2 * rows, FullText(payload), fill)
    requires payload == ShownText(image, n, 8 + |payload|)[8..]
    ensures AllBase64(payload)
    ensures TextAgrees(4 * n, FullText(payload), fill, FirstFilled(4 * n, |FullText(payload)|))
  {
    hide HasRoom, IsDrawn, FirstFilled, LengthField, SlotNumber, SymbolOf, CharAt, G.CellOf, TextShown, IsBase64;
    var text := FullText(payload);
    TextLength(payload);
    LengthFieldParses(|payload|, 8);
    forall c | 8 <= c < |text|
      ensures IsBase64(text[c])
      ensures TextShown(4 * n, text, fill, FirstFilled(4 * n, |text|), 2 * c) == SymbolOf(text, 2 * c)
      ensures TextShown(4 * n, text, fill, FirstFilled(4 * n, |text|), 2 * c + 1) == SymbolOf(text, 2 * c + 1)
    {
      assert text[c] == payload[c - 8] == ShownText(image, n, 8 + |payload|)[c];
      ReadCharAgrees(written, image, n, 2 * rows, text, fill, c);
    }
    forall k | 0 <= k < |payload|
      ensures IsBase64(payload[k])
    {
      assert payload[k] == text[8 + k];
    }
    forall i | 0 <= i < 2 * |text| && SlotNumber(4 * n, i) > FirstFilled(4 * n, |text|)
      ensures fill(SlotNumber(4 * n, i)) == SymbolOf(text, i)
    {
      if i < 16 {
        LengthKept(n, |text|, i);
      } else {
        SquareAgrees(n, text, fill, FirstFilled(4 * n, |text|), i);
      }
    }
  }

  lemma SquareAgrees(n: nat, text: string, fill: nat -> nat, first: nat, i: nat)
    requires n >= 2 && i < 2 * |text| && (forall q :: fill(q) < 8) && SlotNumber(4 * n, i) > first
    requires var c := i / 2;
             && TextShown(4 * n, text, fill, first, 2 * c) == SymbolOf(text, 2 * c)
             && TextShown(4 * n, text, fill, first, 2 * c + 1) == SymbolOf(text, 2 * c + 1)
    ensures fill(SlotNumber(4 * n, i)) == SymbolOf(text, i)
  {
    hide SlotNumber, SymbolOf;
    assert i == 2 * (i / 2) || i == 2 * (i / 2) + 1;
  }

  // When the text reaches below the header, the random levels are all behind it.
  lemma NothingHit(width: nat, height: nat, text: string, fill: nat -> nat)
    requires HasRoom(width, height, |text|) && |text| > 0 && ReachesBelow(width, |text|)
    ensures HeaderAgrees(width, fill, FirstFilled(width, |text|))
    ensures TextAgrees(width, text, fill, FirstFilled(width, |text|))
  {
    hide SymbolOf, SlotNumber, LastRow, LastColumn;
    LastBlock(width, height, |text|);
    forall i | 0 <= i < 16
      ensures HeaderBlock(width, i) <= FirstFilled(width, |text|)
    {
      HeaderNumber(width, i);
    }
    forall i | 0 <= i < 2 * |text|
      ensures SlotNumber(width, i) <= FirstFilled(width, |text|)
    {
      SlotNumberBound(width, 2 * |text| - 1, i);
    }
  }

  // When it does not, the last square of the text is hit.
  lemma LastSquareHit(width: nat, height: nat, length: nat)
    requires HasRoom(width, height, length) && length > 0 && !ReachesBelow(width, length)
    ensures SlotNumber(width, 2 * length - 1) == FirstFilled(width, length) + 4
  {
    hide LastRow, LastColumn, SlotNumber;
    LastBlock(width, height, length);
    SlotNumberAbove(width, length);
  }

  lemma LastSquareFilled(
    written: seq<Byte>, image: seq<Byte>, width: nat, height: nat, text: string, fill: nat -> nat)
    requires HasRoom(width, height, |text|) && |text| > 0 && forall q :: fill(q) < 8
    requires IsDrawn(written, image, width, height, text, fill) && !ReachesBelow(width, |text|)
    ensures var q := SlotNumber(width, 2 * |text| - 1);
            BlockAt(image, width, q, Level(fill(q)))
  {
    hide HasRoom, FirstFilled, SlotNumber, BlockAt, ReachesBelow;
    RoomSize(width, height, |text|);
    LastSquareHit(width, height, |text|);
    SlotNumberInside(width, height, |text|, 2 * |text| - 1);
  }

  lemma SlotNumberAbove(width: nat, length: nat)
    requires width >= HEADER_SIZE && length > 0
    ensures SlotNumber(width, 2 * length - 1) >= 4
  {}

  // Decoding a drawn image. Whatever the payload, it is read back only if the random levels spare the header or
  // happen to agree with it, and the payload is shown. With one character, what they do to the length may not
  // matter; otherwise it is read back exactly if they agree with header and text, and the width can give back
  // such payloads.
  lemma {:induction false} FillingDecides(
    written: seq<Byte>, image: seq<Byte>, width: nat, height: nat, payload: string, fill: nat -> nat)
    requires HasRoom(width, height, |FullText(payload)|) && |FullText(payload)| > 0 && forall q :: fill(q) < 8
    requires IsDrawn(written, image, width, height, FullText(payload), fill)
    ensures var first := FirstFilled(width, |FullText(payload)|);
            var back := Decoded(width, height, image) == Outcome(Some(payload), Done);
            && (ReachesBelow(width, |FullText(payload)|) ==>
                  HeaderNear(image, width) && TextNear(image, width, FullText(payload))
                  && (back <==> ComesBack(width / 4, payload)))
            && (width >= 12 ==>
                  (back <==> HeaderAgrees(width, fill, first) && PayloadShown(image, width / 4, height / 2, payload)))
            && (|payload| != 1 ==>
                  (back <==> ComesBack(width / 4, payload) && HeaderAgrees(width, fill, first)
                             && TextAgrees(width, FullText(payload), fill, first)))
  {
    hide HeaderNear, TextNear, IsDrawn, FirstFilled, FullText, Decoded, ComesBack, HeaderAgrees, TextAgrees;
    hide PayloadShown, Header, ReachesBelow;
    var text, n, rows := FullText(payload), width / 4, height / 2;
    var first := FirstFilled(width, |text|);
    if ReachesBelow(width, |text|) {
      NothingHit(width, height, text, fill);
    } else {
      Wide(width, height, payload);
    }
    EvenCells(width, height, |text|);
    if width >= 12 {
      DecodeIff(image, n, rows, payload);
    }
    if HeaderAgrees(width, fill, first) {
      AgreeingHeaderReads(written, image, width, height, text, fill);
      HeaderReads(image, width);
    }
    if HeaderAgrees(width, fill, first) && TextAgrees(width, text, fill, first) {
      AgreeingTextReads(written, image, width, height, text, fill);
      DecodeReturnsPayload(image, n, rows, payload);
    }
    if Decoded(width, height, image) == Outcome(Some(payload), Done) {
      HeaderMustRead(width, height, image, payload);
      ReadHeaderAgrees(written, image, width, height, text, fill);
      if |payload| != 1 && !ReachesBelow(width, |text|) {
        ReadTextAgrees(written, image, n, rows, payload, fill);
      }
    }
  }

  lemma HeaderMustRead(width: nat, height: nat, image: seq<Byte>, payload: string)
    requires Decoded(width, height, image) == Outcome(Some(payload), Done)
    ensures Header(image, width) == NAME
  {
    hide Header, Scan;
  }

  lemma EvenCells(width: nat, height: nat, length: nat)
    requires HasRoom(width, height, length)
    ensures width == 4 * (width / 4) && height == 2 * (height / 2) && width >= 8 && height >= 8
  {}

  lemma Wide(width: nat, height: nat, payload: string)
    requires HasRoom(width, height, |FullText(payload)|) && !ReachesBelow(width, |FullText(payload)|)
    ensures width >= 16 && width == 4 * (width / 4) && height == 2 * (height / 2) && height >= 8
  {
    hide FullText;
    TextNotEmpty(payload);
  }

  function Constant(symbol: nat): nat -> nat {
    q => symbol
  }

  // So no payload survives every filling when the text does not reach below the header: of two that are
  // constant, one at least loses it.
  lemma {:induction false} SomeFillingFails(width: nat, height: nat, payload: string)
    requires HasRoom(width, height, |FullText(payload)|) && !ReachesBelow(width, |FullText(payload)|)
    ensures |FullText(payload)| > 0
    ensures var first := FirstFilled(width, |FullText(payload)|);
            if |payload| == 1 then
              !(HeaderAgrees(width, Constant(0), first) && HeaderAgrees(width, Constant(1), first))
            else
              !(TextAgrees(width, FullText(payload), Constant(0), first)
                && TextAgrees(width, FullText(payload), Constant(1), first))
  {
    hide FullText, FirstFilled, SlotNumber, HeaderBlock, SymbolOf;
    TextNotEmpty(payload);
    var text := FullText(payload);
    var i := 2 * |text| - 1;
    LastSquareHit(width, height, |text|);
    Wide(width, height, payload);
    if |payload| == 1 {
      TextLength(payload);
      HeaderHit(width / 4, |text|);
      assert Constant(0)(HeaderBlock(width, 12)) != Constant(1)(HeaderBlock(width, 12));
    } else {
      assert Constant(0)(SlotNumber(width, i)) != Constant(1)(SlotNumber(width, i));
    }
  }
}
