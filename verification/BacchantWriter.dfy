/**
 The encoder of core-rust/src/bacchant.rs: the exact image it writes, and that its own decoder refuses it.
 */
module BacchantWriter {
  import opened Base64Symbols
  import opened Bacchant
  import opened BacchantImage
  import opened BacchantBlocks
  import G = Grid

  // A gray, opaque image
  function Blank(pixels: nat): seq<Byte> {
    seq(4 * pixels, q => if q % 4 == 3 then 255 else 128)
  }

  method NewImage(width: nat, height: nat) returns (data: array<Byte>)
    ensures fresh(data) && data.Length == 4 * (width * height)
    ensures forall q | 0 <= q < data.Length :: data[q] == if q % 4 == 3 then 255 else 128
  {
    var pixels := width * height;
    data := new Byte[4 * pixels](_ => 128);
    for i := 0 to pixels
      invariant forall q | 0 <= q < data.Length :: data[q] == if q % 4 == 3 && q < 4 * i then 255 else 128
    {
      data[i * 4 + 3] := 255;
    }
  }

  // ----- the header

  // Block number j of row r shows symbol k of the name.
  ghost predicate TitleBlockIs(data: seq<Byte>, width: nat, j: nat, r: nat, k: nat)
    requires k < 16
  {
    BlockIs(data, width, j * BLOCK_SIZE, r * BLOCK_SIZE, Level(SymbolOf(NAME, k)))
  }

  // Block t of those that the header loop paints: four characters to a row, two pixels apart
  function TitleBlock(t: nat): Block
    requires t < 16
  {
    Block(2 * (t / 2 % 4 + t % 2), 2 * (t / 8), SymbolOf(NAME, t))
  }

  function TitleBlocks(m: nat): (blocks: seq<Block>)
    requires m <= 16
    ensures |blocks| == m
  {
    seq(m, t requires 0 <= t < m => TitleBlock(t))
  }

  // The program's header loop. The second symbol of a character survives only at the end of a row; elsewhere
  // the next character is painted over it.
  method WriteHeader(data: array<Byte>, width: nat)
    requires Inside(data.Length, width, 8, 2)
    modifies data
    ensures PaintedBy(old(data[..]), data[..], width, TitleBlocks(16))
    ensures forall q | 0 <= q < data.Length && q / 4 > PixelNumber(width, 9, 3) :: data[q] == old(data[q])
    ensures width >= 10 ==> forall i | 0 <= i < 8 :: TitleBlockIs(data[..], width, i % 4, i / 4, 2 * i)
    ensures width >= 10 ==> TitleBlockIs(data[..], width, 4, 0, 7) && TitleBlockIs(data[..], width, 4, 1, 15)
  {
    hide PixelNumber, SymbolOf, Level, InBlock, BlockIs, PaintedBy, TitleBlocks, TitleBlock, Inside;
    ghost var start := data[..];
    NoTitle(start, width);
    for i := 0 to |NAME|
      invariant PaintedBy(start, data[..], width, TitleBlocks(2 * i))
      invariant forall q | 0 <= q < data.Length && q / 4 > PixelNumber(width, 9, 3) :: data[q] == start[q]
    {
      var x, y := i % 4 * BLOCK_SIZE, i / 4 * BLOCK_SIZE;
      HeaderBlockInside(data.Length, width, x, y);
      HeaderBlockInside(data.Length, width, x + BLOCK_SIZE, y);
      HeaderBlockLow(width, x, y);
      HeaderBlockLow(width, x + BLOCK_SIZE, y);
      ghost var before := data[..];
      SetBlock(data, width, x, y, SymbolOf(NAME, 2 * i));
      ghost var between := data[..];
      SetBlock(data, width, x + BLOCK_SIZE, y, SymbolOf(NAME, 2 * i + 1));
      TitlePair(i);
      TitleMore(start, before, between, width, 2 * i);
      TitleMore(start, between, data[..], width, 2 * i + 1);
    }
    assert TitleBlocks(16) + [] == TitleBlocks(16);
    if width >= 10 {
      TitleSquares(start, data[..], width, []);
    }
  }

  // The two blocks of character i
  lemma TitlePair(i: nat)
    requires i < 8
    ensures TitleBlock(2 * i) == Block(i % 4 * 2, i / 4 * 2, SymbolOf(NAME, 2 * i))
    ensures TitleBlock(2 * i + 1) == Block(i % 4 * 2 + 2, i / 4 * 2, SymbolOf(NAME, 2 * i + 1))
  {
    hide SymbolOf;
  }

  lemma NoTitle(start: seq<Byte>, width: nat)
    ensures PaintedBy(start, start, width, TitleBlocks(0))
  {
    PaintedNothing(start, width);
    assert TitleBlocks(0) == [];
  }

  lemma HeaderBlockInside(length: nat, width: nat, x: nat, y: nat)
    requires Inside(length, width, 8, 2) && x <= 8 && y <= 2
    ensures Inside(length, width, x, y)
  {
    hide PixelNumber;
    PixelMonotonic(width, x + 1, y + 1, 9, 3);
  }

  lemma TitleMore(start: seq<Byte>, before: seq<Byte>, after: seq<Byte>, width: nat, t: nat)
    requires t < 16 && |before| == |after| && PaintedBy(start, before, width, TitleBlocks(t))
    requires var b := TitleBlock(t);
             && Inside(|after|, width, b.x, b.y)
             && forall q | 0 <= q < |after| ::
                  after[q] == if q % 4 != 3 && InBlock(width, b.x, b.y, q / 4) then Level(b.symbol) else before[q]
    ensures PaintedBy(start, after, width, TitleBlocks(t + 1))
  {
    hide PixelNumber, SymbolOf, Level, InBlock, PaintedBy, Inside;
    PaintedMore(start, before, after, width, TitleBlocks(t), TitleBlock(t));
    assert TitleBlocks(t + 1) == TitleBlocks(t) + [TitleBlock(t)];
  }

  // The blocks of the header that no later one covers: the first of each character, and the last of a row
  lemma TitleSurvives(width: nat, t: nat, p: nat)
    requires width >= 10 && t < 16 && (t % 2 == 0 || t % 8 == 7) && Covers(width, TitleBlock(t), p)
    ensures LastAt(width, TitleBlocks(16), t, p)
  {
    hide PixelNumber, SymbolOf, InBlock;
    var later := TitleBlocks(16)[t + 1..];
    forall j | 0 <= j < |later|
      ensures !Covers(width, later[j], p)
    {
      var u := t + 1 + j;
      assert later[j] == TitleBlock(u);
      if Covers(width, later[j], p) {
        var a, b := TitleBlock(t), TitleBlock(u);
        BlocksDisjoint(width, a.x, a.y, b.x, b.y, p);
        SamePlace(t, u);
      }
    }
  }

  lemma SamePlace(t: nat, u: nat)
    requires t < u < 16 && (t % 2 == 0 || t % 8 == 7)
    ensures t / 2 % 4 + t % 2 != u / 2 % 4 + u % 2 || t / 8 != u / 8
  {}

  // They are there as long as nothing is painted over them.
  lemma TitleSquareIs(start: seq<Byte>, data: seq<Byte>, width: nat, blocks: seq<Block>, t: nat)
    requires width >= 10 && t < 16 && (t % 2 == 0 || t % 8 == 7)
    requires PaintedBy(start, data, width, TitleBlocks(16) + blocks)
    requires forall p: nat | Covers(width, TitleBlock(t), p) :: FreeOf(width, blocks, p)
    ensures BlockIs(data, width, TitleBlock(t).x, TitleBlock(t).y, Level(SymbolOf(NAME, t)))
  {
    hide PixelNumber, SymbolOf, InBlock, Level;
    var all := TitleBlocks(16) + blocks;
    forall p: nat | Covers(width, TitleBlock(t), p)
      ensures PixelIs(data, p, Level(SymbolOf(NAME, t)))
    {
      TitleSurvives(width, t, p);
      assert all[t + 1..] == TitleBlocks(16)[t + 1..] + blocks;
      FreeOfBoth(width, TitleBlocks(16)[t + 1..], blocks, p);
      assert LastAt(width, all, t, p);
    }
  }

  lemma TitleSquares(start: seq<Byte>, data: seq<Byte>, width: nat, blocks: seq<Block>)
    requires width >= 10 && PaintedBy(start, data, width, TitleBlocks(16) + blocks)
    ensures (forall t, p: nat | 0 <= t < 16 && t % 2 == 0 && Covers(width, TitleBlock(t), p) ::
            FreeOf(width, blocks, p))
            ==> forall i | 0 <= i < 8 :: TitleBlockIs(data, width, i % 4, i / 4, 2 * i)
    ensures (forall p: nat | Covers(width, TitleBlock(7), p) :: FreeOf(width, blocks, p))
            ==> TitleBlockIs(data, width, 4, 0, 7)
    ensures (forall p: nat | Covers(width, TitleBlock(15), p) :: FreeOf(width, blocks, p))
            ==> TitleBlockIs(data, width, 4, 1, 15)
  {
    hide PixelNumber, SymbolOf, InBlock, Level, PaintedBy, BlockIs, Covers, FreeOf;
    if forall t, p: nat | 0 <= t < 16 && t % 2 == 0 && Covers(width, TitleBlock(t), p) :: FreeOf(width, blocks, p) {
      forall i | 0 <= i < 8
        ensures TitleBlockIs(data, width, i % 4, i / 4, 2 * i)
      {
        TitleSquareIs(start, data, width, blocks, 2 * i);
      }
    }
    if forall p: nat | Covers(width, TitleBlock(7), p) :: FreeOf(width, blocks, p) {
      TitleSquareIs(start, data, width, blocks, 7);
    }
    if forall p: nat | Covers(width, TitleBlock(15), p) :: FreeOf(width, blocks, p) {
      TitleSquareIs(start, data, width, blocks, 15);
    }
  }

  lemma HeaderBlockLow(width: nat, x: nat, y: nat)
    requires x <= 8 && y <= 2
    ensures forall p: nat | InBlock(width, x, y, p) :: p <= PixelNumber(width, 9, 3)
    ensures PixelNumber(width, x + 1, y + 1) <= PixelNumber(width, 9, 3)
  {
    hide PixelNumber;
    PixelMonotonic(width, x, y, 9, 3);
    PixelMonotonic(width, x, y + 1, 9, 3);
    PixelMonotonic(width, x + 1, y, 9, 3);
    PixelMonotonic(width, x + 1, y + 1, 9, 3);
  }

  // ----- the text

  // A slot lies outside the header's corner, on even coordinates, and inside the width.
  lemma SlotOutside(width: nat, i: nat)
    requires width >= HEADER_SIZE
    ensures var place := Slot(width, i);
            && (place.x >= HEADER_SIZE || place.y >= HEADER_SIZE)
            && place.x % 2 == 0 && place.y % 2 == 0 && place.x + 2 <= width
  {
    var b, f := (width - HEADER_SIZE) / BLOCK_SIZE, width / BLOCK_SIZE;
    if i >= b * 4 {
      G.RowAbove(i + 16, f, 4);
    }
  }

  // No pixel of the header's corner lies in a block outside the corner.
  lemma CornerUntouched(width: nat, x: nat, y: nat, u: nat, v: nat)
    requires width >= HEADER_SIZE && u < HEADER_SIZE && v < HEADER_SIZE
    requires (x >= HEADER_SIZE || y >= HEADER_SIZE) && x + 2 <= width
    ensures !InBlock(width, x, y, PixelNumber(width, u, v))
  {
    hide PixelNumber;
    PixelUnique(width, x, y, u, v);
    PixelUnique(width, x, y + 1, u, v);
    PixelUnique(width, x + 1, y, u, v);
    PixelUnique(width, x + 1, y + 1, u, v);
  }

  ghost predicate CornerKept(before: seq<Byte>, after: seq<Byte>, width: nat) {
    |before| == |after|
    && forall u: nat, v: nat | u < HEADER_SIZE && v < HEADER_SIZE :: SamePixel(before, after, PixelNumber(width, u, v))
  }

  // There is room for a text in the grid of cells.
  predicate HasRoom(width: nat, height: nat, length: nat) {
    && width % 4 == 0 && height % 2 == 0 && width >= 8 && height >= 8
    && length + G.HEADER_CELLS <= width / 4 * (height / 2)
  }

  ghost predicate TextBlockIs(data: seq<Byte>, width: nat, text: string, i: nat)
    requires width >= HEADER_SIZE && i < 2 * |text|
  {
    BlockIs(data, width, Slot(width, i).x, Slot(width, i).y, Level(SymbolOf(text, i)))
  }

  lemma SlotInjective(width: nat, i: nat, t: nat)
    requires width >= HEADER_SIZE && Slot(width, i) == Slot(width, t)
    ensures i == t
  {
    var b, f := (width - HEADER_SIZE) / BLOCK_SIZE, width / BLOCK_SIZE;
    SlotParts(width, i);
    SlotParts(width, t);
  }

  // A slot tells its number.
  lemma SlotParts(width: nat, i: nat)
    requires width >= HEADER_SIZE
    ensures var b, f, place := (width - HEADER_SIZE) / BLOCK_SIZE, width / BLOCK_SIZE, Slot(width, i);
            if i < b * 4 then place.y < 8 && place.y / 2 * b + (place.x - 8) / 2 == i
            else place.y >= 8 && place.y / 2 * f + place.x / 2 == i + 16
  {
    var b, f := (width - HEADER_SIZE) / BLOCK_SIZE, width / BLOCK_SIZE;
    if i < b * 4 {
      G.DivModIdentity(i, b);
      G.RowBelow(i, b, 4);
    } else {
      G.DivModIdentity(i + 16, f);
      G.RowAbove(i + 16, f, 4);
    }
  }

  // Slots follow each other along the rows, and around the header.
  lemma {:induction false} SlotNext(width: nat, i: nat)
    requires width >= 10
    ensures Slot(width, 0) == Place(8, 0)
    ensures var place := Slot(width, i);
            Slot(width, i + 1) ==
            if place.x + 4 <= width then Place(place.x + 2, place.y)
            else Place(if place.y + 2 < 8 then 8 else 0, place.y + 2)
  {
    FirstSlot(width);
    var b, f := (width - HEADER_SIZE) / BLOCK_SIZE, width / BLOCK_SIZE;
    if i < b * 4 {
      SlotNextBeside(width, b, i, i / b, i % b);
    } else {
      SlotNextBelow(width, f, i, (i + 16) / f, (i + 16) % f);
    }
  }

  lemma FirstSlot(width: nat)
    requires width >= 10
    ensures Slot(width, 0) == Place(8, 0)
  {
    G.DivModUnique(0, (width - HEADER_SIZE) / BLOCK_SIZE, 0, 0);
  }

  lemma SlotNextBeside(width: nat, b: nat, i: nat, q: nat, r: nat)
    requires width >= 10 && b == (width - HEADER_SIZE) / BLOCK_SIZE && i < b * 4 && q == i / b && r == i % b
    ensures Slot(width, i) == Place(8 + 2 * r, 2 * q)
    ensures Slot(width, i + 1) ==
            if r + 1 < b then Place(8 + 2 * (r + 1), 2 * q) else Place(if q < 3 then 8 else 0, 2 * q + 2)
  {
    G.DivModIdentity(i, b);
    NextDivMod(i, b, q, r);
    G.RowBelow(i, b, 4);
    if i + 1 == b * 4 {
      G.DivModUnique(i, b, 3, b - 1);
      G.DivModUnique(i + 17, width / BLOCK_SIZE, 4, 0);
    } else {
      G.RowBelow(i + 1, b, 4);
    }
  }

  lemma SlotNextBelow(width: nat, f: nat, i: nat, q: nat, r: nat)
    requires width >= 10 && f == width / BLOCK_SIZE && q == (i + 16) / f && r == (i + 16) % f
    requires i >= (width - HEADER_SIZE) / BLOCK_SIZE * 4
    ensures Slot(width, i) == Place(2 * r, 2 * q) && q >= 4
    ensures Slot(width, i + 1) == if r + 1 < f then Place(2 * (r + 1), 2 * q) else Place(0, 2 * q + 2)
  {
    G.DivModIdentity(i + 16, f);
    NextDivMod(i + 16, f, q, r);
    G.RowAbove(i + 16, f, 4);
  }

  lemma NextDivMod(i: nat, b: nat, q: nat, r: nat)
    requires b > 0 && i == q * b + r && r < b
    ensures i / b == q && i % b == r
    ensures if r + 1 < b then (i + 1) / b == q && (i + 1) % b == r + 1
            else (i + 1) / b == q + 1 && (i + 1) % b == 0
  {
    G.DivModUnique(i, b, q, r);
    if r + 1 < b {
      G.DivModUnique(i + 1, b, q, r + 1);
    } else {
      G.NextRow(q, b);
      G.DivModUnique(i + 1, b, q + 1, 0);
    }
  }

  lemma SlotInside(n: nat, rows: nat, length: nat, i: nat)
    requires n >= G.HEADER_COLUMNS && rows >= G.HEADER_ROWS && i < 2 * length && length + G.HEADER_CELLS <= n * rows
    ensures Slot(4 * n, i).y + 2 <= 2 * rows
  {
    hide G.CellOf, Slot;
    SlotsOfCell(n, i / 2);
    G.CellInside(n, rows, i / 2);
    assert i == 2 * (i / 2) + i % 2;
  }

  // The program paints only the slots that are inside the image.
  predicate Fits(width: nat, height: nat, i: nat)
    requires width >= HEADER_SIZE
  {
    Slot(width, i).x + BLOCK_SIZE <= width && Slot(width, i).y + BLOCK_SIZE <= height
  }

  function TextBlock(width: nat, text: string, i: nat): Block
    requires width >= HEADER_SIZE && i < 2 * |text|
  {
    Block(Slot(width, i).x, Slot(width, i).y, SymbolOf(text, i))
  }

  // The blocks painted for the first m symbols of a text
  function TextBlocks(width: nat, height: nat, text: string, m: nat): seq<Block>
    requires width >= HEADER_SIZE && m <= 2 * |text|
  {
    if m == 0 then []
    else if Fits(width, height, m - 1) then
      TextBlocks(width, height, text, m - 1) + [TextBlock(width, text, m - 1)]
    else
      TextBlocks(width, height, text, m - 1)
  }

  // The symbol in a slot that fits has its block, and none after it covers the slot.
  lemma {:induction false} TextSurvives(width: nat, height: nat, text: string, m: nat, i: nat, p: nat) returns (k: nat)
    requires width >= HEADER_SIZE && i < m <= 2 * |text| && Fits(width, height, i)
    requires Covers(width, TextBlock(width, text, i), p)
    ensures LastAt(width, TextBlocks(width, height, text, m), k, p)
    ensures TextBlocks(width, height, text, m)[k] == TextBlock(width, text, i)
  {
    hide Slot, SymbolOf, InBlock, Fits;
    var before := TextBlocks(width, height, text, m - 1);
    var blocks := TextBlocks(width, height, text, m);
    if i == m - 1 {
      k := |blocks| - 1;
      assert blocks[k + 1..] == [];
    } else {
      k := TextSurvives(width, height, text, m - 1, i, p);
      if Fits(width, height, m - 1) {
        var b := TextBlock(width, text, m - 1);
        SlotOutside(width, i);
        SlotOutside(width, m - 1);
        if Covers(width, b, p) {
          BlocksDisjoint(width, TextBlock(width, text, i).x, TextBlock(width, text, i).y, b.x, b.y, p);
          SlotInjective(width, i, m - 1);
        }
        assert blocks[k + 1..] == before[k + 1..] + [b];
        FreeOfBoth(width, before[k + 1..], [b], p);
      }
    }
  }

  lemma {:induction false} TextLeaves(width: nat, height: nat, text: string, m: nat, p: nat)
    requires width >= HEADER_SIZE && m <= 2 * |text|
    requires forall i | 0 <= i < m && Fits(width, height, i) :: !InBlock(width, Slot(width, i).x, Slot(width, i).y, p)
    ensures FreeOf(width, TextBlocks(width, height, text, m), p)
  {
    hide Slot, SymbolOf, InBlock, Fits;
    if m > 0 {
      TextLeaves(width, height, text, m - 1, p);
      if Fits(width, height, m - 1) {
        FreeOfBoth(width, TextBlocks(width, height, text, m - 1), [TextBlock(width, text, m - 1)], p);
      }
    }
  }

  // Every symbol in a slot that fits is shown.
  lemma TextIsShown(
      start: seq<Byte>, data: seq<Byte>, width: nat, height: nat, blocks: seq<Block>, text: string, i: nat)
    requires width >= HEADER_SIZE && i < 2 * |text| && Fits(width, height, i)
    requires PaintedBy(start, data, width, blocks + TextBlocks(width, height, text, 2 * |text|))
    ensures TextBlockIs(data, width, text, i)
  {
    hide Slot, SymbolOf, InBlock, Fits, Level;
    var mine := TextBlocks(width, height, text, 2 * |text|);
    forall p: nat | InBlock(width, Slot(width, i).x, Slot(width, i).y, p)
      ensures PixelIs(data, p, Level(SymbolOf(text, i)))
    {
      var k := TextSurvives(width, height, text, 2 * |text|, i, p);
      assert (blocks + mine)[|blocks| + k + 1..] == mine[k + 1..];
      assert LastAt(width, blocks + mine, |blocks| + k, p);
    }
  }

  // The header's corner is free of text.
  lemma CornerFree(width: nat, height: nat, text: string, u: nat, v: nat)
    requires width >= HEADER_SIZE && u < HEADER_SIZE && v < HEADER_SIZE
    ensures FreeOf(width, TextBlocks(width, height, text, 2 * |text|), PixelNumber(width, u, v))
  {
    hide Slot, SymbolOf, InBlock, PixelNumber;
    forall i | 0 <= i < 2 * |text| && Fits(width, height, i)
      ensures !InBlock(width, Slot(width, i).x, Slot(width, i).y, PixelNumber(width, u, v))
    {
      SlotOutside(width, i);
      CornerUntouched(width, Slot(width, i).x, Slot(width, i).y, u, v);
    }
    TextLeaves(width, height, text, 2 * |text|, PixelNumber(width, u, v));
  }

  // The loop that writes the length and the payload. It leaves the header's corner alone, and when
  // there is room every symbol gets its block.
  method WriteText(data: array<Byte>, width: nat, height: nat, text: string)
    requires width >= HEADER_SIZE && data.Length == 4 * (width * height)
    modifies data
    ensures PaintedBy(old(data[..]), data[..], width, TextBlocks(width, height, text, 2 * |text|))
    ensures CornerKept(old(data[..]), data[..], width)
    ensures HasRoom(width, height, |text|) ==> forall i | 0 <= i < 2 * |text| :: TextBlockIs(data[..], width, text, i)
  {
    hide PixelNumber, SymbolOf, Level, InBlock, BlockIs, Slot, PaintedBy, Inside;
    ghost var start := data[..];
    PaintedNothing(start, width);
    for i := 0 to 2 * |text|
      invariant PaintedBy(start, data[..], width, TextBlocks(width, height, text, i))
    {
      var place := Slot(width, i);
      if place.x + BLOCK_SIZE <= width && place.y + BLOCK_SIZE <= height {
        BlockFits(width, height, place.x, place.y);
        ghost var before := data[..];
        SetBlock(data, width, place.x, place.y, SymbolOf(text, i));
        PaintedMore(start, before, data[..], width, TextBlocks(width, height, text, i), TextBlock(width, text, i));
      } else {
        assert !Fits(width, height, i);
      }
    }
    TextPainted(start, data[..], width, height, text);
  }

  lemma TextPainted(start: seq<Byte>, data: seq<Byte>, width: nat, height: nat, text: string)
    requires width >= HEADER_SIZE && PaintedBy(start, data, width, TextBlocks(width, height, text, 2 * |text|))
    ensures CornerKept(start, data, width)
    ensures HasRoom(width, height, |text|) ==> forall i | 0 <= i < 2 * |text| :: TextBlockIs(data, width, text, i)
  {
    hide PixelNumber, SymbolOf, Level, InBlock, BlockIs, Slot, SamePixel;
    var blocks := TextBlocks(width, height, text, 2 * |text|);
    forall u: nat, v: nat | u < HEADER_SIZE && v < HEADER_SIZE
      ensures SamePixel(start, data, PixelNumber(width, u, v))
    {
      CornerFree(width, height, text, u, v);
    }
    assert [] + blocks == blocks;
    if HasRoom(width, height, |text|) {
      forall i | 0 <= i < 2 * |text|
        ensures TextBlockIs(data, width, text, i)
      {
        SlotOutside(width, i);
        SlotInside(width / 4, height / 2, |text|, i);
        TextIsShown(start, data, width, height, [], text, i);
      }
    }
  }

  // ----- encode

  // The header's corner, apart from the rows of the header characters, is left gray by the program's encoder.
  ghost predicate LowerCornerGray(data: seq<Byte>, width: nat) {
    forall u: nat, v: nat | u < 4 && 6 <= v < 8 :: GrayIfInside(data, PixelNumber(width, u, v))
  }

  ghost predicate GrayIfInside(data: seq<Byte>, p: nat) {
    4 * p + 2 < |data| ==> data[4 * p] == 128 && data[4 * p + 1] == 128 && data[4 * p + 2] == 128
  }

  lemma GrayLuminance(data: seq<Byte>, p: nat)
    requires GrayIfInside(data, p)
    ensures Luminance(data, p) == if 4 * p + 2 < |data| then 128000 else 0
  {}

  // The seventh header character is then read as 'k', 'S' or 'A', by the height of the image.
  lemma GrayCornerHeader(data: seq<Byte>, width: nat, height: nat)
    requires width >= HEADER_SIZE && |data| == 4 * (width * height) && LowerCornerGray(data, width)
    ensures Header(data, width)[6] != NAME[6]
  {
    hide Luminance, GrayIfInside;
    var t0, t1 := Total(data, width, 0, 6), Total(data, width, 2, 6);
    forall u: nat, v: nat | u < 4 && 6 <= v < 8
      ensures Luminance(data, PixelNumber(width, u, v)) == if v < height then 128000 else 0
    {
      assert GrayIfInside(data, PixelNumber(width, u, v));
      GrayLuminance(data, PixelNumber(width, u, v));
      G.RowMonotonic(v + 1, height, width);
      G.RowMonotonic(height, v, width);
      assert width * height == height * width && (v + 1) * width == v * width + width;
    }
    hide PixelNumber;
    assert t0 == t1 == if height >= 8 then 512000 else if height == 7 then 256000 else 0;
    assert Header(data, width)[6] == CharAt(data, width, 0, 6);
  }

  // str::len, the number of bytes of a text
  function Utf8Length(text: string): (bytes: nat)
    ensures bytes >= |text|
  {
    if |text| == 0 then 0
    else
      var c := text[|text| - 1] as nat;
      Utf8Length(text[..|text| - 1]) + (if c < 0x80 then 1 else if c < 0x800 then 2 else if c < 0x1_0000 then 3 else 4)
  }

  // How many characters there are of up to so many bytes: 7 bits fit in one, 11 in two, and 16 in three
  const CAPACITY := [0, 0x80, 0x800, 0x1_0000, 0x11_0000]

  // A character takes the least number of bytes that can hold it, and a text the sum of its characters.
  lemma {:induction false} Utf8LengthOf(text: string, c: char, k: nat)
    requires 1 <= k <= 4 && CAPACITY[k - 1] <= c as nat < CAPACITY[k]
    ensures Utf8Length("") == 0 && Utf8Length(text + [c]) == Utf8Length(text) + k
  {
    assert (text + [c])[..|text|] == text;
  }

  // A payload behind its length in bytes
  function RustText(payload: string): string {
    LengthField(Utf8Length(payload)) + payload
  }

  // For the payloads that the alphabet can write, this is the text that the reader expects.
  lemma {:induction false} RustTextOfBase64(payload: string)
    requires AllBase64(payload)
    ensures RustText(payload) == FullText(payload)
  {
    hide LengthField;
    Base64Bytes(payload);
  }

  lemma {:induction false} Base64Bytes(text: string)
    requires AllBase64(text)
    ensures Utf8Length(text) == |text|
  {
    if |text| > 0 {
      Base64Bytes(text[..|text| - 1]);
      assert IsBase64(text[|text| - 1]);
    }
  }

  // What the program's image shows, for a text behind the header
  ghost predicate IsRustImage(image: seq<Byte>, width: nat, height: nat, text: string)
    requires width >= HEADER_SIZE
  {
    // every pixel is opaque
    && |image| == 4 * (width * height)
    && (forall q | 0 <= q < |image| && q % 4 == 3 :: image[q] == 255)
    // every symbol of the text whose slot fits has its square
    && (forall i | 0 <= i < 2 * |text| && Fits(width, height, i) :: TextBlockIs(image, width, text, i))
    // the squares of the header that are not painted over by it are there, but for the fifth of each row where
    // there is text: always in the first row, and in the second if the text gets so far
    && (width >= 10 ==> forall i | 0 <= i < 8 :: TitleBlockIs(image, width, i % 4, i / 4, 2 * i))
    && (width >= 10 && 2 * |text| <= (width - HEADER_SIZE) / BLOCK_SIZE ==> TitleBlockIs(image, width, 4, 1, 15))
    // everything else is gray
    && (forall p: nat | FreeOf(width, TitleBlocks(16), p)
          && FreeOf(width, TextBlocks(width, height, text, 2 * |text|), p) :: GrayIfInside(image, p))
  }

  // The encoder of the Rust core, with the exact image. Whatever the payload and the size, its own decoder refuses it.
  method EncodeRust(payload: string, width: nat, height: nat) returns (image: seq<Byte>)
    requires width >= HEADER_SIZE && Inside(4 * (width * height), width, 8, 2)
    ensures |image| == 4 * (width * height)
    ensures var text := RustText(payload);
            PaintedBy(Blank(width * height), image, width,
                TitleBlocks(16) + TextBlocks(width, height, text, 2 * |text|))
    ensures IsRustImage(image, width, height, RustText(payload))
    ensures Decoded(width, height, image) == Outcome(None, InvalidHeader)
    ensures HasRoom(width, height, |RustText(payload)|) ==> TextNear(image, width, RustText(payload))
  {
    hide PixelNumber, Header, Scan, SymbolOf, Level, Slot, Total, Near, BlockIs, RustText, InBlock, PaintedBy;
    hide TextBlocks;
    hide TitleBlocks, TextNear, IsRustImage, Inside;
    var data := NewImage(width, height);
    ghost var blank := data[..];
    assert blank == Blank(width * height);
    WriteHeader(data, width);
    ghost var titled := data[..];
    var text := RustText(payload);
    WriteText(data, width, height, text);
    image := data[..];
    PaintedBoth(blank, titled, image, width, TitleBlocks(16), TextBlocks(width, height, text, 2 * |text|));
    RustImage(image, width, height, text);
    RustCornerGray(image, width, height, text);
    GrayCornerHeader(image, width, height);
    if HasRoom(width, height, |text|) {
      RustTextNear(image, width, text);
    }
  }

  lemma RustTextNear(image: seq<Byte>, width: nat, text: string)
    requires width >= HEADER_SIZE && forall i | 0 <= i < 2 * |text| :: TextBlockIs(image, width, text, i)
    ensures TextNear(image, width, text)
  {
    hide Slot, SymbolOf, Level, Total, Near, BlockIs;
    forall i | 0 <= i < 2 * |text|
      ensures TextNearAt(image, width, text, i)
    {
      assert TextBlockIs(image, width, text, i);
      BlockIsNear(image, width, Slot(width, i).x, Slot(width, i).y, SymbolOf(text, i));
    }
  }

  lemma RustImage(image: seq<Byte>, width: nat, height: nat, text: string)
    requires width >= HEADER_SIZE
    requires PaintedBy(Blank(width * height), image, width,
        TitleBlocks(16) + TextBlocks(width, height, text, 2 * |text|))
    ensures IsRustImage(image, width, height, text)
  {
    hide PixelNumber, SymbolOf, Level, Slot, BlockIs, InBlock, TextBlocks, TitleBlocks, Fits, TextBlockIs, TitleBlockIs;
    hide PaintedBy, FreeOf, GrayIfInside, Blank;
    forall i | 0 <= i < 2 * |text| && Fits(width, height, i)
      ensures TextBlockIs(image, width, text, i)
    {
      TextIsShown(Blank(width * height), image, width, height, TitleBlocks(16), text, i);
    }
    if width >= 10 {
      TitleFree(width, height, text);
      TitleSquares(Blank(width * height), image, width, TextBlocks(width, height, text, 2 * |text|));
    }
    RustRest(image, width, height, text);
  }

  lemma RustRest(image: seq<Byte>, width: nat, height: nat, text: string)
    requires width >= HEADER_SIZE
    requires PaintedBy(Blank(width * height), image, width,
        TitleBlocks(16) + TextBlocks(width, height, text, 2 * |text|))
    ensures |image| == 4 * (width * height)
    ensures forall q | 0 <= q < |image| && q % 4 == 3 :: image[q] == 255
    ensures forall p: nat | FreeOf(width, TitleBlocks(16), p)
              && FreeOf(width, TextBlocks(width, height, text, 2 * |text|), p) :: GrayIfInside(image, p)
  {
    hide FreeOf, TextBlocks, TitleBlocks, Level, LastAt;
    var mine := TextBlocks(width, height, text, 2 * |text|);
    forall p: nat | FreeOf(width, TitleBlocks(16), p) && FreeOf(width, mine, p)
      ensures GrayIfInside(image, p)
    {
      FreeOfBoth(width, TitleBlocks(16), mine, p);
      BlankKept(width * height, image, p);
    }
  }

  lemma BlankKept(pixels: nat, image: seq<Byte>, p: nat)
    requires |image| == 4 * pixels && SamePixel(Blank(pixels), image, p)
    ensures GrayIfInside(image, p)
  {}

  // Where the text does not paint over the header
  lemma TitleFree(width: nat, height: nat, text: string)
    requires width >= 10
    ensures var mine := TextBlocks(width, height, text, 2 * |text|);
            && (forall t, p: nat | 0 <= t < 16 && t % 2 == 0 && Covers(width, TitleBlock(t), p) ::
                FreeOf(width, mine, p))
            && (2 * |text| <= (width - HEADER_SIZE) / BLOCK_SIZE ==>
                  forall p: nat | Covers(width, TitleBlock(15), p) :: FreeOf(width, mine, p))
  {
    hide SymbolOf, Slot, InBlock, TextBlocks, Fits;
    forall t, p: nat | 0 <= t < 16 && t % 2 == 0 && Covers(width, TitleBlock(t), p)
      ensures FreeOf(width, TextBlocks(width, height, text, 2 * |text|), p)
    {
      forall i | 0 <= i < 2 * |text| && Fits(width, height, i)
        ensures !InBlock(width, Slot(width, i).x, Slot(width, i).y, p)
      {
        TitleApart(width, t, i, p);
      }
      TextLeaves(width, height, text, 2 * |text|, p);
    }
    if 2 * |text| <= (width - HEADER_SIZE) / BLOCK_SIZE {
      forall p: nat | Covers(width, TitleBlock(15), p)
        ensures FreeOf(width, TextBlocks(width, height, text, 2 * |text|), p)
      {
        forall i | 0 <= i < 2 * |text| && Fits(width, height, i)
          ensures !InBlock(width, Slot(width, i).x, Slot(width, i).y, p)
        {
          TitleApart(width, 15, i, p);
        }
        TextLeaves(width, height, text, 2 * |text|, p);
      }
    }
  }

  lemma TitleApart(width: nat, t: nat, i: nat, p: nat)
    requires width >= 10 && t < 16 && Covers(width, TitleBlock(t), p)
    requires t % 2 == 0 || (t == 15 && i < (width - HEADER_SIZE) / BLOCK_SIZE)
    ensures !InBlock(width, Slot(width, i).x, Slot(width, i).y, p)
  {
    hide SymbolOf, Slot, InBlock;
    SlotOutside(width, i);
    var a, place := TitleBlock(t), Slot(width, i);
    if InBlock(width, place.x, place.y, p) {
      BlocksDisjoint(width, a.x, a.y, place.x, place.y, p);
      if t == 15 {
        FirstRow(width, i);
      }
    }
  }

  lemma FirstRow(width: nat, i: nat)
    requires width >= HEADER_SIZE && i < (width - HEADER_SIZE) / BLOCK_SIZE
    ensures Slot(width, i).y == 0
  {
    G.DivModUnique(i, (width - HEADER_SIZE) / BLOCK_SIZE, 0, i);
  }

  // The lower half of the corner is gray.
  lemma RustCornerGray(image: seq<Byte>, width: nat, height: nat, text: string)
    requires width >= HEADER_SIZE && IsRustImage(image, width, height, text)
    ensures LowerCornerGray(image, width)
  {
    hide PixelNumber, SymbolOf, Slot, InBlock, TextBlocks, Level, Fits, TitleBlocks, GrayIfInside;
    forall u: nat, v: nat | u < 4 && 6 <= v < 8
      ensures GrayIfInside(image, PixelNumber(width, u, v))
    {
      CornerFree(width, height, text, u, v);
      LowerCornerAboveHeader(width, u, v);
      AboveTitle(width, PixelNumber(width, u, v));
    }
  }

  lemma AboveTitle(width: nat, p: nat)
    requires p > PixelNumber(width, 9, 3)
    ensures FreeOf(width, TitleBlocks(16), p)
  {
    hide PixelNumber, SymbolOf, InBlock;
    forall t | 0 <= t < 16
      ensures !Covers(width, TitleBlocks(16)[t], p)
    {
      HeaderBlockLow(width, TitleBlock(t).x, TitleBlock(t).y);
    }
  }

  lemma LowerCornerAboveHeader(width: nat, u: nat, v: nat)
    requires width >= HEADER_SIZE && v >= 6
    ensures PixelNumber(width, u, v) > PixelNumber(width, 9, 3)
  {
    G.RowMonotonic(6, v, width);
  }
}
