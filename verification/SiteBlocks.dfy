/**
 The blocks of an image of the site's bacchant encoder: sixteen for the header, two for each character
 of the text, and random levels behind the block at which the loop over the text leaves off.
 */
module SiteBlocks {
  import opened Bacchant
  import opened BacchantImage
  import opened BacchantBlocks
  import opened BacchantWriter
  import G = Grid

  // ----- the header

  // The site's header loop: four symbols, that is two characters, to a row
  method WriteSiteHeader(data: array<Byte>, width: nat)
    requires width >= HEADER_SIZE && Inside(data.Length, width, 6, 6)
    modifies data
    ensures forall i | 0 <= i < 16 :: HeaderBlockIs(data[..], width, i)
  {
    hide PixelNumber, SymbolOf, Level, InBlock, BlockIs;
    for i := 0 to 16
      invariant forall t | 0 <= t < i :: HeaderBlockIs(data[..], width, t)
    {
      var x, y := i % 4 * BLOCK_SIZE, i / 4 * BLOCK_SIZE;
      PixelMonotonic(width, x + 1, y + 1, 7, 7);
      ghost var before := data[..];
      assert forall t | 0 <= t < i :: HeaderBlockIs(before, width, t);
      SetBlock(data, width, x, y, SymbolOf(NAME, i));
      NewBlock(before, data[..], width, x, y, Level(SymbolOf(NAME, i)));
      forall t | 0 <= t < i
        ensures HeaderBlockIs(data[..], width, t)
      {
        assert HeaderBlockIs(before, width, t);
        assert t == 4 * (t / 4) + t % 4 && i == 4 * (i / 4) + i % 4;
        BlockKept(before, data[..], width, x, y, Level(SymbolOf(NAME, i)), t % 4 * BLOCK_SIZE, t / 4 * BLOCK_SIZE,
            Level(SymbolOf(NAME, t)));
      }
    }
  }

  ghost predicate HeaderBlockIs(data: seq<Byte>, width: nat, i: nat)
    requires i < 16
  {
    BlockIs(data, width, i % 4 * BLOCK_SIZE, i / 4 * BLOCK_SIZE, Level(SymbolOf(NAME, i)))
  }

  // ----- the random rest

  // Block number q, counting row by row, is of one level.
  ghost predicate BlockAt(data: seq<Byte>, width: nat, q: nat, level: nat)
    requires width >= 2
  {
    BlockIs(data, width, q % (width / 2) * BLOCK_SIZE, q / (width / 2) * BLOCK_SIZE, level)
  }

  ghost predicate KeptUpTo(start: seq<Byte>, data: seq<Byte>, width: nat, first: nat)
    requires width >= 2
  {
    forall q: nat, level: nat | q <= first && BlockAt(start, width, q, level) :: BlockAt(data, width, q, level)
  }

  ghost predicate Filled(data: seq<Byte>, width: nat, first: nat, last: nat, fill: nat -> nat)
    requires width >= 2 && forall q :: fill(q) < 8
  {
    forall q: nat | first < q <= last :: BlockAt(data, width, q, Level(fill(q)))
  }

  lemma FillStep(
    start: seq<Byte>, before: seq<Byte>, after: seq<Byte>, width: nat, column: nat, row: nat, first: nat, q: nat,
    fill: nat -> nat)
    requires width >= 2 && width % 2 == 0 && (forall k :: fill(k) < 8) && |before| == |after|
    requires column < width / 2 && q == row * (width / 2) + column && q > first
    requires Inside(|after|, width, column * BLOCK_SIZE, row * BLOCK_SIZE)
    requires forall k | 0 <= k < |after| ::
        after[k] == if k % 4 != 3 && InBlock(width, column * BLOCK_SIZE, row * BLOCK_SIZE, k / 4)
                    then Level(fill(q)) else before[k]
    requires KeptUpTo(start, before, width, first) && Filled(before, width, first, q - 1, fill)
    ensures KeptUpTo(start, after, width, first) && Filled(after, width, first, q, fill)
  {
    hide InBlock, Level, BlockIs, PixelNumber;
    G.DivModUnique(q, width / 2, row, column);
    NewBlock(before, after, width, column * BLOCK_SIZE, row * BLOCK_SIZE, Level(fill(q)));
    forall t: nat, level: nat | t < q && BlockAt(before, width, t, level)
      ensures BlockAt(after, width, t, level)
    {
      BlockBeforeKept(before, after, width, column, row, q, Level(fill(q)), t, level);
    }
  }

  lemma BlockBeforeKept(
    before: seq<Byte>, after: seq<Byte>, width: nat, column: nat, row: nat, q: nat, painted: nat, t: nat, level: nat)
    requires width >= 2 && width % 2 == 0 && |before| == |after|
    requires column < width / 2 && q == row * (width / 2) + column && t < q
    requires forall k | 0 <= k < |after| ::
        after[k] == if k % 4 != 3 && InBlock(width, column * BLOCK_SIZE, row * BLOCK_SIZE, k / 4)
                    then painted else before[k]
    requires BlockAt(before, width, t, level)
    ensures BlockAt(after, width, t, level)
  {
    hide InBlock, BlockIs, PixelNumber;
    var w := width / 2;
    G.DivModIdentity(t, w);
    var x, y := t % w * BLOCK_SIZE, t / w * BLOCK_SIZE;
    assert x != column * BLOCK_SIZE || y != row * BLOCK_SIZE;
    BlockKept(before, after, width, column * BLOCK_SIZE, row * BLOCK_SIZE, painted, x, y, level);
  }

  // The blocks behind column d of row m get random levels: fill gives the symbol drawn for each block.
  method Fill(data: array<Byte>, width: nat, height: nat, d: nat, m: nat, fill: nat -> nat)
    requires width >= 2 && width % 2 == 0 && height % 2 == 0 && data.Length == 4 * (width * height)
    requires d < width / 2 && m < height / 2 && forall q :: fill(q) < 8
    modifies data
    ensures KeptUpTo(old(data[..]), data[..], width, m * (width / 2) + d)
    ensures Filled(data[..], width, m * (width / 2) + d, height / 2 * (width / 2) - 1, fill)
  {
    hide InBlock, Level, BlockIs, PixelNumber, Filled, KeptUpTo;
    var p := width / 2;
    var column: nat, row: nat := d, m;
    ghost var first := m * p + d;
    ghost var q: nat := first;
    FillNothing(data[..], width, first, fill);
    while true
      invariant column < p && row < height / 2 && q == row * p + column && q >= first
      invariant KeptUpTo(old(data[..]), data[..], width, first)
      invariant Filled(data[..], width, first, q, fill)
      decreases height / 2 - row, p - column
    {
      column := column + 1;
      if column >= p {
        column, row := 0, row + 1;
        G.NextRow(row - 1, p);
      }
      if row >= height / 2 {
        assert q + 1 == height / 2 * p;
        return;
      }
      q := q + 1;
      BlockFits(width, height, column * BLOCK_SIZE, row * BLOCK_SIZE);
      ghost var before := data[..];
      SetBlock(data, width, column * BLOCK_SIZE, row * BLOCK_SIZE, fill(row * p + column));
      FillStep(old(data[..]), before, data[..], width, column, row, first, q, fill);
    }
  }

  lemma FillNothing(data: seq<Byte>, width: nat, first: nat, fill: nat -> nat)
    requires width >= 2 && forall q :: fill(q) < 8
    ensures KeptUpTo(data, data, width, first) && Filled(data, width, first, first, fill)
  {}

  // ----- the text and the random rest

  // The number of the block of symbol i
  function SlotNumber(width: nat, i: nat): nat
    requires width >= HEADER_SIZE
  {
    var b := (width - HEADER_SIZE) / BLOCK_SIZE;
    if i < b * 4 then i / b * (width / 2) + 4 + i % b else i + 16
  }

  lemma SlotNumberIs(width: nat, i: nat)
    requires width >= HEADER_SIZE && width % 2 == 0
    ensures Slot(width, i)
            == Place(SlotNumber(width, i) % (width / 2) * BLOCK_SIZE, SlotNumber(width, i) / (width / 2) * BLOCK_SIZE)
  {
    var b := (width - HEADER_SIZE) / BLOCK_SIZE;
    if i < b * 4 {
      G.DivModIdentity(i, b);
      G.DivModUnique(SlotNumber(width, i), width / 2, i / b, 4 + i % b);
    }
  }

  // The text reaches below the rows of the header.
  predicate ReachesBelow(width: nat, length: nat) {
    length + 8 > width
  }

  // The column from which the random levels start, as the loop over the text leaves it. Beside the header it
  // is counted from the header's edge.
  function LastColumn(width: nat, i: nat): nat
    requires width >= HEADER_SIZE
  {
    var b := (width - HEADER_SIZE) / BLOCK_SIZE;
    if i < b * 4 then i - i / b * b else (i + 16) - (i + 16) / (width / 2) * (width / 2)
  }

  function LastRow(width: nat, i: nat): nat
    requires width >= HEADER_SIZE
  {
    var b := (width - HEADER_SIZE) / BLOCK_SIZE;
    if i < b * 4 then i / b else (i + 16) / (width / 2)
  }

  lemma LastBlock(width: nat, height: nat, length: nat)
    requires HasRoom(width, height, length) && length > 0
    ensures var i, p := 2 * length - 1, width / 2;
            var last := LastRow(width, i) * p + LastColumn(width, i);
            && LastColumn(width, i) < p && LastRow(width, i) < height / 2
            && (if ReachesBelow(width, length) then last == SlotNumber(width, i) && last >= 4 * p
                else last == SlotNumber(width, i) - 4)
  {
    hide Slot;
    var i, p := 2 * length - 1, width / 2;
    var b := (width - HEADER_SIZE) / BLOCK_SIZE;
    SlotInside(width / 4, height / 2, length, i);
    SlotNumberIs(width, i);
    SlotNumberParts(width, i);
    if i < b * 4 {
      G.DivModIdentity(i, b);
    } else {
      G.DivModIdentity(i + 16, p);
    }
  }

  lemma SlotNumberParts(width: nat, i: nat)
    requires width >= HEADER_SIZE && width % 2 == 0
    ensures var b := (width - HEADER_SIZE) / BLOCK_SIZE;
            i < b * 4 ==> SlotNumber(width, i) / (width / 2) == i / b
  {
    var b := (width - HEADER_SIZE) / BLOCK_SIZE;
    if i < b * 4 {
      G.DivModIdentity(i, b);
      G.DivModUnique(SlotNumber(width, i), width / 2, i / b, 4 + i % b);
    }
  }

  // Behind the header's rows, the squares of a text come in order, after those beside the header.
  lemma SlotNumberBound(width: nat, i: nat, t: nat)
    requires width >= HEADER_SIZE && width % 2 == 0 && t <= i && SlotNumber(width, i) >= 4 * (width / 2)
    ensures SlotNumber(width, t) <= SlotNumber(width, i)
  {
    var b, w := (width - HEADER_SIZE) / BLOCK_SIZE, width / 2;
    if t < b * 4 {
      G.DivModIdentity(t, b);
      G.RowBelow(t, b, 4);
      G.RowMonotonic(t / b, 3, w);
    }
    if i < b * 4 {
      G.DivModIdentity(i, b);
      G.RowBelow(i, b, 4);
      G.RowMonotonic(i / b, 3, w);
    }
  }

  lemma HeaderNumber(width: nat, i: nat)
    requires width >= HEADER_SIZE && width % 2 == 0 && i < 16
    ensures var p := width / 2;
            var q := i / 4 * p + i % 4;
            q < 4 * p && q % p == i % 4 && q / p == i / 4
  {
    var p := width / 2;
    G.DivModUnique(i / 4 * p + i % 4, p, i / 4, i % 4);
    G.RowMonotonic(i / 4, 3, p);
  }

  // ----- drawing

  // The header and the text, before the random levels
  ghost predicate Written(data: seq<Byte>, width: nat, text: string)
    requires width >= HEADER_SIZE
  {
    && (forall i | 0 <= i < 16 :: HeaderBlockIs(data, width, i))
    && (forall i | 0 <= i < 2 * |text| :: TextBlockIs(data, width, text, i))
  }

  lemma RoomSize(width: nat, height: nat, length: nat)
    requires HasRoom(width, height, length)
    ensures width >= HEADER_SIZE && width % 2 == 0 && height >= HEADER_SIZE && height % 2 == 0
  {}

  // The block behind which the random levels start
  function FirstFilled(width: nat, length: nat): nat
    requires width >= HEADER_SIZE && length > 0
  {
    LastRow(width, 2 * length - 1) * (width / 2) + LastColumn(width, 2 * length - 1)
  }

  // Header and text have been written, and then all blocks behind the first ones got random levels.
  ghost predicate IsDrawn(
    written: seq<Byte>, image: seq<Byte>, width: nat, height: nat, text: string, fill: nat -> nat)
    requires width >= HEADER_SIZE && |text| > 0 && height >= 2 && forall q :: fill(q) < 8
  {
    && Written(written, width, text)
    && KeptUpTo(written, image, width, FirstFilled(width, |text|))
    && Filled(image, width, FirstFilled(width, |text|), height / 2 * (width / 2) - 1, fill)
  }

  // The loops over header, text and remaining blocks
  method Draw(text: string, width: nat, height: nat, fill: nat -> nat)
    returns (image: seq<Byte>, ghost written: seq<Byte>)
    requires HasRoom(width, height, |text|) && |text| > 0 && forall q :: fill(q) < 8
    ensures |image| == 4 * (width * height)
    ensures IsDrawn(written, image, width, height, text, fill)
  {
    hide PixelNumber, SymbolOf, Level, Slot, BlockIs, Written, KeptUpTo, SlotNumber, LastColumn, LastRow, InBlock;
    hide ReachesBelow, Filled, BlockAt, HasRoom;
    RoomSize(width, height, |text|);
    var data := new Byte[4 * (width * height)](_ => 0);
    BlockFits(width, height, 6, 6);
    WriteSiteHeader(data, width);
    ghost var titled := data[..];
    WriteText(data, width, height, text);
    written := data[..];
    assert Written(written, width, text) by {
      WrittenNow(titled, written, width, text);
    }
    LastBlock(width, height, |text|);
    var i := 2 * |text| - 1;
    Fill(data, width, height, LastColumn(width, i), LastRow(width, i), fill);
    image := data[..];
  }

  lemma SlotNumberInside(width: nat, height: nat, length: nat, i: nat)
    requires HasRoom(width, height, length) && i < 2 * length
    ensures SlotNumber(width, i) < height / 2 * (width / 2)
  {
    hide Slot, SlotNumber;
    var p := width / 2;
    var q := SlotNumber(width, i);
    SlotInside(width / 4, height / 2, length, i);
    SlotNumberIs(width, i);
    G.DivModIdentity(q, p);
    G.RowMonotonic(q / p + 1, height / 2, p);
    G.NextRow(q / p, p);
  }

  lemma WrittenNow(before: seq<Byte>, after: seq<Byte>, width: nat, text: string)
    requires width >= HEADER_SIZE && CornerKept(before, after, width)
    requires forall i | 0 <= i < 16 :: HeaderBlockIs(before, width, i)
    requires forall i | 0 <= i < 2 * |text| :: TextBlockIs(after, width, text, i)
    ensures Written(after, width, text)
  {
    hide SymbolOf, Level, Slot, BlockIs;
    forall i | 0 <= i < 16
      ensures HeaderBlockIs(after, width, i)
    {
      HeaderBlockStays(before, after, width, i);
    }
  }

  lemma HeaderBlockStays(before: seq<Byte>, after: seq<Byte>, width: nat, i: nat)
    requires i < 16 && HeaderBlockIs(before, width, i) && CornerKept(before, after, width)
    ensures HeaderBlockIs(after, width, i)
  {
    hide PixelNumber, SymbolOf, Level;
    var x, y := i % 4 * BLOCK_SIZE, i / 4 * BLOCK_SIZE;
    forall p: nat | InBlock(width, x, y, p)
      ensures PixelIs(after, p, Level(SymbolOf(NAME, i)))
    {
      assert PixelIs(before, p, Level(SymbolOf(NAME, i)));
      assert SamePixel(before, after, p);
    }
  }
}
