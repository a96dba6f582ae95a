/**
 Blocks of 2 by 2 pixels in a byte buffer, four bytes a pixel, and what painting some of them, one over
 the other, leaves in it.
 */
module BacchantBlocks {
  import opened Bacchant
  import G = Grid

  // Pixel number p belongs to the block at (x, y).
  predicate InBlock(width: nat, x: nat, y: nat, p: nat) {
    || p == PixelNumber(width, x, y) || p == PixelNumber(width, x, y + 1)
    || p == PixelNumber(width, x + 1, y) || p == PixelNumber(width, x + 1, y + 1)
  }

  // The whole block lies inside a buffer; the source panics otherwise.
  predicate Inside(length: nat, width: nat, x: nat, y: nat) {
    4 * PixelNumber(width, x + 1, y + 1) + 2 < length
  }

  // What set_block has painted after i columns and j pixels of the next one
  predicate Painted(width: nat, x: nat, y: nat, i: nat, j: nat, p: nat) {
    || (i >= 1 && (p == PixelNumber(width, x, y) || p == PixelNumber(width, x, y + 1)))
    || (i >= 2 && (p == PixelNumber(width, x + 1, y) || p == PixelNumber(width, x + 1, y + 1)))
    || (j >= 1 && p == PixelNumber(width, x + i, y))
    || (j >= 2 && p == PixelNumber(width, x + i, y + 1))
  }

  lemma PixelOrder(width: nat, x: nat, y: nat)
    ensures PixelNumber(width, x, y) <= PixelNumber(width, x, y + 1) <= PixelNumber(width, x + 1, y + 1)
    ensures PixelNumber(width, x + 1, y) == PixelNumber(width, x, y) + 1
    ensures PixelNumber(width, x + 1, y + 1) == PixelNumber(width, x, y + 1) + 1
    ensures PixelNumber(width, x, y + 1) == PixelNumber(width, x, y) + width
  {
    assert (y + 1) * width == y * width + width;
  }

  method SetBlock(data: array<Byte>, width: nat, x: nat, y: nat, symbol: nat)
    requires symbol < 8 && Inside(data.Length, width, x, y)
    modifies data
    ensures forall q | 0 <= q < data.Length ::
              data[q] == if q % 4 != 3 && InBlock(width, x, y, q / 4) then Level(symbol) else old(data[q])
  {
    PixelOrder(width, x, y);
    hide PixelNumber, Level;
    var level := Level(symbol);
    for i := 0 to BLOCK_SIZE
      invariant forall q | 0 <= q < data.Length ::
          data[q] == if q % 4 != 3 && Painted(width, x, y, i, 0, q / 4) then level else old(data[q])
    {
      for j := 0 to BLOCK_SIZE
        invariant forall q | 0 <= q < data.Length ::
            data[q] == if q % 4 != 3 && Painted(width, x, y, i, j, q / 4) then level else old(data[q])
      {
        var p := PixelNumber(width, x + i, y + j);
        SetPixel(data, p, level);
      }
    }
  }

  method SetPixel(data: array<Byte>, p: nat, level: Byte)
    requires 4 * p + 2 < data.Length
    modifies data
    ensures forall q | 0 <= q < data.Length :: data[q] == if q % 4 != 3 && q / 4 == p then level else old(data[q])
  {
    var index := 4 * p;
    data[index] := level;
    data[index + 1] := level;
    data[index + 2] := level;
  }

  // A block of one gray level
  ghost predicate BlockIs(data: seq<Byte>, width: nat, x: nat, y: nat, level: nat) {
    forall p: nat | InBlock(width, x, y, p) :: PixelIs(data, p, level)
  }

  ghost predicate PixelIs(data: seq<Byte>, p: nat, level: nat) {
    4 * p + 2 < |data| && data[4 * p] == level && data[4 * p + 1] == level && data[4 * p + 2] == level
  }

  lemma BlockIsNear(data: seq<Byte>, width: nat, x: nat, y: nat, symbol: nat)
    requires symbol < 8 && BlockIs(data, width, x, y, Level(symbol))
    ensures Near(Total(data, width, x, y), symbol)
  {
    hide PixelNumber, Level;
    assert PixelIs(data, PixelNumber(width, x, y), Level(symbol));
    assert PixelIs(data, PixelNumber(width, x, y + 1), Level(symbol));
    assert PixelIs(data, PixelNumber(width, x + 1, y), Level(symbol));
    assert PixelIs(data, PixelNumber(width, x + 1, y + 1), Level(symbol));
  }

  // ----- disjoint blocks

  lemma PixelUnique(width: nat, x: nat, y: nat, u: nat, v: nat)
    requires x < width && u < width
    ensures PixelNumber(width, x, y) == PixelNumber(width, u, v) <==> x == u && y == v
  {
    if PixelNumber(width, x, y) == PixelNumber(width, u, v) {
      G.DivModUnique(PixelNumber(width, x, y), width, y, x);
      G.DivModUnique(PixelNumber(width, u, v), width, v, u);
    }
  }

  // Blocks at even coordinates inside the width do not overlap.
  lemma BlocksDisjoint(width: nat, x: nat, y: nat, u: nat, v: nat, p: nat)
    requires x % 2 == 0 && y % 2 == 0 && u % 2 == 0 && v % 2 == 0
    requires x + 2 <= width && u + 2 <= width
    requires InBlock(width, x, y, p) && InBlock(width, u, v, p)
    ensures x == u && y == v
  {
    hide PixelNumber;
    var a := if p == PixelNumber(width, x, y) || p == PixelNumber(width, x, y + 1) then x else x + 1;
    var b := if p == PixelNumber(width, a, y) then y else y + 1;
    var c := if p == PixelNumber(width, u, v) || p == PixelNumber(width, u, v + 1) then u else u + 1;
    var d := if p == PixelNumber(width, c, v) then v else v + 1;
    PixelUnique(width, a, b, c, d);
  }

  // Painting a block leaves a different block as it is.
  lemma BlockKept(
    before: seq<Byte>, after: seq<Byte>, width: nat, x: nat, y: nat, level: nat, u: nat, v: nat, other: nat)
    requires |before| == |after|
    requires forall q | 0 <= q < |after| ::
        after[q] == if q % 4 != 3 && InBlock(width, x, y, q / 4) then level else before[q]
    requires x % 2 == 0 && y % 2 == 0 && u % 2 == 0 && v % 2 == 0
    requires x + 2 <= width && u + 2 <= width && (x != u || y != v)
    requires BlockIs(before, width, u, v, other)
    ensures BlockIs(after, width, u, v, other)
  {
    hide InBlock;
    forall p: nat | InBlock(width, u, v, p)
      ensures PixelIs(after, p, other)
    {
      if InBlock(width, x, y, p) {
        BlocksDisjoint(width, x, y, u, v, p);
      }
      assert PixelIs(before, p, other);
      assert 4 * p / 4 == p && (4 * p + 1) / 4 == p && (4 * p + 2) / 4 == p;
    }
  }

  lemma PixelMonotonic(width: nat, x: nat, y: nat, u: nat, v: nat)
    requires x <= u && y <= v
    ensures PixelNumber(width, x, y) <= PixelNumber(width, u, v)
  {
    G.RowMonotonic(y, v, width);
  }

  lemma BlockFits(width: nat, height: nat, x: nat, y: nat)
    requires x + 2 <= width && y + 2 <= height
    ensures Inside(4 * (width * height), width, x, y)
  {
    G.RowMonotonic(y + 2, height, width);
    assert (y + 2) * width == (y + 1) * width + width;
    assert width * height == height * width;
  }

  // ----- blocks painted one over the other

  // A block that has just been painted
  lemma NewBlock(before: seq<Byte>, after: seq<Byte>, width: nat, x: nat, y: nat, level: nat)
    requires |before| == |after| && Inside(|after|, width, x, y)
    requires forall q | 0 <= q < |after| ::
        after[q] == if q % 4 != 3 && InBlock(width, x, y, q / 4) then level else before[q]
    ensures BlockIs(after, width, x, y, level)
  {
    PixelOrder(width, x, y);
    hide PixelNumber;
    forall p: nat | InBlock(width, x, y, p)
      ensures PixelIs(after, p, level)
    {
      assert 4 * p / 4 == p && (4 * p + 1) / 4 == p && (4 * p + 2) / 4 == p;
      assert (4 * p) % 4 == 0 && (4 * p + 1) % 4 == 1 && (4 * p + 2) % 4 == 2;
    }
  }

  datatype Block = Block(x: nat, y: nat, symbol: nat)

  predicate Covers(width: nat, b: Block, p: nat) {
    InBlock(width, b.x, b.y, p)
  }

  // Block k is the last one that covers pixel p.
  ghost predicate LastAt(width: nat, blocks: seq<Block>, k: nat, p: nat) {
    k < |blocks| && Covers(width, blocks[k], p) && FreeOf(width, blocks[k + 1..], p)
  }

  ghost predicate FreeOf(width: nat, blocks: seq<Block>, p: nat) {
    forall j | 0 <= j < |blocks| :: !Covers(width, blocks[j], p)
  }

  ghost predicate SamePixel(before: seq<Byte>, after: seq<Byte>, p: nat)
    requires |before| == |after|
  {
    && (4 * p < |after| ==> after[4 * p] == before[4 * p])
    && (4 * p + 1 < |after| ==> after[4 * p + 1] == before[4 * p + 1])
    && (4 * p + 2 < |after| ==> after[4 * p + 2] == before[4 * p + 2])
  }

  // The blocks have been painted in this order: a pixel has the level of the last block that covers it, and
  // is as before where there is none; opacity is as before everywhere.
  ghost predicate PaintedBy(start: seq<Byte>, data: seq<Byte>, width: nat, blocks: seq<Block>) {
    && |data| == |start| && (forall k | 0 <= k < |blocks| :: blocks[k].symbol < 8)
    && (forall q | 0 <= q < |data| && q % 4 == 3 :: data[q] == start[q])
    && (forall k: nat, p: nat | LastAt(width, blocks, k, p) :: PixelIs(data, p, Level(blocks[k].symbol)))
    && (forall p: nat | FreeOf(width, blocks, p) :: SamePixel(start, data, p))
  }

  lemma PaintedNothing(data: seq<Byte>, width: nat)
    ensures PaintedBy(data, data, width, [])
  {}

  // What SetBlock has done to a buffer
  ghost predicate BlockSet(before: seq<Byte>, after: seq<Byte>, width: nat, b: Block)
  {
    && b.symbol < 8 && |before| == |after| && Inside(|after|, width, b.x, b.y)
    && forall q | 0 <= q < |after| ::
         after[q] == if q % 4 != 3 && InBlock(width, b.x, b.y, q / 4) then Level(b.symbol) else before[q]
  }

  lemma PixelKept(before: seq<Byte>, after: seq<Byte>, width: nat, b: Block, p: nat)
    requires BlockSet(before, after, width, b) && !Covers(width, b, p)
    ensures SamePixel(before, after, p)
  {
    hide InBlock, Level, Inside;
    assert 4 * p / 4 == p && (4 * p + 1) / 4 == p && (4 * p + 2) / 4 == p;
  }

  lemma PaintedMore(start: seq<Byte>, before: seq<Byte>, after: seq<Byte>, width: nat, blocks: seq<Block>, b: Block)
    requires PaintedBy(start, before, width, blocks) && BlockSet(before, after, width, b)
    ensures PaintedBy(start, after, width, blocks + [b])
  {
    hide Covers, Level, BlockIs, InBlock, Inside;
    var all := blocks + [b];
    PaintedHere(before, after, width, b);
    forall k: nat, p: nat | LastAt(width, all, k, p)
      ensures PixelIs(after, p, Level(all[k].symbol))
    {
      if k < |blocks| {
        assert all[k + 1..] == blocks[k + 1..] + [b];
        FreeOfBoth(width, blocks[k + 1..], [b], p);
        assert [b][0] == b;
        assert LastAt(width, blocks, k, p);
        PixelKept(before, after, width, b, p);
      }
    }
    forall p: nat | FreeOf(width, all, p)
      ensures SamePixel(start, after, p)
    {
      FreeOfBoth(width, blocks, [b], p);
      assert [b][0] == b;
      PixelKept(before, after, width, b, p);
    }
  }

  lemma PaintedHere(before: seq<Byte>, after: seq<Byte>, width: nat, b: Block)
    requires BlockSet(before, after, width, b)
    ensures forall p: nat | Covers(width, b, p) :: PixelIs(after, p, Level(b.symbol))
    ensures forall q | 0 <= q < |after| && q % 4 == 3 :: after[q] == before[q]
  {
    hide InBlock, Level;
    NewBlock(before, after, width, b.x, b.y, Level(b.symbol));
  }

  // Painting some blocks and then others is painting all of them.
  lemma PaintedBoth(start: seq<Byte>, middle: seq<Byte>, data: seq<Byte>, width: nat, a: seq<Block>, b: seq<Block>)
    requires PaintedBy(start, middle, width, a) && PaintedBy(middle, data, width, b)
    ensures PaintedBy(start, data, width, a + b)
  {
    hide Covers, Level;
    forall k: nat, p: nat | LastAt(width, a + b, k, p)
      ensures PixelIs(data, p, Level((a + b)[k].symbol))
    {
      if k < |a| {
        assert (a + b)[k + 1..] == a[k + 1..] + b;
        FreeOfBoth(width, a[k + 1..], b, p);
        assert LastAt(width, a, k, p);
        assert SamePixel(middle, data, p);
      } else {
        assert (a + b)[k + 1..] == b[k - |a| + 1..];
        assert LastAt(width, b, k - |a|, p);
      }
    }
    forall p: nat | FreeOf(width, a + b, p)
      ensures SamePixel(start, data, p)
    {
      FreeOfBoth(width, a, b, p);
      assert SamePixel(start, middle, p) && SamePixel(middle, data, p);
    }
  }

  lemma FreeOfBoth(width: nat, a: seq<Block>, b: seq<Block>, p: nat)
    ensures FreeOf(width, a + b, p) <==> FreeOf(width, a, p) && FreeOf(width, b, p)
  {
    hide Covers;
    if FreeOf(width, a + b, p) {
      assert forall j | 0 <= j < |a| :: a[j] == (a + b)[j];
      assert forall j | 0 <= j < |b| :: b[j] == (a + b)[|a| + j];
    }
  }
}
