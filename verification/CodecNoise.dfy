/**
 What decoding an aesthete image gives after noise: the payload, as long as the average of every
 square stays in the band of its gray level. Averages are stated as sums of the numbers in the pixels.
 */
module CodecNoise {
  import opened Base64Symbols
  import opened ImageCoder
  import opened Codec
  import opened CodecPixels
  import G = Grid

  // The average of the square's twelve numbers is in the band of a gray level.
  ghost predicate SquareNear(img: Image, x: nat, y: nat, level: int)
    requires img.Valid() && x + 1 < img.width && y + 1 < img.height
  {
    12 * (level - 14) <= SquareSum(img, x, y) < 12 * (level + 14)
  }

  ghost predicate CellShows(img: Image, c: G.Cell, ch: char)
    requires img.Valid() && 4 * c.column + 3 < img.width && 2 * c.row + 1 < img.height
  {
    && IsBase64(ch)
    && SquareNear(img, 4 * c.column, 2 * c.row, CharLevel(ch, 0))
    && SquareNear(img, 4 * c.column + 2, 2 * c.row, CharLevel(ch, 1))
  }

  ghost predicate CellBlack(img: Image, c: G.Cell)
    requires img.Valid() && 4 * c.column + 3 < img.width && 2 * c.row + 1 < img.height
  {
    SquareSum(img, 4 * c.column, 2 * c.row) < 336 || SquareSum(img, 4 * c.column + 2, 2 * c.row) < 336
  }

  // A cell holds the character of the payload that belongs there, or no character.
  ghost predicate SlotNear(img: Image, n: nat, h: nat, payload: string, k: nat)
    requires img.IsGrid(n, h) && k + G.HEADER_CELLS < n * h
  {
    CellReadable(n, h, k);
    if k < |payload| then CellShows(img, G.CellOf(n, k), payload[k]) else CellBlack(img, G.CellOf(n, k))
  }

  ghost predicate ImageNear(img: Image, n: nat, h: nat, payload: string)
    requires img.IsGrid(n, h)
  {
    forall k: nat | k + G.HEADER_CELLS < n * h :: SlotNear(img, n, h, payload, k)
  }

  lemma CellShowsReads(img: Image, c: G.Cell, ch: char)
    requires img.Valid() && 4 * c.column + 3 < img.width && 2 * c.row + 1 < img.height
    requires CellShows(img, c, ch)
    ensures ReadCell(img, c) == [ch]
  {
    hide SquareSum, ReadCell, CharOf, IndexOf;
    CharOfIndex(ch);
    AlphabetOrder(IndexOf(ch).value);
    CellReadIff(img, c, IndexOf(ch).value);
  }

  lemma CellBlackReads(img: Image, c: G.Cell)
    requires img.Valid() && 4 * c.column + 3 < img.width && 2 * c.row + 1 < img.height
    requires CellBlack(img, c)
    ensures ReadCell(img, c) == ""
  {
    hide SquareSum, ReadCell;
    CellEmptyIff(img, c);
  }

  lemma {:induction false} PrefixReads(img: Image, n: nat, h: nat, payload: string, k: nat)
    requires img.IsGrid(n, h) && k + G.HEADER_CELLS <= n * h && ImageNear(img, n, h, payload)
    ensures ReadCells(img, n, h, k) == if k < |payload| then payload[..k] else payload
  {
    hide CellShows, CellBlack, ReadCell, G.CellOf;
    if k > 0 {
      PrefixReads(img, n, h, payload, k - 1);
      CellReadable(n, h, k - 1);
      assert SlotNear(img, n, h, payload, k - 1);
      if k - 1 < |payload| {
        CellShowsReads(img, G.CellOf(n, k - 1), payload[k - 1]);
        assert payload[..k - 1] + [payload[k - 1]] == payload[..k];
      } else {
        CellBlackReads(img, G.CellOf(n, k - 1));
      }
    }
  }

  // Decoding returns the payload of an image whose squares keep to their bands.
  lemma {:induction false} DecodeRecovers(img: Image, n: nat, h: nat, payload: string)
    requires img.IsGrid(n, h) && |payload| + G.HEADER_CELLS <= n * h && ImageNear(img, n, h, payload)
    ensures ReadCells(img, n, h, n * h - G.HEADER_CELLS) == payload
  {
    hide ReadCells, ImageNear;
    PrefixReads(img, n, h, payload, n * h - G.HEADER_CELLS);
  }

  // ----- noise on the pixels of a drawn image

  // The data behind the header
  function Payload(data: string): string {
    if |data| <= G.HEADER_CELLS then "" else data[G.HEADER_CELLS..]
  }

  ghost predicate PixelNear(img: Image, data: string, n: nat, x: nat, y: nat)
    requires img.Valid() && x < img.width && y < img.height && AllBase64(data)
  {
    var level := Expected(data, n, x, y).r;
    3 * (level - 14) <= PixelSum(img.rows[y][x]) < 3 * (level + 14)
  }

  // Every pixel is off its gray level by at least -14 and below +14.
  ghost predicate PixelsNear(img: Image, data: string, n: nat)
    requires img.Valid() && AllBase64(data)
  {
    forall x: nat, y: nat | x < img.width && y < img.height :: PixelNear(img, data, n, x, y)
  }

  // The four pixels of a square are meant to be alike.
  lemma SquareKeepsBand(img: Image, data: string, n: nat, column: nat, row: nat, x: nat, y: nat)
    requires x == 2 * column && y == 2 * row
    requires img.Valid() && AllBase64(data) && x + 1 < img.width && y + 1 < img.height && PixelsNear(img, data, n)
    ensures SquareNear(img, x, y, Expected(data, n, x, y).r)
  {
    hide Expected, PixelSum;
    SameSquare(data, n, column, row, x, y);
    assert PixelNear(img, data, n, x, y) && PixelNear(img, data, n, x + 1, y);
    assert PixelNear(img, data, n, x, y + 1) && PixelNear(img, data, n, x + 1, y + 1);
  }

  lemma SameSquare(data: string, n: nat, column: nat, row: nat, x: nat, y: nat)
    requires AllBase64(data) && x == 2 * column && y == 2 * row
    ensures Expected(data, n, x + 1, y) == Expected(data, n, x, y)
    ensures Expected(data, n, x, y + 1) == Expected(data, n, x, y)
    ensures Expected(data, n, x + 1, y + 1) == Expected(data, n, x, y)
  {
    hide CellChar, CharLevel;
    assert (x + 1) / 4 == x / 4 && (x + 1) % 4 / 2 == x % 4 / 2 && (y + 1) / 2 == y / 2;
  }

  // A cell shows its character of the data, or is black.
  lemma CellKeepsBand(img: Image, n: nat, h: nat, data: string, c: G.Cell)
    requires img.IsGrid(n, h) && AllBase64(data) && PixelsNear(img, data, n) && c.column < n && c.row < h
    ensures var i := CellChar(n, c);
            if 0 <= i < |data| then CellShows(img, c, data[i]) else CellBlack(img, c)
  {
    hide *;
    CellInImage(img, n, h, c);
    CellSquares(img, data, n, c);
    CellFromSquares(img, data, n, c);
  }

  lemma CellSquares(img: Image, data: string, n: nat, c: G.Cell)
    requires img.Valid() && 4 * c.column + 3 < img.width && 2 * c.row + 1 < img.height
    requires AllBase64(data) && PixelsNear(img, data, n)
    ensures SquareNear(img, 4 * c.column, 2 * c.row, Expected(data, n, 4 * c.column, 2 * c.row).r)
    ensures SquareNear(img, 4 * c.column + 2, 2 * c.row, Expected(data, n, 4 * c.column + 2, 2 * c.row).r)
  {
    hide *;
    SquareKeepsBand(img, data, n, 2 * c.column, c.row, 4 * c.column, 2 * c.row);
    SquareKeepsBand(img, data, n, 2 * c.column + 1, c.row, 4 * c.column + 2, 2 * c.row);
  }

  lemma CellFromSquares(img: Image, data: string, n: nat, c: G.Cell)
    requires img.Valid() && 4 * c.column + 3 < img.width && 2 * c.row + 1 < img.height && AllBase64(data)
    requires SquareNear(img, 4 * c.column, 2 * c.row, Expected(data, n, 4 * c.column, 2 * c.row).r)
    requires SquareNear(img, 4 * c.column + 2, 2 * c.row, Expected(data, n, 4 * c.column + 2, 2 * c.row).r)
    ensures var i := CellChar(n, c);
            if 0 <= i < |data| then CellShows(img, c, data[i]) else CellBlack(img, c)
  {
    hide CharLevel, SquareSum, SquareNear, CellBlack, Expected, CellChar, IsBase64, Image.Valid;
    ExpectedInCell(data, n, c);
    BlackSquare(img, c);
  }

  lemma CellInImage(img: Image, n: nat, h: nat, c: G.Cell)
    requires img.IsGrid(n, h) && c.column < n && c.row < h
    ensures img.Valid() && 4 * c.column + 3 < img.width && 2 * c.row + 1 < img.height
  {}

  lemma BlackSquare(img: Image, c: G.Cell)
    requires img.Valid() && 4 * c.column + 3 < img.width && 2 * c.row + 1 < img.height
    ensures SquareNear(img, 4 * c.column, 2 * c.row, 0) ==> CellBlack(img, c)
  {
    hide SquareSum;
  }

  lemma SlotKeepsBand(img: Image, n: nat, h: nat, data: string, k: nat)
    requires img.IsGrid(n, h) && AllBase64(data) && PixelsNear(img, data, n)
    requires k + G.HEADER_CELLS < n * h
    ensures SlotNear(img, n, h, Payload(data), k)
  {
    hide PixelsNear, CellShows, CellBlack, CellChar, G.CellOf;
    CellReadable(n, h, k);
    SlotChar(n, k);
    CellKeepsBand(img, n, h, data, G.CellOf(n, k));
  }

  // The header comes back, too.
  lemma {:induction false} HeaderComesBack(img: Image, n: nat, h: nat, data: string, k: nat)
    requires img.IsGrid(n, h) && AllBase64(data) && PixelsNear(img, data, n) && k <= G.HEADER_CELLS
    ensures HeaderText(img, k) == if k < |data| then data[..k] else data
  {
    hide PixelsNear, CellShows, CellBlack, ReadCell;
    if k > 0 {
      HeaderComesBack(img, n, h, data, k - 1);
      var c := G.Cell((k - 1) % 2, (k - 1) / 2);
      CellKeepsBand(img, n, h, data, c);
      if k - 1 < |data| {
        CellShowsReads(img, c, data[k - 1]);
      } else {
        CellBlackReads(img, c);
      }
    }
  }

  lemma SlotChar(n: nat, k: nat)
    requires n >= G.HEADER_COLUMNS
    ensures CellChar(n, G.CellOf(n, k)) == k + G.HEADER_CELLS
  {
    hide G.CellOf;
    G.IndexOfCell(n, k);
    PlaceOfChar(n, k + G.HEADER_CELLS, G.CellOf(n, k));
  }

  lemma ExpectedInCell(data: string, n: nat, c: G.Cell)
    requires AllBase64(data)
    ensures var i := CellChar(n, c);
            if 0 <= i < |data| then
              && Expected(data, n, 4 * c.column, 2 * c.row).r == CharLevel(data[i], 0)
              && Expected(data, n, 4 * c.column + 2, 2 * c.row).r == CharLevel(data[i], 1)
            else Expected(data, n, 4 * c.column, 2 * c.row).r == 0
  {
    hide CellChar, CharLevel;
    assert G.Cell(4 * c.column / 4, 2 * c.row / 2) == c && G.Cell((4 * c.column + 2) / 4, 2 * c.row / 2) == c;
  }

  // Decoding undoes encoding, even when every pixel is off by at least -14 and below +14 levels.
  lemma {:induction false} DecodeUndoesEncode(img: Image, n: nat, h: nat, data: string)
    requires img.IsGrid(n, h) && |data| <= n * h && AllBase64(data) && PixelsNear(img, data, n)
    ensures ReadCells(img, n, h, n * h - G.HEADER_CELLS) == Payload(data)
  {
    hide ReadCells, SlotNear, PixelsNear;
    forall k: nat | k + G.HEADER_CELLS < n * h
      ensures SlotNear(img, n, h, Payload(data), k)
    {
      SlotKeepsBand(img, n, h, data, k);
    }
    DecodeRecovers(img, n, h, Payload(data));
  }

  // The drawn image itself is such an image.
  lemma {:induction false} PictureIsNear(data: string, n: nat, h: nat)
    requires AllBase64(data) && n >= G.HEADER_COLUMNS && h >= G.HEADER_ROWS
    ensures Picture(data, n, h).IsGrid(n, h) && PixelsNear(Picture(data, n, h), data, n)
  {
    hide CellChar, CharLevel;
  }

  // ----- both ways

  // What the picture of the data becomes on its way, at any size, has the same size and stays near.
  ghost predicate KeepsNear(transmit: Image -> Image, data: string)
    requires AllBase64(data)
  {
    forall n: nat, h: nat | n >= G.HEADER_COLUMNS && h >= G.HEADER_ROWS :: ArrivesNear(transmit, data, n, h)
  }

  ghost predicate ArrivesNear(transmit: Image -> Image, data: string, n: nat, h: nat)
    requires AllBase64(data)
  {
    var arrived := transmit(Picture(data, n, h));
    arrived.IsGrid(n, h) && PixelsNear(arrived, data, n)
  }

  // Encode data with a full header, send the image, and decode what arrives. root is the square root that the
  // source takes for the width.
  method RoundTrip(codec: Codec, data: string, root: real, transmit: Image -> Image)
    returns (ok: bool, header: string, n: nat, h: nat)
    requires codec.whRatio > 0.0 && |data| >= G.HEADER_CELLS
    requires codec.fixedWidth == 0 ==> root > 0.0 && root * root == codec.whRatio * |data| as real / 2.0
    requires AllBase64(data) ==> KeepsNear(transmit, data)
    modifies codec
    ensures ok <==> codec.HasDimensions(data) && AllBase64(data) && HeaderFits(|data|, n, h)
    ensures codec.HasDimensions(data) ==> codec.Dimensions(|data|, root, n, h)
    ensures ok ==> header == data[..G.HEADER_CELLS] && codec.result == Extracted(data[G.HEADER_CELLS..])
  {
    hide AllBase64, Picture, PixelsNear, ReadCells, HeaderText, CanPaint;
    var done;
    ok, n, h, done := codec.Encode(data, root);
    header := "";
    if ok {
      HeaderNeedsGrid(|data|, n, h);
      var arrived := transmit(codec.result.image);
      assert ArrivesNear(transmit, data, n, h);
      header := codec.Decode(arrived, n, h);
      HeaderComesBack(arrived, n, h, data, G.HEADER_CELLS);
      DecodeUndoesEncode(arrived, n, h, data);
      assert data[..G.HEADER_CELLS] == if G.HEADER_CELLS < |data| then data[..G.HEADER_CELLS] else data;
      assert Payload(data) == data[G.HEADER_CELLS..];
    }
  }

  // An image that holds the header has room for all its cells.
  lemma HeaderNeedsGrid(length: nat, n: nat, h: nat)
    requires HeaderFits(length, n, h) && length >= G.HEADER_CELLS
    ensures n >= G.HEADER_COLUMNS && h >= G.HEADER_ROWS
  {
    assert 1 % 2 < n && 7 / 2 < h;
  }
}
