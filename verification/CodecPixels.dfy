/**
 Aesthete images by the numbers in their pixels: when a cell is read as a character, and the colour of
 every pixel of a drawn image.
 */
module CodecPixels {
  import opened Base64Symbols
  import opened ImageCoder
  import opened Codec
  import G = Grid

  // ----- reading

  function PixelSum(p: Pixel): nat {
    p.r + p.g + p.b
  }

  // The twelve numbers of the four pixels of the square at (x, y)
  function SquareSum(img: Image, x: nat, y: nat): nat
    requires img.Valid() && x + 1 < img.width && y + 1 < img.height
  {
    var p := img.rows;
    PixelSum(p[y][x]) + PixelSum(p[y][x + 1]) + PixelSum(p[y + 1][x]) + PixelSum(p[y + 1][x + 1])
  }

  // Twelve numbers whose average is from 14 below the level 238 - 28 s up to 14 above it, or any higher one for s = 0
  predicate InBand(sum: nat, s: nat) {
    12 * (224 - 28 * s) <= sum && (s == 0 || sum < 12 * (252 - 28 * s))
  }

  lemma SumOfMean(img: Image, x: nat, y: nat)
    requires img.Valid() && x + 1 < img.width && y + 1 < img.height
    ensures 12.0 * SquareMean(img, x, y) == SquareSum(img, x, y) as real
  {}

  lemma SquareSymbol(img: Image, x: nat, y: nat, s: nat)
    requires img.Valid() && x + 1 < img.width && y + 1 < img.height && s < 8
    ensures NearestSymbol(SquareMean(img, x, y)) == s <==> InBand(SquareSum(img, x, y), s)
  {
    hide SquareMean, SquareSum, NearestSymbol;
    SumOfMean(img, x, y);
    NearestSymbolBand(SquareMean(img, x, y), s);
  }

  lemma SquareBlack(img: Image, x: nat, y: nat)
    requires img.Valid() && x + 1 < img.width && y + 1 < img.height
    ensures NearestSymbol(SquareMean(img, x, y)) == 8 <==> SquareSum(img, x, y) < 336
  {
    hide SquareMean, SquareSum, NearestSymbol;
    SumOfMean(img, x, y);
    NearestSymbolBand(SquareMean(img, x, y), 8);
  }

  // A cell is read as character i of the alphabet exactly if its left square is in the band of the first octal digit
  // of i, and its right square in that of the second.
  lemma {:induction false} CellReadIff(img: Image, c: G.Cell, i: nat)
    requires img.Valid() && 4 * c.column + 3 < img.width && 2 * c.row + 1 < img.height && i < 64
    ensures |ALPHABET| == 64
    ensures ReadCell(img, c) == [ALPHABET[i]] <==>
              && InBand(SquareSum(img, 4 * c.column, 2 * c.row), i / 8)
              && InBand(SquareSum(img, 4 * c.column + 2, 2 * c.row), i % 8)
  {
    hide SquareMean, SquareSum, NearestSymbol, InBand, CharOf;
    SquareSymbol(img, 4 * c.column, 2 * c.row, i / 8);
    SquareSymbol(img, 4 * c.column + 2, 2 * c.row, i % 8);
    AlphabetOrder(i);
    var s0 := NearestSymbol(SquareMean(img, 4 * c.column, 2 * c.row));
    var s1 := NearestSymbol(SquareMean(img, 4 * c.column + 2, 2 * c.row));
    if s0 < 8 && s1 < 8 {
      SameChar(8 * s0 + s1, i);
    }
  }

  lemma SameChar(i: nat, j: nat)
    requires i < 64 && j < 64
    ensures CharOf(i) == CharOf(j) <==> i == j
  {
    hide CharOf, IndexOf;
    IndexOfChar(i);
    IndexOfChar(j);
  }

  // It is read as empty exactly if one of its squares is nearer to black.
  lemma {:induction false} CellEmptyIff(img: Image, c: G.Cell)
    requires img.Valid() && 4 * c.column + 3 < img.width && 2 * c.row + 1 < img.height
    ensures ReadCell(img, c) == "" <==>
              SquareSum(img, 4 * c.column, 2 * c.row) < 336 || SquareSum(img, 4 * c.column + 2, 2 * c.row) < 336
  {
    hide SquareMean, SquareSum, NearestSymbol, CharOf;
    SquareBlack(img, 4 * c.column, 2 * c.row);
    SquareBlack(img, 4 * c.column + 2, 2 * c.row);
  }

  // The header's cells are read two to a row.
  lemma {:induction false} HeaderOrder(img: Image)
    requires img.Valid() && img.width >= 8 && img.height >= 8
    ensures HeaderText(img, 8) ==
            ReadCell(img, G.Cell(0, 0)) + ReadCell(img, G.Cell(1, 0)) + ReadCell(img, G.Cell(0, 1)) +
            ReadCell(img, G.Cell(1, 1)) + ReadCell(img, G.Cell(0, 2)) + ReadCell(img, G.Cell(1, 2)) +
            ReadCell(img, G.Cell(0, 3)) + ReadCell(img, G.Cell(1, 3))
  {
    hide ReadCell;
    assert HeaderText(img, 0) == "";
    assert HeaderText(img, 2) == ReadCell(img, G.Cell(0, 0)) + ReadCell(img, G.Cell(1, 0));
    assert HeaderText(img, 4) == HeaderText(img, 2) + ReadCell(img, G.Cell(0, 1)) + ReadCell(img, G.Cell(1, 1));
    assert HeaderText(img, 6) == HeaderText(img, 4) + ReadCell(img, G.Cell(0, 2)) + ReadCell(img, G.Cell(1, 2));
    assert HeaderText(img, 8) == HeaderText(img, 6) + ReadCell(img, G.Cell(0, 3)) + ReadCell(img, G.Cell(1, 3));
  }

  // ----- writing

  // The left edge of the cell of character i, in an image n cells wide: two to a row in the header, then the rows
  // beside the header, then full rows
  function BaseX(n: nat, i: nat): nat
    requires i < 8 || n >= 2
  {
    if i < 8 then 4 * (i % 2)
    else if i - 8 < (n - 2) * 4 then 8 + 4 * ((i - 8) % (n - 2))
    else 4 * (i % n)
  }

  function BaseY(n: nat, i: nat): nat
    requires i < 8 || n >= 2
  {
    if i < 8 then 2 * (i / 2)
    else if i - 8 < (n - 2) * 4 then 2 * ((i - 8) / (n - 2))
    else 2 * (i / n)
  }

  // The pixel in column dx and row dy of the cell of character i is gray: 238 less 28 times an octal digit of the
  // character's place in the alphabet, the first digit on the left.
  lemma {:induction false} PictureAt(data: string, n: nat, h: nat, i: nat, place: nat, dx: nat, dy: nat)
    requires AllBase64(data) && |data| <= n * h && HeaderFits(|data|, n, h) && i < |data| && dx < 4 && dy < 2
    requires place < |ALPHABET| == 64 && data[i] == ALPHABET[place]
    ensures (i < 8 || n >= 2) && BaseX(n, i) + 4 <= 4 * n && BaseY(n, i) + 2 <= 2 * h
    ensures var level := 238 - 28 * (if dx < 2 then place / 8 else place % 8);
            Picture(data, n, h).rows[BaseY(n, i) + dy][BaseX(n, i) + dx] == Pixel(level, level, level)
  {
    hide IndexOf, CellChar;
    AlphabetOrder(place);
    HeaderInside(|data|, n, h, i);
    BaseIsPlace(n, h, i);
    var c := Place(n, i);
    PlaceOfChar(n, i, c);
    assert G.Cell((BaseX(n, i) + dx) / 4, (BaseY(n, i) + dy) / 2) == c && (BaseX(n, i) + dx) % 4 == dx;
  }

  lemma BaseIsPlace(n: nat, h: nat, i: nat)
    requires i < n * h && if i < 8 then i % 2 < n && i / 2 < h else n >= 2 && h >= 4
    ensures Place(n, i) == G.Cell(BaseX(n, i) / 4, BaseY(n, i) / 2)
    ensures BaseX(n, i) % 4 == 0 && BaseY(n, i) % 2 == 0
    ensures BaseX(n, i) + 4 <= 4 * n && BaseY(n, i) + 2 <= 2 * h
  {
    if i >= 8 {
      G.IndexOfCell(n, i - 8);
      G.CellInside(n, h, i - 8);
    }
  }

  lemma HeaderInside(length: nat, n: nat, h: nat, i: nat)
    requires HeaderFits(length, n, h) && i < length
    ensures if i < 8 then i % 2 < n && i / 2 < h else n >= 2 && h >= 4
    ensures n >= 2 || i == 0
  {
    if i >= 8 {
      assert 1 % 2 < n && 7 / 2 < h;
    } else if i > 0 {
      assert 1 % 2 < n;
    }
  }

  // A pixel that is not black belongs to the cell of some character.
  lemma PixelOrigin(data: string, n: nat, h: nat, x: nat, y: nat) returns (i: nat)
    requires AllBase64(data) && |data| <= n * h && HeaderFits(|data|, n, h) && x < 4 * n && y < 2 * h
    requires Picture(data, n, h).rows[y][x] != Pixel(0, 0, 0)
    ensures i < |data| && (i < 8 || n >= 2)
    ensures BaseX(n, i) <= x < BaseX(n, i) + 4 && BaseY(n, i) <= y < BaseY(n, i) + 2
  {
    hide IndexOf, CellChar, CharLevel, G.CellOf, G.IndexOf;
    var c := G.Cell(x / 4, y / 2);
    i := CellChar(n, c);
    HeaderInside(|data|, n, h, i);
    PlaceOfChar(n, i, c);
    BaseIsPlace(n, h, i);
  }
}
