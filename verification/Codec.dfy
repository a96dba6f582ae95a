/**
 The aesthete codec of desktop/Codec.py with the two_square shape: a string of base64 characters,
 the first eight of them a header, becomes gray squares of 2 by 2 pixels, and is read back by the
 mean of every square. Squares without a character stay black.
 */
module Codec {
  import opened Base64Symbols
  import opened ImageCoder
  import opened ImageDimensions
  import G = Grid

  datatype Pixel = Pixel(r: nat, g: nat, b: nat)

  const BLACK := Pixel(0, 0, 0)

  function Gray(level: nat): Pixel {
    Pixel(level, level, level)
  }

  // Rows of pixels, from the top
  datatype Image = Image(width: nat, height: nat, rows: seq<seq<Pixel>>) {
    ghost predicate Valid() {
      |rows| == height && forall y | 0 <= y < height :: |rows[y]| == width
    }

    // n by h cells, with room for the header
    ghost predicate IsGrid(n: nat, h: nat) {
      Valid() && width == 4 * n && height == 2 * h && n >= G.HEADER_COLUMNS && h >= G.HEADER_ROWS
    }
  }

  // ----- reading

  function PixelMean(p: Pixel): real {
    (p.r as real + p.g as real + p.b as real) / 3.0
  }

  // The average over the four pixels of the square at (x, y)
  function SquareMean(img: Image, x: nat, y: nat): real
    requires img.Valid() && x + 1 < img.width && y + 1 < img.height
  {
    (PixelMean(img.rows[y][x]) + PixelMean(img.rows[y][x + 1]) + PixelMean(img.rows[y + 1][x + 1])
        + PixelMean(img.rows[y + 1][x])) / 4.0
  }

  // The character in a cell; a black square makes the cell empty.
  function ReadCell(img: Image, c: G.Cell): string
    requires img.Valid() && 4 * c.column + 3 < img.width && 2 * c.row + 1 < img.height
  {
    var s0 := NearestSymbol(SquareMean(img, 4 * c.column, 2 * c.row));
    var s1 := NearestSymbol(SquareMean(img, 4 * c.column + 2, 2 * c.row));
    SymbolToMessage(s0, s1)
  }

  function SymbolToMessage(s0: nat, s1: nat): string
    requires s0 <= 8 && s1 <= 8
  {
    if s0 == 8 || s1 == 8 then "" else [CharOf(8 * s0 + s1)]
  }

  // The characters of the first k cells outside the header
  function ReadCells(img: Image, n: nat, h: nat, k: nat): string
    requires img.IsGrid(n, h) && k + G.HEADER_CELLS <= n * h
  {
    if k == 0 then ""
    else
      CellReadable(n, h, k - 1);
      ReadCells(img, n, h, k - 1) + ReadCell(img, G.CellOf(n, k - 1))
  }

  lemma CellReadable(n: nat, h: nat, k: nat)
    requires n >= G.HEADER_COLUMNS && h >= G.HEADER_ROWS && k + G.HEADER_CELLS < n * h
    ensures G.CellOf(n, k).column < n && G.CellOf(n, k).row < h
  {
    hide G.CellOf, G.IndexOf;
    G.IndexOfCell(n, k);
    G.CellInside(n, h, k);
  }

  // ----- writing

  // The place in the data of the character that belongs in a cell: the header's two columns first. A grid
  // that is narrower than the header has no other cells.
  function CellChar(n: nat, c: G.Cell): int {
    if G.InHeader(c) then 2 * c.row + c.column
    else if n >= G.HEADER_COLUMNS && c.column < n then G.IndexOf(n, c) + G.HEADER_CELLS
    else -1
  }

  // The cell of character i of the data
  function Place(n: nat, i: nat): G.Cell
    requires i < G.HEADER_CELLS || n >= G.HEADER_COLUMNS
  {
    if i < G.HEADER_CELLS then G.Cell(i % 2, i / 2) else G.CellOf(n, i - G.HEADER_CELLS)
  }

  lemma {:induction false} PlaceOfChar(n: nat, i: nat, c: G.Cell)
    requires c.column < n && (n >= G.HEADER_COLUMNS || i == 0)
    ensures CellChar(n, c) == i <==> c == Place(n, i)
  {
    hide G.CellOf;
    if n >= G.HEADER_COLUMNS {
      G.RowMonotonic(0, c.row, n - 2);
      G.RowMonotonic(4, c.row, n);
      if i >= G.HEADER_CELLS {
        G.IndexOfCell(n, i - G.HEADER_CELLS);
      }
      if !G.InHeader(c) {
        G.CellOfIndex(n, c);
      }
    }
  }

  // The gray level of one half of a cell that shows a character
  function CharLevel(ch: char, half: nat): nat
    requires IsBase64(ch) && half < 2
  {
    CharOfIndex(ch);
    var index := IndexOf(ch).value;
    Level(if half == 0 then index / 8 else index % 8)
  }

  // What the pixel at (x, y) of an image n cells wide should be
  function Expected(data: string, n: nat, x: nat, y: nat): Pixel
    requires AllBase64(data)
  {
    var i := CellChar(n, G.Cell(x / 4, y / 2));
    if 0 <= i < |data| then Gray(CharLevel(data[i], x % 4 / 2)) else BLACK
  }

  function Picture(data: string, n: nat, h: nat): Image
    requires AllBase64(data)
  {
    Image(4 * n, 2 * h, seq(2 * h, y requires 0 <= y < 2 * h =>
        seq(4 * n, x requires 0 <= x < 4 * n => Expected(data, n, x, y))))
  }

  // The header's characters fall inside the image; otherwise writing them raises an error.
  predicate HeaderFits(length: nat, n: nat, h: nat) {
    forall i | 0 <= i < length && i < G.HEADER_CELLS :: i % 2 < n && i / 2 < h
  }

  // The four pixels of one square
  method PaintSquare(pixel: array2<Pixel>, x: nat, y: nat, level: nat)
    requires x + 1 < pixel.Length0 && y + 1 < pixel.Length1
    modifies pixel
    ensures forall u, v | 0 <= u < pixel.Length0 && 0 <= v < pixel.Length1 ::
              pixel[u, v] == if x <= u <= x + 1 && y <= v <= y + 1 then Gray(level) else old(pixel[u, v])
  {
    pixel[x, y] := Gray(level);
    pixel[x + 1, y] := Gray(level);
    pixel[x + 1, y + 1] := Gray(level);
    pixel[x, y + 1] := Gray(level);
  }

  // The image shows the data, and nothing else.
  ghost predicate Showing(pixel: array2<Pixel>, data: string, n: nat)
    reads pixel
  {
    AllBase64(data) && forall x: nat, y: nat | x < pixel.Length0 && y < pixel.Length1 ::
        pixel[x, y] == Expected(data, n, x, y)
  }

  // Write character i of the data into its cell.
  method PaintCell(pixel: array2<Pixel>, data: string, n: nat, h: nat, i: nat)
    requires pixel.Length0 == 4 * n && pixel.Length1 == 2 * h && i < |data| && IsBase64(data[i])
    requires n >= G.HEADER_COLUMNS || i == 0
    requires Place(n, i).column < n && Place(n, i).row < h
    requires Showing(pixel, data[..i], n)
    modifies pixel
    ensures Showing(pixel, data[..i + 1], n)
  {
    hide G.CellOf, CellChar, CharLevel;
    var cell := Place(n, i);
    PaintSquare(pixel, 4 * cell.column, 2 * cell.row, CharLevel(data[i], 0));
    PaintSquare(pixel, 4 * cell.column + 2, 2 * cell.row, CharLevel(data[i], 1));
    forall x: nat, y: nat | x < pixel.Length0 && y < pixel.Length1
      ensures pixel[x, y] == Expected(data[..i + 1], n, x, y)
    {
      PlaceOfChar(n, i, G.Cell(x / 4, y / 2));
      assert old(pixel[x, y]) == Expected(data[..i], n, x, y);
    }
  }

  // Character i is in the alphabet and, if it is one of the header, in the image.
  predicate CanPaint(data: string, n: nat, h: nat, i: nat)
    requires i < |data|
  {
    IsBase64(data[i]) && (i < G.HEADER_CELLS ==> i % 2 < n && i / 2 < h)
  }

  // The loop over the header and the loop over the payload of encode; done characters were painted before the
  // first that cannot be.
  method Paint(data: string, n: nat, h: nat) returns (ok: bool, done: nat, image: Image)
    requires |data| <= n * h
    ensures ok <==> AllBase64(data) && HeaderFits(|data|, n, h)
    ensures ok ==> image == Picture(data, n, h)
    ensures done <= |data| && forall i | 0 <= i < done :: CanPaint(data, n, h, i)
    ensures if ok then done == |data| else done < |data| && !CanPaint(data, n, h, done)
  {
    hide G.CellOf, Expected, IsBase64;
    image, done := Image(0, 0, []), 0;
    var pixel := new Pixel[4 * n, 2 * h]((_, _) => BLACK);
    assert Showing(pixel, data[..0], n) by { NothingExpected(n); }
    for i := 0 to |data|
      invariant Showing(pixel, data[..i], n)
      invariant HeaderFits(i, n, h) && done == i
      invariant forall t | 0 <= t < i :: CanPaint(data, n, h, t)
    {
      if !IsBase64(data[i]) {
        return false, done, image;
      }
      if i < G.HEADER_CELLS {
        if !(i % 2 < n && i / 2 < h) {
          return false, done, image;
        }
      } else {
        assert 1 % 2 < n && 7 / 2 < h;
        CellReadable(n, h, i - G.HEADER_CELLS);
      }
      assert n >= G.HEADER_COLUMNS || i == 0 by {
        if i > 1 {
          assert 1 % 2 < n;
        }
      }
      PaintCell(pixel, data, n, h, i);
      done := done + 1;
    }
    assert data[..|data|] == data;
    ok := true;
    image := Image(4 * n, 2 * h,
        seq(2 * h, y requires 0 <= y < 2 * h reads pixel =>
            seq(4 * n, x requires 0 <= x < 4 * n reads pixel => pixel[x, y])));
    forall y | 0 <= y < 2 * h
      ensures image.rows[y] == Picture(data, n, h).rows[y]
    {
      assert forall x | 0 <= x < 4 * n :: pixel[x, y] == Expected(data, n, x, y);
    }
    assert image.rows == Picture(data, n, h).rows;
  }

  lemma NothingExpected(n: nat)
    ensures AllBase64("") && forall x: nat, y: nat :: Expected("", n, x, y) == BLACK
  {}

  // The symbols of the two squares at (x, y), and the character they stand for
  method ReadAt(image: Image, x: nat, y: nat, ghost column: nat, ghost row: nat) returns (message: string)
    requires image.Valid() && x == 4 * column && y == 2 * row && x + 3 < image.width && y + 1 < image.height
    ensures message == ReadCell(image, G.Cell(column, row))
  {
    hide NearestSymbol, SquareMean;
    var s0 := SignalToSymbol(SquareMean(image, x, y));
    var s1 := SignalToSymbol(SquareMean(image, x + 2, y));
    message := SymbolToMessage(s0, s1);
  }

  // The characters of the first k cells of the header
  function HeaderText(img: Image, k: nat): string
    requires img.Valid() && img.width >= 8 && img.height >= 8 && k <= G.HEADER_CELLS
  {
    if k == 0 then "" else HeaderText(img, k - 1) + ReadCell(img, G.Cell((k - 1) % 2, (k - 1) / 2))
  }

  // The loop of decode over the header
  method ReadHeader(image: Image) returns (header: string)
    requires image.Valid() && image.width >= 8 && image.height >= 8
    ensures header == HeaderText(image, G.HEADER_CELLS)
  {
    hide ReadCell;
    header := "";
    var y := 0;
    while y < 8
      invariant 0 <= y <= 8 && y % 2 == 0
      invariant header == HeaderText(image, y)
    {
      var x := 0;
      while x < 8
        invariant 0 <= x <= 8 && x % 4 == 0
        invariant header == HeaderText(image, y + x / 4)
      {
        assert (y + x / 4) % 2 == x / 4 || x == 8;
        var message := ReadAt(image, x, y, x / 4, y / 2);
        header := header + message;
        assert HeaderText(image, y + x / 4 + 1) == HeaderText(image, y + x / 4) + ReadCell(image, G.Cell(x / 4, y / 2));
        x := x + 4;
      }
      y := y + 2;
    }
  }

  // ----- the program's object

  lemma ReadOneMore(img: Image, n: nat, h: nat, k: nat, c: G.Cell)
    requires img.IsGrid(n, h) && c.column < n && c.row < h && !G.InHeader(c) && k == G.IndexOf(n, c)
    ensures k + G.HEADER_CELLS < n * h
    ensures ReadCells(img, n, h, k + 1) == ReadCells(img, n, h, k) + ReadCell(img, c)
  {
    hide G.CellOf, G.IndexOf, ReadCell;
    G.CellOfIndex(n, c);
    G.CellInside(n, h, k);
  }

  lemma ReadNothing(img: Image, n: nat, h: nat)
    requires img.IsGrid(n, h) && G.HEADER_CELLS <= n * h
    ensures ReadCells(img, n, h, 0) == ""
  {}

  lemma SquareOfWidth(ratio: real, length: real)
    ensures ratio * 2.0 * length / 4.0 == ratio * length / 2.0
  {}

  lemma CellCount(n: nat, h: nat)
    ensures 2 * h * (4 * n) / 8 == n * h
  {
    assert 2 * h * (4 * n) == 8 * (n * h);
  }

  datatype Result = Nothing | Drawn(image: Image) | Extracted(text: string)

  class Codec {
    const whRatio: real
    // 0 when no width is fixed
    const fixedWidth: nat

    // How many characters are done, of how many
    var completed: nat
    var dataLength: nat
    var result: Result

    constructor (whRatio: real, fixedWidth: nat)
      requires whRatio > 0.0
      ensures this.whRatio == whRatio && this.fixedWidth == fixedWidth
      ensures completed == 0 && dataLength == 1 && result == Nothing
    {
      this.whRatio, this.fixedWidth := whRatio, fixedWidth;
      completed, dataLength, result := 0, 1, Nothing;
    }

    // The data whose dimensions are computed without dividing by zero
    predicate HasDimensions(data: string) {
      if fixedWidth > 0 then fixedWidth >= 4 else |data| > 0
    }

    // The cells that an image must have for data of some length: as many columns as a fixed width holds, and the
    // fewest rows for the data; or as many columns as the root, rounded up, and the fewest rows that are no fewer
    // than the data divided by the root and that come within one row, of two pixels, of width / ratio.
    ghost predicate Dimensions(length: nat, root: real, n: nat, h: nat) {
      if fixedWidth > 0 then
        && n == fixedWidth / 4
        && n * (h - 1) < length <= n * h
      else
        && root > 0.0 && whRatio > 0.0
        && n == Ceil(root)
        && length <= n * h && h >= Ceil(length as real / root)
        && (2 * h) as real > (4 * n) as real / whRatio - 2.0
        && (h == Ceil(length as real / root) || (2 * h) as real <= (4 * n) as real / whRatio)
    }

    // root is the square root that the source takes for the width; n by h cells are drawn, up to character
    // done of the data. The count starts with the payload, and includes the character that fails.
    method Encode(data: string, root: real) returns (ok: bool, n: nat, h: nat, done: nat)
      requires whRatio > 0.0
      requires fixedWidth == 0 && |data| > 0 ==> root > 0.0 && root * root == whRatio * |data| as real / 2.0
      modifies this
      ensures dataLength == |data|
      ensures ok <==> HasDimensions(data) && AllBase64(data) && HeaderFits(|data|, n, h)
      ensures HasDimensions(data) ==> Dimensions(|data|, root, n, h)
      ensures HasDimensions(data) ==>
                && done <= |data| && (forall i | 0 <= i < done :: CanPaint(data, n, h, i))
                && (!ok ==> done < |data| && !CanPaint(data, n, h, done))
      ensures ok ==>
                && result == Drawn(Picture(data, n, h))
                && completed == if |data| < G.HEADER_CELLS then 0 else |data| - G.HEADER_CELLS
      ensures !ok ==> result == old(result)
      ensures !ok ==>
                completed ==
                if HasDimensions(data) && done >= G.HEADER_CELLS then done - G.HEADER_CELLS + 1 else old(completed)
    {
      hide Picture, AllBase64, HeaderFits, CanPaint;
      ok, n, h, done := false, 0, 0, 0;
      dataLength := |data|;
      if !HasDimensions(data) {
        return;
      }
      var dimensions := new NewImageDimensions(whRatio, |data|, 4, 2, fixedWidth);
      SquareOfWidth(whRatio, |data| as real);
      dimensions.CalculateNumSymbols(root);
      n, h := dimensions.numSymbolsWide, dimensions.numSymbolsHigh;
      var image;
      ok, done, image := Paint(data, n, h);
      if ok {
        completed := if |data| < G.HEADER_CELLS then 0 else |data| - G.HEADER_CELLS;
        result := Drawn(image);
      } else if done >= G.HEADER_CELLS {
        completed := done - G.HEADER_CELLS + 1;
      }
    }

    // The loops over rows and columns of squares of an image of n by h cells. The header is only logged.
    method Decode(image: Image, ghost n: nat, ghost h: nat) returns (header: string)
      requires image.IsGrid(n, h)
      modifies this
      ensures header == HeaderText(image, G.HEADER_CELLS)
      ensures result == Extracted(ReadCells(image, n, h, n * h - G.HEADER_CELLS))
      ensures dataLength == n * h && completed == old(completed) + n * h
    {
      hide G.CellOf, G.IndexOf, G.Before, ReadCell, ReadCells;
      header := ReadHeader(image);
      CellCount(n, h);
      dataLength := image.height * image.width / 8;
      var text := "";
      var y := 0;
      ghost var row := 0;
      G.BeforeTheEnd(n, h, 0, 0);
      ReadNothing(image, n, h);
      while y < image.height
        invariant y == 2 * row && row <= h
        invariant completed == old(completed) + row * n
        invariant G.Before(n, 0, row) >= 0 && G.Before(n, 0, row) + G.HEADER_CELLS <= n * h
        invariant text == ReadCells(image, n, h, G.Before(n, 0, row))
        modifies this`completed
      {
        var x := 0;
        ghost var column := 0;
        while x < image.width
          invariant x == 4 * column && column <= n
          invariant completed == old(completed) + row * n + column
          invariant G.Before(n, column, row) >= 0 && G.Before(n, column, row) + G.HEADER_CELLS <= n * h
          invariant text == ReadCells(image, n, h, G.Before(n, column, row))
          modifies this`completed
        {
          completed := completed + 1;
          G.BeforeTheEnd(n, h, column + 1, row);
          G.BeforeSteps(n, column, row);
          G.BeforeTheEnd(n, h, column, row);
          if !(y < 8 && x < 8) {
            var message := ReadAt(image, x, y, column, row);
            text := text + message;
            ReadOneMore(image, n, h, G.Before(n, column, row), G.Cell(column, row));
          }
          x := x + 4;
          column := column + 1;
        }
        assert x == 4 * n;
        G.BeforeTheEnd(n, h, 0, row + 1);
        G.BeforeSteps(n, n, row);
        G.NextRow(row, n);
        y := y + 2;
        row := row + 1;
      }
      assert row == h;
      G.BeforeTheEnd(n, h, 0, h);
      result := Extracted(text);
    }
  }
}
