/**
 Bacchant images by the bytes of their pixels: when a block is read as a symbol and two blocks as a
 character, and what decoding gives in every case.
 */
module BacchantPixels {
  import opened Base64Symbols
  import opened Bacchant
  import opened BacchantImage
  import G = Grid

  // ----- blocks

  // A byte of the pixel in column u and row v: 0 for red, 1 for green, 2 for blue. Pixels that the buffer does not
  // hold count as black.
  function ByteAt(data: seq<Byte>, width: nat, u: nat, v: nat, colour: nat): Byte
    requires colour < 3
  {
    var q := (v * width + u) * 4;
    if q + 2 < |data| then data[q + colour] else 0
  }

  // The sum of one colour over the four pixels of the block at (x, y)
  function BlockSum(data: seq<Byte>, width: nat, x: nat, y: nat, colour: nat): nat
    requires colour < 3
  {
    ByteAt(data, width, x, y, colour) + ByteAt(data, width, x + 1, y, colour)
    + ByteAt(data, width, x, y + 1, colour) + ByteAt(data, width, x + 1, y + 1, colour)
  }

  lemma LuminanceIs(data: seq<Byte>, width: nat, u: nat, v: nat)
    ensures Luminance(data, PixelNumber(width, u, v)) ==
            299 * ByteAt(data, width, u, v, 0) + 587 * ByteAt(data, width, u, v, 1) + 114 * ByteAt(data, width, u, v, 2)
  {
    assert (v * width + u) * 4 == 4 * PixelNumber(width, u, v);
  }

  lemma TotalIs(data: seq<Byte>, width: nat, x: nat, y: nat)
    ensures var total := 299 * BlockSum(data, width, x, y, 0) + 587 * BlockSum(data, width, x, y, 1)
                         + 114 * BlockSum(data, width, x, y, 2);
            Total(data, width, x, y) == total <= 1020000
  {
    hide Luminance, PixelNumber, ByteAt;
    LuminanceIs(data, width, x, y);
    LuminanceIs(data, width, x + 1, y);
    LuminanceIs(data, width, x, y + 1);
    LuminanceIs(data, width, x + 1, y + 1);
  }

  // A block is read as symbol s exactly if its luminance, 0.299 R + 0.587 G + 0.114 B on average, is nearest to
  // s sevenths of 255, the higher one on a tie.
  lemma {:induction false} BinIff(data: seq<Byte>, width: nat, x: nat, y: nat, s: nat)
    requires s <= 7
    ensures var sum := 299 * BlockSum(data, width, x, y, 0) + 587 * BlockSum(data, width, x, y, 1)
                       + 114 * BlockSum(data, width, x, y, 2);
            Bin(data, width, x, y) == s <==>
              && (s == 0 || 2040000 * s - 1020000 <= 14 * sum)
              && (s == 7 || 14 * sum < 2040000 * s + 1020000)
  {
    hide BlockSum, Total, BinOf;
    TotalIs(data, width, x, y);
    BinBand(Total(data, width, x, y), s);
  }

  // Two blocks are read as character i of the alphabet exactly if they are read as its two octal digits.
  lemma {:induction false} CharAtIff(data: seq<Byte>, width: nat, x: nat, y: nat, i: nat)
    requires i < 64
    ensures |ALPHABET| == 64
    ensures CharAt(data, width, x, y) == ALPHABET[i] <==>
              Bin(data, width, x, y) == i / 8 && Bin(data, width, x + 2, y) == i % 8
  {
    hide Bin, CharOf, IndexOf;
    AlphabetOrder(i);
    IndexOfChar(Bin(data, width, x, y) * 8 + Bin(data, width, x + 2, y));
    IndexOfChar(i);
  }

  // The levels of the symbols are the sevenths of 255, rounded down.
  lemma {:induction false} LevelIs(s: nat)
    requires s < 8
    ensures Level(s) == 255 * s / 7
  {}

  // The header's cells are read two to a row.
  lemma {:induction false} HeaderOrder(data: seq<Byte>, width: nat)
    ensures Header(data, width) == NAME <==>
              && CharAt(data, width, 0, 0) == 'b' && CharAt(data, width, 4, 0) == 'a'
              && CharAt(data, width, 0, 2) == 'c' && CharAt(data, width, 4, 2) == 'c'
              && CharAt(data, width, 0, 4) == 'h' && CharAt(data, width, 4, 4) == 'a'
              && CharAt(data, width, 0, 6) == 'n' && CharAt(data, width, 4, 6) == 't'
  {
    hide CharAt;
    var h := Header(data, width);
    assert h == NAME <==> h[0] == 'b' && h[1] == 'a' && h[2] == 'c' && h[3] == 'c' && h[4] == 'h' && h[5] == 'a'
                          && h[6] == 'n' && h[7] == 't';
  }

  // ----- every outcome

  // What is read of an image whose header is right: nothing if the length is no number, and otherwise as many
  // characters behind it as it says, at least one, or all there are
  ghost function ReadOutcome(data: seq<Byte>, n: nat, rows: nat): Outcome
    requires n >= 3 && rows >= 4
  {
    G.BeforeTheEnd(n, rows, 0, rows);
    var all, h := n * rows - 8, LengthCells(n);
    MoreThanLength(n, rows);
    match ParseLength(ShownText(data, n, h))
    case None => Outcome(None, InvalidLength)
    case Some(len) =>
      var m := if len == 0 then 1 else len;
      if h + m <= all then Outcome(Some(ShownText(data, n, h + m)[h..]), Done)
      else Outcome(Some(ShownText(data, n, all)[h..]), Incomplete)
  }

  lemma MoreThanLength(n: nat, rows: nat)
    requires n >= 3 && rows >= 4
    ensures LengthCells(n) < n * rows - 8
  {
    G.RowMonotonic(4, rows, n);
    assert rows * n == n * rows;
  }

  lemma {:induction false} ScanIs(
    data: seq<Byte>, n: nat, rows: nat, h: nat, len: Option<nat>, column: nat, row: nat, c: nat)
    requires n >= 3 && rows >= 4 && column <= n && row <= rows && (row == rows ==> column == 0)
    requires h == LengthCells(n) && c == G.Before(n, column, row)
    requires if c > h then len.Some? && len == ParseLength(ShownText(data, n, h)) && c - h < len.value else len == None
    ensures Scan(4 * n, 2 * rows, data, 4 * column, 2 * row,
                 ShownText(data, n, if c < h then c else h), if c < h then "" else ShownText(data, n, c)[h..], len)
            == ReadOutcome(data, n, rows)
    decreases rows - row, n - column
  {
    hide CharAt, ParseLength, G.Before, G.CellOf, G.IndexOf, LengthCells, ShownText;
    G.BeforeSteps(n, column, row);
    G.BeforeTheEnd(n, rows, if column <= n then column else 0, row);
    MoreThanLength(n, rows);
    if row < rows {
      if column == n {
        ScanIs(data, n, rows, h, len, 0, row + 1, c);
      } else if G.InHeader(G.Cell(column, row)) {
        ScanIs(data, n, rows, h, len, column + 1, row, c);
      } else {
        BeforeHeaderText(n, column, row);
        ShownTextMore(data, n, column, row, c, if c < h then 0 else h);
        G.BeforeTheEnd(n, rows, column + 1, row);
        NothingBehind(data, n, h);
        if c < h {
          ScanIs(data, n, rows, h, len, column + 1, row, c + 1);
        } else {
          var parsed := if len == None then ParseLength(ShownText(data, n, h)) else len;
          if parsed.Some? && c + 1 - h < parsed.value {
            ScanIs(data, n, rows, h, parsed, column + 1, row, c + 1);
          }
        }
      }
    }
  }

  // The outcome of decoding any image of whole cells that is wide enough for some of the length
  lemma {:induction false} DecodeIs(data: seq<Byte>, n: nat, rows: nat)
    requires n >= 3 && rows >= 4
    ensures Decoded(4 * n, 2 * rows, data) ==
            if Header(data, 4 * n) != NAME then Outcome(None, InvalidHeader) else ReadOutcome(data, n, rows)
  {
    hide CharAt, ParseLength, G.CellOf, Header, Scan, ShownText, ReadOutcome;
    NothingShown(data, n);
    ScanIs(data, n, rows, LengthCells(n), None, 0, 0, 0);
  }

  // A length is one digit or more, behind at most one plus sign.
  lemma {:induction false} ParsesIff(s: string)
    ensures ParseLength(s).Some? <==>
              (|s| > 0 && OnlyDigits(s)) || (|s| > 1 && s[0] == '+' && OnlyDigits(s[1..]))
  {
    OnlyDigitsIs(s);
    if |s| > 0 {
      OnlyDigitsIs(s[1..]);
      var digits := if s[0] == '+' then s[1..] else s;
      assert ParseLength(s).Some? <==> |digits| > 0 && AllDigits(digits);
      assert AllDigits(s) ==> IsDigit(s[0]);
    }
  }

  predicate OnlyDigits(s: string) {
    forall i | 0 <= i < |s| :: s[i] in "0123456789"
  }

  lemma OnlyDigitsIs(s: string)
    ensures OnlyDigits(s) <==> AllDigits(s)
  {
    forall i | 0 <= i < |s|
      ensures s[i] in "0123456789" <==> IsDigit(s[i])
    {
      IsDigitIs(s[i]);
    }
  }

  lemma IsDigitIs(c: char)
    ensures c in "0123456789" <==> IsDigit(c)
  {
    if IsDigit(c) {
      assert "0123456789"[c as int - 48] == c;
    }
  }

  // Every number is parsed from its decimal digits.
  lemma {:induction false} DecimalParses(n: nat)
    ensures ParseLength(Decimal(n)) == Some(n)
  {
    hide ParseLength;
    DecimalValue(n);
    DigitsParse(Decimal(n));
  }

  lemma {:induction false} SignedDecimalParses(n: nat)
    ensures ParseLength("+" + Decimal(n)) == Some(n)
  {
    DecimalValue(n);
    var s := "+" + Decimal(n);
    assert s[1..] == Decimal(n);
    hide Decimal;
    assert ParseLength(s) == if |s[1..]| > 0 && AllDigits(s[1..]) then Some(DigitsValue(s[1..])) else None;
    DecimalNotEmpty(n);
  }

  lemma DecimalNotEmpty(n: nat)
    ensures |Decimal(n)| > 0
  {}
}
