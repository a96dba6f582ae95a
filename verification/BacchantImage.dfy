/**
 Writing bacchant images, and what decoding them gives. The program's own header writer does not
 match its reader; the site's encoder lays the header out as the reader expects.
 */
module BacchantImage {
  import opened Base64Symbols
  import opened Bacchant
  import G = Grid

  // ----- reading back an image whose cells show a text

  // The cells of an image 4 n pixels wide show a text, in the order in which it is written.
  ghost predicate Shows(data: seq<Byte>, n: nat, text: string)
    requires n >= G.HEADER_COLUMNS
  {
    forall c | 0 <= c < |text| :: ShowsAt(data, n, c, text[c])
  }

  predicate ShowsAt(data: seq<Byte>, n: nat, c: nat, ch: char)
    requires n >= G.HEADER_COLUMNS
  {
    CharAt(data, 4 * n, 4 * G.CellOf(n, c).column, 2 * G.CellOf(n, c).row) == ch
  }

  // The characters that are read as the length: those of the top row up to column 10, if there are so many
  function LengthCells(n: nat): nat
    requires n >= G.HEADER_COLUMNS
  {
    if n < 10 then n - G.HEADER_COLUMNS else 8
  }

  lemma BeforeHeaderText(n: nat, column: nat, row: nat)
    requires n >= G.HEADER_COLUMNS && column < n && !G.InHeader(G.Cell(column, row))
    ensures G.Before(n, column, row) < LengthCells(n) <==> row == 0 && column < 10
  {
    G.RowMonotonic(1, row, n - 2);
    G.RowMonotonic(4, row, n);
  }

  // From any place in the scan at which part of the text has been read, the rest of it is read.
  // A length of 0 is only noticed after one character.
  lemma {:induction false} ScanReads(
    data: seq<Byte>, n: nat, rows: nat, h: nat, text: string, len: nat, column: nat, row: nat, c: nat)
    requires n >= 3 && rows >= G.HEADER_ROWS && column <= n && row <= rows && h == LengthCells(n)
    requires |text| > h && |text| + G.HEADER_CELLS <= n * rows && Shows(data, n, text)
    requires ParseLength(text[..h]) == Some(len) && |text| - h == (if len == 0 then 1 else len)
    requires c == G.Before(n, column, row) && c < |text|
    ensures Scan(4 * n, 2 * rows, data, 4 * column, 2 * row,
                 if c < h then text[..c] else text[..h], if c < h then "" else text[h..c],
                 if c > h then Some(len) else None)
            == Outcome(Some(text[h..]), Done)
    decreases rows - row, n - column
  {
    hide CharAt, ParseLength, G.Before, Shows, G.CellOf, G.IndexOf, LengthCells;
    G.BeforeSteps(n, column, row);
    if row == rows {
      AtTheEnd(n, column, rows);
      assert false;
    } else if column == n {
      ScanReads(data, n, rows, h, text, len, 0, row + 1, c);
    } else if G.InHeader(G.Cell(column, row)) {
      ScanReads(data, n, rows, h, text, len, column + 1, row, c);
    } else {
      assert CharAt(data, 4 * n, 4 * column, 2 * row) == text[c] by {
        ShownChar(data, n, text, column, row, c);
      }
      BeforeHeaderText(n, column, row);
      if c < h {
        assert text[..c] + [text[c]] == text[..c + 1];
        ScanReads(data, n, rows, h, text, len, column + 1, row, c + 1);
      } else {
        assert text[h..c] + [text[c]] == text[h..c + 1];
        if c + 1 < |text| {
          ScanReads(data, n, rows, h, text, len, column + 1, row, c + 1);
        } else {
          assert text[h..c + 1] == text[h..];
        }
      }
    }
  }

  // Two cells wide, an image has no room for the length beside the header.
  lemma {:induction false} ScanWithoutLength(data: seq<Byte>, rows: nat, column: nat, row: nat)
    requires rows > G.HEADER_ROWS && column <= 2 && (row < G.HEADER_ROWS || (row == G.HEADER_ROWS && column == 0))
    ensures Scan(8, 2 * rows, data, 4 * column, 2 * row, "", "", None) == Outcome(None, InvalidLength)
    decreases G.HEADER_ROWS - row, 2 - column
  {
    hide CharAt;
    if row < G.HEADER_ROWS {
      if column == 2 {
        ScanWithoutLength(data, rows, 0, row + 1);
      } else {
        ScanWithoutLength(data, rows, column + 1, row);
      }
    }
  }

  lemma AtTheEnd(n: nat, column: nat, rows: nat)
    requires n >= G.HEADER_COLUMNS && rows >= G.HEADER_ROWS
    ensures G.Before(n, column, rows) >= n * rows - G.HEADER_CELLS
  {}

  lemma ShownChar(data: seq<Byte>, n: nat, text: string, column: nat, row: nat, c: nat)
    requires n >= G.HEADER_COLUMNS && column < n && !G.InHeader(G.Cell(column, row))
    requires c < |text| && Shows(data, n, text) && c == G.IndexOf(n, G.Cell(column, row))
    ensures CharAt(data, 4 * n, 4 * column, 2 * row) == text[c]
  {
    hide CharAt, G.CellOf, G.IndexOf;
    G.CellOfIndex(n, G.Cell(column, row));
    assert ShowsAt(data, n, c, text[c]);
  }

  // ----- what any image gives

  // The characters that the first k cells show
  function ShownText(data: seq<Byte>, n: nat, k: nat): (text: string)
    requires n >= G.HEADER_COLUMNS
    ensures |text| == k
  {
    seq(k, c requires 0 <= c < k => CharAt(data, 4 * n, 4 * G.CellOf(n, c).column, 2 * G.CellOf(n, c).row))
  }

  lemma ShownTextMore(data: seq<Byte>, n: nat, column: nat, row: nat, k: nat, h: nat)
    requires n >= G.HEADER_COLUMNS && column < n && !G.InHeader(G.Cell(column, row))
    requires k == G.IndexOf(n, G.Cell(column, row)) && h <= k
    ensures ShownText(data, n, k) + [CharAt(data, 4 * n, 4 * column, 2 * row)] == ShownText(data, n, k + 1)
    ensures ShownText(data, n, k)[h..] + [CharAt(data, 4 * n, 4 * column, 2 * row)] == ShownText(data, n, k + 1)[h..]
  {
    hide CharAt, G.CellOf, G.IndexOf;
    G.CellOfIndex(n, G.Cell(column, row));
    assert ShownText(data, n, k) == ShownText(data, n, k + 1)[..k];
  }

  // The number of characters taken for a length
  function AtLeastOne(len: nat): nat {
    if len == 0 then 1 else len
  }

  // The cells show a length, and as many characters behind it as the payload has.
  ghost predicate PayloadShown(data: seq<Byte>, n: nat, rows: nat, payload: string)
    requires n >= 3
  {
    var h := LengthCells(n);
    var len := ParseLength(ShownText(data, n, h));
    && len.Some? && |payload| == AtLeastOne(len.value)
    && h + |payload| + G.HEADER_CELLS <= n * rows
    && payload == ShownText(data, n, h + |payload|)[h..]
  }

  // If a scan ends well, from any place, it ends with a payload that is shown.
  lemma {:induction false} ScanDone(
    data: seq<Byte>, n: nat, rows: nat, h: nat, len: Option<nat>, payload: string, column: nat, row: nat, c: nat)
    requires n >= 3 && rows >= G.HEADER_ROWS && column <= n && row <= rows && (row == rows ==> column == 0)
    requires h == LengthCells(n) && c == G.Before(n, column, row)
    requires if c > h then len.Some? && len == ParseLength(ShownText(data, n, h)) && c - h < len.value else len == None
    requires Scan(4 * n, 2 * rows, data, 4 * column, 2 * row,
                  ShownText(data, n, if c < h then c else h), if c < h then "" else ShownText(data, n, c)[h..], len)
             == Outcome(Some(payload), Done)
    ensures PayloadShown(data, n, rows, payload)
    decreases rows - row, n - column
  {
    hide CharAt, ParseLength, G.Before, G.CellOf, G.IndexOf, LengthCells, ShownText;
    G.BeforeSteps(n, column, row);
    if row < rows {
      if column == n {
        ScanDone(data, n, rows, h, len, payload, 0, row + 1, c);
      } else if G.InHeader(G.Cell(column, row)) {
        ScanDone(data, n, rows, h, len, payload, column + 1, row, c);
      } else {
        BeforeHeaderText(n, column, row);
        ShownTextMore(data, n, column, row, c, if c < h then 0 else h);
        G.BeforeTheEnd(n, rows, column + 1, row);
        if c < h {
          NothingBehind(data, n, h);
          ScanDone(data, n, rows, h, len, payload, column + 1, row, c + 1);
        } else {
          NothingBehind(data, n, h);
          var parsed := if len == None then ParseLength(ShownText(data, n, h)) else len;
          if parsed.Some? && c + 1 - h < parsed.value {
            ScanDone(data, n, rows, h, parsed, payload, column + 1, row, c + 1);
          }
        }
      }
    }
  }

  lemma NothingBehind(data: seq<Byte>, n: nat, h: nat)
    requires n >= G.HEADER_COLUMNS
    ensures ShownText(data, n, h)[h..] == ""
  {}

  // Decoding any image of whole cells, wide enough to hold some of the length: it gives a payload exactly
  // if the header is right and the payload is shown.
  lemma {:induction false} DecodeIff(data: seq<Byte>, n: nat, rows: nat, payload: string)
    requires n >= 3 && rows >= G.HEADER_ROWS
    ensures Decoded(4 * n, 2 * rows, data) == Outcome(Some(payload), Done)
            <==> Header(data, 4 * n) == NAME && PayloadShown(data, n, rows, payload)
  {
    hide CharAt, ParseLength, G.CellOf, Header, Scan, ShownText, PayloadShown;
    var h := LengthCells(n);
    NothingShown(data, n);
    if Decoded(4 * n, 2 * rows, data) == Outcome(Some(payload), Done) {
      ScanDone(data, n, rows, h, None, payload, 0, 0, 0);
    } else if Header(data, 4 * n) == NAME && PayloadShown(data, n, rows, payload) {
      ShownIsRead(data, n, rows, payload);
    }
  }

  lemma NothingShown(data: seq<Byte>, n: nat)
    requires n >= G.HEADER_COLUMNS
    ensures ShownText(data, n, 0) == ""
  {}

  lemma ShownIsRead(data: seq<Byte>, n: nat, rows: nat, payload: string)
    requires n >= 3 && rows >= G.HEADER_ROWS && PayloadShown(data, n, rows, payload)
    ensures Scan(4 * n, 2 * rows, data, 0, 0, "", "", None) == Outcome(Some(payload), Done)
  {
    hide CharAt, ParseLength, G.CellOf, Scan;
    var h := LengthCells(n);
    var text := ShownText(data, n, h + |payload|);
    assert text[..h] == ShownText(data, n, h) && text[..0] == "";
    ScanReads(data, n, rows, h, text, ParseLength(text[..h]).value, 0, 0, 0);
  }

  // ----- the length field

  function Digit(d: nat): char
    requires d < 10
  {
    (48 + d) as char
  }

  // The decimal digits of a number, and as many zeros in front as a width asks for: format "{:08}" for width 8
  function Decimal(n: nat): string {
    if n < 10 then [Digit(n)] else Decimal(n / 10) + [Digit(n % 10)]
  }

  function ZeroPadded(s: string, width: nat): string {
    seq(if |s| < width then width - |s| else 0, _ => '0') + s
  }

  function LengthField(n: nat): string {
    ZeroPadded(Decimal(n), 8)
  }

  lemma {:induction false} DecimalValue(n: nat)
    ensures AllDigits(Decimal(n)) && DigitsValue(Decimal(n)) == n
  {
    if n < 10 {
      assert Decimal(n)[..0] == "";
      assert DigitsValue("") == 0;
    } else {
      DecimalValue(n / 10);
      assert Decimal(n)[..|Decimal(n)| - 1] == Decimal(n / 10);
    }
  }

  function Pow10(k: nat): nat {
    if k == 0 then 1 else 10 * Pow10(k - 1)
  }

  lemma {:induction false} DecimalLength(n: nat, k: nat)
    requires n < Pow10(k) && k > 0
    ensures |Decimal(n)| <= k
    decreases k
  {
    assert Pow10(0) == 1;
    if n >= 10 {
      DecimalLength(n / 10, k - 1);
    }
  }

  lemma {:induction false} ZerosValue(k: nat, s: string)
    requires AllDigits(s)
    ensures DigitsValue(seq(k, _ => '0') + s) == DigitsValue(s)
    decreases |s|, k
  {
    var t := seq(k, _ => '0') + s;
    if |s| > 0 {
      assert t[..|t| - 1] == seq(k, _ => '0') + s[..|s| - 1];
      ZerosValue(k, s[..|s| - 1]);
    } else if k > 0 {
      assert t[..|t| - 1] == seq(k - 1, _ => '0') + s;
      ZerosValue(k - 1, s);
    } else {
      assert t == s;
    }
  }

  lemma {:induction false} DecimalTooLong(n: nat, k: nat)
    requires n >= Pow10(k)
    ensures |Decimal(n)| > k
    decreases k
  {
    if k > 0 {
      DecimalTooLong(n / 10, k - 1);
    }
  }

  // A number without its last digits is at most a tenth.
  lemma {:induction false} DecimalPrefix(n: nat, j: nat)
    requires j < |Decimal(n)|
    ensures AllDigits(Decimal(n)[..j]) && DigitsValue(Decimal(n)[..j]) <= n / 10
  {
    DecimalValue(n);
    if n < 10 {
      assert Decimal(n)[..j] == "";
    } else {
      DecimalValue(n / 10);
      assert Decimal(n)[..j] == Decimal(n / 10)[..j];
      if j < |Decimal(n / 10)| {
        DecimalPrefix(n / 10, j);
      } else {
        assert Decimal(n / 10)[..j] == Decimal(n / 10);
      }
    }
  }

  lemma LengthFieldShape(n: nat)
    ensures |LengthField(n)| >= 8 && AllDigits(LengthField(n))
    ensures n < 100000000 <==> |Decimal(n)| <= 8
    ensures |Decimal(n)| <= 8 ==> |LengthField(n)| == 8
    ensures LengthField(n) == seq(if |Decimal(n)| < 8 then 8 - |Decimal(n)| else 0, _ => '0') + Decimal(n)
  {
    assert Pow10(8) == 100000000;
    hide Pow10, Decimal, DigitsValue;
    DecimalValue(n);
    if n < 100000000 {
      DecimalLength(n, 8);
    } else {
      DecimalTooLong(n, 8);
    }
  }

  // What the reader takes for the length, when h characters of the top row hold it: the length itself
  // if these are eight and enough for it, and too little otherwise.
  lemma {:induction false} LengthFieldParses(n: nat, h: nat)
    requires 1 <= h <= 8
    ensures |LengthField(n)| >= 8 && AllDigits(LengthField(n))
    ensures n < 100000000 ==> |LengthField(n)| == 8
    ensures ParseLength(LengthField(n)[..h]).Some?
    ensures var v := ParseLength(LengthField(n)[..h]).value;
            if h == 8 && n < 100000000 then v == n else v <= n / 10
  {
    hide Decimal, DigitsValue, ParseLength, LengthField;
    LengthFieldShape(n);
    var d := Decimal(n);
    PaddedPrefix(n, if |d| < 8 then 8 - |d| else 0, h);
    DigitsParse(LengthField(n)[..h]);
  }

  lemma PaddedPrefix(n: nat, z: nat, h: nat)
    requires h <= z + |Decimal(n)|
    ensures var s := seq(z, _ => '0') + Decimal(n);
            && AllDigits(s[..h])
            && if h == |s| then DigitsValue(s[..h]) == n else DigitsValue(s[..h]) <= n / 10
  {
    hide Decimal, DigitsValue;
    var d := Decimal(n);
    var s := seq(z, _ => '0') + d;
    if h < z {
      assert s[..h] == seq(h, _ => '0') + "";
      ZerosValue(h, "");
      EmptyDigits();
    } else {
      assert s[..h] == seq(z, _ => '0') + d[..h - z];
      PrefixValue(n, h - z);
      ZerosValue(z, d[..h - z]);
    }
  }

  lemma PrefixValue(n: nat, j: nat)
    requires j <= |Decimal(n)|
    ensures AllDigits(Decimal(n)[..j])
    ensures if j == |Decimal(n)| then DigitsValue(Decimal(n)[..j]) == n else DigitsValue(Decimal(n)[..j]) <= n / 10
  {
    DecimalValue(n);
    if j < |Decimal(n)| {
      DecimalPrefix(n, j);
    } else {
      assert Decimal(n)[..j] == Decimal(n);
    }
  }

  lemma DigitsParse(s: string)
    requires |s| > 0 && AllDigits(s)
    ensures ParseLength(s) == Some(DigitsValue(s))
  {}

  lemma EmptyDigits()
    ensures DigitsValue("") == 0
  {}

  // ----- symbols

  // get_octals; a character outside the alphabet is written as index 0.
  function SymbolIndex(ch: char): (index: nat)
    ensures index < 64
  {
    match IndexOf(ch)
    case Some(index) => CharOfIndex(ch); index
    case None => 0
  }

  // Symbol i of a text: two per character
  function SymbolOf(text: string, i: nat): (symbol: nat)
    requires i < 2 * |text|
    ensures symbol < 8
  {
    if i % 2 == 0 then SymbolIndex(text[i / 2]) / 8 else SymbolIndex(text[i / 2]) % 8
  }

  // The text as it is read back: characters outside the alphabet have become 'A'.
  function Cleaned(text: string): (s: string)
    ensures |s| == |text|
  {
    seq(|text|, i requires 0 <= i < |text| => CharOf(SymbolIndex(text[i])))
  }

  lemma {:induction false} CleanedIdentity(text: string)
    ensures Cleaned(text) == text <==> AllBase64(text)
  {
    forall i | 0 <= i < |text|
      ensures Cleaned(text)[i] == text[i] <==> IsBase64(text[i])
    {
      if IsBase64(text[i]) {
        CharOfIndex(text[i]);
      } else {
        IndexOfChar(0);
      }
    }
  }

  // ----- the places of the symbols

  datatype Place = Place(x: nat, y: nat)

  // Where the writer puts symbol i of the length and payload
  function Slot(width: nat, i: nat): Place
    requires width >= HEADER_SIZE
  {
    var headerRowSymbols := (width - HEADER_SIZE) / BLOCK_SIZE;
    var fullRowSymbols := width / BLOCK_SIZE;
    if i < headerRowSymbols * 4 then
      Place(HEADER_SIZE + i % headerRowSymbols * BLOCK_SIZE, i / headerRowSymbols * BLOCK_SIZE)
    else
      Place((i + 16) % fullRowSymbols * BLOCK_SIZE, (i + 16) / fullRowSymbols * BLOCK_SIZE)
  }

  // In an image 4 n pixels wide, the two symbols of character c fill the two halves of its cell.
  lemma {:induction false} SlotsOfCell(n: nat, c: nat)
    requires n >= G.HEADER_COLUMNS
    ensures Slot(4 * n, 2 * c) == Place(4 * G.CellOf(n, c).column, 2 * G.CellOf(n, c).row)
    ensures Slot(4 * n, 2 * c + 1) == Place(4 * G.CellOf(n, c).column + 2, 2 * G.CellOf(n, c).row)
  {
    var b := n - G.HEADER_COLUMNS;
    if c < b * 4 {
      Halve(c, b);
    } else {
      Halve(c + 8, n);
    }
  }

  lemma Halve(c: nat, b: nat)
    requires b > 0
    ensures (2 * c) / (2 * b) == c / b && (2 * c) % (2 * b) == 2 * (c % b)
    ensures (2 * c + 1) / (2 * b) == c / b && (2 * c + 1) % (2 * b) == 2 * (c % b) + 1
  {
    G.DivModIdentity(c, b);
    assert 2 * c == c / b * (2 * b) + 2 * (c % b);
    G.DivModUnique(2 * c, 2 * b, c / b, 2 * (c % b));
    G.DivModUnique(2 * c + 1, 2 * b, c / b, 2 * (c % b) + 1);
  }

  // ----- the round trip with noise

  // Every block of the header is near the level of its symbol, two characters to a row.
  ghost predicate HeaderNear(data: seq<Byte>, width: nat) {
    forall i | 0 <= i < 16 :: HeaderNearAt(data, width, i)
  }

  ghost predicate HeaderNearAt(data: seq<Byte>, width: nat, i: nat)
    requires i < 16
  {
    Near(Total(data, width, i % 4 * BLOCK_SIZE, i / 4 * BLOCK_SIZE), SymbolOf(NAME, i))
  }

  // Every block of a text is near the level of its symbol.
  ghost predicate TextNear(data: seq<Byte>, width: nat, text: string)
    requires width >= HEADER_SIZE
  {
    forall i | 0 <= i < 2 * |text| :: TextNearAt(data, width, text, i)
  }

  ghost predicate TextNearAt(data: seq<Byte>, width: nat, text: string, i: nat)
    requires width >= HEADER_SIZE && i < 2 * |text|
  {
    Near(Total(data, width, Slot(width, i).x, Slot(width, i).y), SymbolOf(text, i))
  }

  function FullText(payload: string): string {
    LengthField(|payload|) + payload
  }

  lemma CellReads(data: seq<Byte>, n: nat, text: string, c: nat)
    requires n >= G.HEADER_COLUMNS && c < |text| && TextNear(data, 4 * n, text)
    ensures ShowsAt(data, n, c, Cleaned(text)[c])
  {
    hide ShowsAt, TextNearAt, Cleaned;
    assert TextNearAt(data, 4 * n, text, 2 * c) && TextNearAt(data, 4 * n, text, 2 * c + 1);
    CellReadsAt(data, n, text, c);
  }

  lemma CellReadsAt(data: seq<Byte>, n: nat, text: string, c: nat)
    requires n >= G.HEADER_COLUMNS && c < |text|
    requires TextNearAt(data, 4 * n, text, 2 * c) && TextNearAt(data, 4 * n, text, 2 * c + 1)
    ensures ShowsAt(data, n, c, Cleaned(text)[c])
  {
    hide Total, BinOf, G.CellOf, Slot, Near, SymbolIndex, CharOf;
    SlotsOfCell(n, c);
    NearIsRead(Total(data, 4 * n, Slot(4 * n, 2 * c).x, Slot(4 * n, 2 * c).y), SymbolOf(text, 2 * c));
    NearIsRead(Total(data, 4 * n, Slot(4 * n, 2 * c + 1).x, Slot(4 * n, 2 * c + 1).y), SymbolOf(text, 2 * c + 1));
  }

  lemma HeaderPlaces(k: nat)
    requires k < 8
    ensures 2 * k % 4 * 2 == k % 2 * 4 && 2 * k / 4 == k / 2
    ensures (2 * k + 1) % 4 * 2 == k % 2 * 4 + 2 && (2 * k + 1) / 4 == k / 2
  {}

  lemma NameIsBase64(k: nat)
    requires k < 8
    ensures CharOf(SymbolIndex(NAME[k])) == NAME[k]
  {
    assert IsBase64(NAME[k]);
    CharOfIndex(NAME[k]);
  }

  lemma HeaderCharReads(data: seq<Byte>, width: nat, k: nat)
    requires k < 8 && HeaderNear(data, width)
    ensures CharAt(data, width, k % 2 * 4, k / 2 * 2) == NAME[k]
  {
    hide Total, BinOf, Near, SymbolIndex, CharOf;
    HeaderPlaces(k);
    NameIsBase64(k);
    assert HeaderNearAt(data, width, 2 * k) && HeaderNearAt(data, width, 2 * k + 1);
    NearIsRead(Total(data, width, k % 2 * 4, k / 2 * 2), SymbolOf(NAME, 2 * k));
    NearIsRead(Total(data, width, k % 2 * 4 + 2, k / 2 * 2), SymbolOf(NAME, 2 * k + 1));
  }

  lemma {:induction false} HeaderReads(data: seq<Byte>, width: nat)
    requires HeaderNear(data, width)
    ensures Header(data, width) == NAME
  {
    hide CharAt, HeaderNear;
    HeaderCharReads(data, width, 0);
    HeaderCharReads(data, width, 1);
    HeaderCharReads(data, width, 2);
    HeaderCharReads(data, width, 3);
    HeaderCharReads(data, width, 4);
    HeaderCharReads(data, width, 5);
    HeaderCharReads(data, width, 6);
    HeaderCharReads(data, width, 7);
  }

  lemma CleanedFullText(payload: string)
    ensures |LengthField(|payload|)| >= 8
    ensures Cleaned(FullText(payload)) == LengthField(|payload|) + Cleaned(payload)
  {
    LengthFieldParses(|payload|, 8);
    hide LengthField, SymbolIndex, CharOf;
    forall i | 0 <= i < |LengthField(|payload|)|
      ensures CharOf(SymbolIndex(LengthField(|payload|)[i])) == LengthField(|payload|)[i]
    {
      DigitIsBase64(LengthField(|payload|)[i]);
    }
  }

  lemma DigitIsBase64(ch: char)
    requires IsDigit(ch)
    ensures CharOf(SymbolIndex(ch)) == ch
  {
    CharOfIndex(ch);
  }

  // How many characters are read as the payload: as many as the length says, but at least one
  function CharsRead(n: nat, length: nat): nat
    requires n >= 3
  {
    LengthFieldParses(length, LengthCells(n));
    var v := ParseLength(LengthField(length)[..LengthCells(n)]).value;
    if v == 0 then 1 else v
  }

  // If every block's average luminance is within 17 of its level, decode returns the characters that follow
  // what it takes for the length; here in an image 4 n pixels wide and 2 rows high per cell row, with room
  // for the text.
  lemma {:induction false} DecodeGives(data: seq<Byte>, n: nat, rows: nat, payload: string)
    requires n >= 3 && rows >= G.HEADER_ROWS && |FullText(payload)| + G.HEADER_CELLS <= n * rows
    requires HeaderNear(data, 4 * n) && TextNear(data, 4 * n, FullText(payload))
    requires LengthCells(n) + CharsRead(n, |payload|) <= |FullText(payload)|
    ensures var h := LengthCells(n);
            Decoded(4 * n, 2 * rows, data)
                == Outcome(Some(Cleaned(FullText(payload))[h..h + CharsRead(n, |payload|)]), Done)
  {
    hide CharAt, ParseLength, TextNear, HeaderNear, ShowsAt, Header, FullText, LengthField, Cleaned;
    var h, m := LengthCells(n), CharsRead(n, |payload|);
    var full := Cleaned(FullText(payload));
    var text := full[..h + m];
    HeaderReads(data, 4 * n);
    CleanedFullText(payload);
    LengthFieldParses(|payload|, h);
    forall c | 0 <= c < |text|
      ensures ShowsAt(data, n, c, text[c])
    {
      CellReads(data, n, FullText(payload), c);
    }
    assert text[..0] == "" && text[..h] == LengthField(|payload|)[..h] && text[h..] == full[h..h + m];
    ScanReads(data, n, rows, h, text, ParseLength(text[..h]).value, 0, 0, 0);
  }

  // With the length in the top row, that is the payload, its foreign characters read as 'A'.
  lemma {:induction false} DecodeRecovers(data: seq<Byte>, n: nat, rows: nat, payload: string)
    requires n >= 10 && rows >= G.HEADER_ROWS
    requires 0 < |payload| < 100000000 && |payload| + 8 + G.HEADER_CELLS <= n * rows
    requires HeaderNear(data, 4 * n) && TextNear(data, 4 * n, FullText(payload))
    ensures Decoded(4 * n, 2 * rows, data) == Outcome(Some(Cleaned(payload)), Done)
  {
    hide TextNear, HeaderNear, LengthField, Cleaned, Decoded, ParseLength;
    CleanedFullText(payload);
    LengthFieldParses(|payload|, 8);
    assert LengthField(|payload|)[..8] == LengthField(|payload|);
    DecodeGives(data, n, rows, payload);
    assert (LengthField(|payload|) + Cleaned(payload))[8..8 + |payload|] == Cleaned(payload);
  }

  // An empty payload does not come back: the reader takes one character before it looks at the length.
  lemma {:induction false} DecodeEmptyPayload(data: seq<Byte>, n: nat, rows: nat)
    requires n >= 10 && rows >= G.HEADER_ROWS
    requires HeaderNear(data, 4 * n) && TextNear(data, 4 * n, FullText(""))
    ensures var cell := G.CellOf(n, 8);
            Decoded(4 * n, 2 * rows, data) == Outcome(Some([CharAt(data, 4 * n, 4 * cell.column, 2 * cell.row)]), Done)
  {
    hide CharAt, ParseLength, TextNear, HeaderNear, Header, FullText, LengthField, Cleaned, G.CellOf;
    var cell := G.CellOf(n, 8);
    var ch := CharAt(data, 4 * n, 4 * cell.column, 2 * cell.row);
    var field := Cleaned(FullText(""));
    HeaderReads(data, 4 * n);
    CleanedFullText("");
    LengthFieldParses(0, 8);
    assert LengthField(0)[..8] == LengthField(0) == field;
    var text := field + [ch];
    forall c | 0 <= c < |text|
      ensures ShowsAt(data, n, c, text[c])
    {
      if c < 8 {
        CellReads(data, n, FullText(""), c);
      }
    }
    assert text[..0] == "" && text[..8] == field && text[8..] == [ch];
    G.RowMonotonic(4, rows, n);
    ScanReads(data, n, rows, 8, text, 0, 0, 0, 0);
  }

  // Without the whole length in the top row, all but two payloads are lost.
  lemma {:induction false} DecodeNarrow(data: seq<Byte>, n: nat, rows: nat, payload: string)
    requires 3 <= n < 10 && rows >= G.HEADER_ROWS && |FullText(payload)| + G.HEADER_CELLS <= n * rows
    requires HeaderNear(data, 4 * n) && TextNear(data, 4 * n, FullText(payload))
    ensures Decoded(4 * n, 2 * rows, data) == Outcome(Some(payload), Done) <==> payload == [if n == 9 then '1' else '0']
  {
    hide TextNear, HeaderNear, LengthField, Cleaned, Decoded, ParseLength;
    var h := LengthCells(n);
    CleanedFullText(payload);
    LengthFieldParses(|payload|, h);
    DecodeGives(data, n, rows, payload);
    if |payload| == 1 {
      FieldOfOne();
      assert Cleaned(FullText(payload))[h..h + 1] == [Cleaned(FullText(payload))[h]] == [LengthField(1)[h]];
    }
  }

  lemma FieldOfOne()
    ensures LengthField(1) == "00000001"
  {}

  // The payloads that an image n cells wide gives back
  predicate ComesBack(n: nat, payload: string) {
    if n >= 10 then 0 < |payload| < 100000000 && AllBase64(payload)
    else n >= 3 && payload == [if n == 9 then '1' else '0']
  }

  // The round trip for every payload and every width: in an image whose blocks are near their levels.
  lemma {:induction false} DecodeReturnsPayload(data: seq<Byte>, n: nat, rows: nat, payload: string)
    requires n >= G.HEADER_COLUMNS && rows >= G.HEADER_ROWS && |FullText(payload)| + G.HEADER_CELLS <= n * rows
    requires HeaderNear(data, 4 * n) && TextNear(data, 4 * n, FullText(payload))
    ensures Decoded(4 * n, 2 * rows, data) == Outcome(Some(payload), Done) <==> ComesBack(n, payload)
  {
    hide TextNear, HeaderNear, LengthField, Cleaned, Scan, ParseLength, Header, G.CellOf, CharAt;
    CleanedFullText(payload);
    LengthFieldParses(|payload|, 8);
    if n == 2 {
      HeaderReads(data, 8);
      ScanWithoutLength(data, rows, 0, 0);
    } else if n < 10 {
      DecodeNarrow(data, n, rows, payload);
    } else if payload == "" {
      DecodeEmptyPayload(data, n, rows);
    } else {
      DecodeGives(data, n, rows, payload);
      if |payload| < 100000000 {
        DecodeRecovers(data, n, rows, payload);
        CleanedIdentity(payload);
      }
    }
  }
}
