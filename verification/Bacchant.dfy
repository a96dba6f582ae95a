/**
 The bacchant codec of core-rust/src/bacchant.rs: an image whose upper left corner spells the
 codec's name, followed by eight digits of length and the payload, two gray blocks a character.
 Luminance is kept in thousandths, so that all sums are exact.
 */
module Bacchant {
  import opened Base64Symbols
  import G = Grid

  type Byte = b: int | 0 <= b < 256

  const BLOCK_SIZE := 2
  const HEADER_SIZE := 8
  const NAME := "bacchant"

  datatype Status = Done | InvalidHeader | InvalidLength | Incomplete
  datatype Outcome = Outcome(payload: Option<string>, status: Status)

  // BACCHANT_SYMBOL_THRESHOLDS
  function Level(symbol: nat): (level: nat)
    requires symbol < 8
    ensures level < 256
  {
    match symbol
    case 0 => 0
    case 1 => 36
    case 2 => 72
    case 3 => 109
    case 4 => 145
    case 5 => 182
    case 6 => 218
    case _ => 255
  }

  // ----- reading a block

  // 0.299 r + 0.587 g + 0.114 b, in thousandths
  function Lum(r: nat, g: nat, b: nat): nat {
    299 * r + 587 * g + 114 * b
  }

  // The luminance of pixel number p; pixels outside the buffer count as 0.
  function Luminance(data: seq<Byte>, p: nat): nat {
    if 4 * p + 2 < |data| then Lum(data[4 * p], data[4 * p + 1], data[4 * p + 2]) else 0
  }

  // The number of the pixel at (x, y)
  function PixelNumber(width: nat, x: nat, y: nat): nat {
    y * width + x
  }

  // The summed luminance of the two pixels in one column of a block
  function Column(data: seq<Byte>, width: nat, x: nat, y: nat): nat {
    Luminance(data, PixelNumber(width, x, y)) + Luminance(data, PixelNumber(width, x, y + 1))
  }

  // The summed luminance of the block at (x, y)
  function Total(data: seq<Byte>, width: nat, x: nat, y: nat): nat {
    Column(data, width, x, y) + Column(data, width, x + 1, y)
  }

  // The average divided by 255 / 7 and rounded to the nearest integer, at most 7
  function BinOf(total: nat): (bin: nat)
    ensures bin <= 7
  {
    var bin := (14 * total + 1020000) / 2040000;
    if bin <= 7 then bin else 7
  }

  function Bin(data: seq<Byte>, width: nat, x: nat, y: nat): (bin: nat)
    ensures bin <= 7
  {
    BinOf(Total(data, width, x, y))
  }

  // get_bin
  method GetBin(data: seq<Byte>, width: nat, x: nat, y: nat) returns (bin: nat)
    ensures bin == Bin(data, width, x, y)
  {
    hide BinOf, Lum, PixelNumber;
    var total := 0;
    for i := 0 to BLOCK_SIZE
      invariant i == 0 ==> total == 0
      invariant i == 1 ==> total == Column(data, width, x, y)
      invariant i == 2 ==> total == Total(data, width, x, y)
    {
      ghost var before := total;
      for j := 0 to BLOCK_SIZE
        invariant j == 0 ==> total == before
        invariant j == 1 ==> total == before + Luminance(data, PixelNumber(width, x + i, y))
        invariant j == 2 ==> total == before + Column(data, width, x + i, y)
      {
        var index := PixelNumber(width, x + i, y + j) * 4;
        if index + 2 < |data| {
          total := total + Lum(data[index], data[index + 1], data[index + 2]);
        }
      }
    }
    bin := BinOf(total);
  }

  // A block is read as a symbol exactly when its average lies within half a step of symbol * 255 / 7.
  lemma {:induction false} BinBand(total: nat, symbol: nat)
    requires symbol <= 7 && total <= 1020000
    ensures BinOf(total) == symbol <==> 2040000 * symbol - 1020000 <= 14 * total < 2040000 * symbol + 1020000
  {}

  // The average luminance of a block is within 17 of the symbol's level.
  ghost predicate Near(total: nat, symbol: nat)
    requires symbol < 8
  {
    -68000 <= total - 4000 * Level(symbol) <= 68000
  }

  lemma {:induction false} NearIsRead(total: nat, symbol: nat)
    requires symbol < 8 && Near(total, symbol)
    ensures BinOf(total) == symbol
  {}

  // The character made of the blocks at (x, y) and to its right
  function CharAt(data: seq<Byte>, width: nat, x: nat, y: nat): char {
    CharOf(Bin(data, width, x, y) * 8 + Bin(data, width, x + BLOCK_SIZE, y))
  }

  // ----- decode

  function Header(data: seq<Byte>, width: nat): string {
    [CharAt(data, width, 0, 0), CharAt(data, width, 4, 0), CharAt(data, width, 0, 2), CharAt(data, width, 4, 2),
     CharAt(data, width, 0, 4), CharAt(data, width, 4, 4), CharAt(data, width, 0, 6), CharAt(data, width, 4, 6)]
  }

  predicate IsDigit(c: char) {
    '0' <= c <= '9'
  }

  predicate AllDigits(s: string) {
    forall i | 0 <= i < |s| :: IsDigit(s[i])
  }

  function DigitsValue(s: string): nat {
    if |s| == 0 then 0 else 10 * DigitsValue(s[..|s| - 1]) + (if IsDigit(s[|s| - 1]) then s[|s| - 1] as nat - 48 else 0)
  }

  // str::parse::<usize>: digits, with an optional plus sign in front
  function ParseLength(s: string): Option<nat> {
    var digits := if |s| > 0 && s[0] == '+' then s[1..] else s;
    if |digits| > 0 && AllDigits(digits) then Some(DigitsValue(digits)) else None
  }

  // The scan from (x, y) on, with what has been read so far
  function Scan(
    width: nat, height: nat, data: seq<Byte>, x: nat, y: nat, lengthChars: string, payloadChars: string,
    payloadLen: Option<nat>): Outcome
    decreases if y < height then height - y else 0, if x < width then width - x else 0
  {
    if y >= height then Outcome(Some(payloadChars), Incomplete)
    else if x >= width then Scan(width, height, data, 0, y + BLOCK_SIZE, lengthChars, payloadChars, payloadLen)
    else if y < HEADER_SIZE && x < HEADER_SIZE then
      Scan(width, height, data, x + 2 * BLOCK_SIZE, y, lengthChars, payloadChars, payloadLen)
    else
      var ch := CharAt(data, width, x, y);
      if y == 0 && x < HEADER_SIZE + 16 * BLOCK_SIZE then
        Scan(width, height, data, x + 2 * BLOCK_SIZE, y, lengthChars + [ch], payloadChars, payloadLen)
      else
        var len := if payloadLen == None then ParseLength(lengthChars) else payloadLen;
        if len == None then Outcome(None, InvalidLength)
        else if |payloadChars| + 1 >= len.value then Outcome(Some(payloadChars + [ch]), Done)
        else Scan(width, height, data, x + 2 * BLOCK_SIZE, y, lengthChars, payloadChars + [ch], len)
  }

  function Decoded(width: nat, height: nat, data: seq<Byte>): Outcome {
    if Header(data, width) != NAME then Outcome(None, InvalidHeader)
    else Scan(width, height, data, 0, 0, "", "", None)
  }

  // The loop that reads the header
  method ReadHeader(data: seq<Byte>, width: nat) returns (header: string)
    ensures header == Header(data, width)
  {
    hide Bin;
    header := "";
    var y := 0;
    while y < HEADER_SIZE
      invariant 0 <= y <= 8 && y % 2 == 0
      invariant header == Header(data, width)[..y]
    {
      var x := 0;
      while x < HEADER_SIZE
        invariant 0 <= x <= 8 && x % 4 == 0
        invariant header == Header(data, width)[..y + x / 4]
      {
        var b0 := GetBin(data, width, x, y);
        var b1 := GetBin(data, width, x + BLOCK_SIZE, y);
        assert CharOf(b0 * 8 + b1) == CharAt(data, width, x, y) == Header(data, width)[y + x / 4];
        header := header + [CharOf(b0 * 8 + b1)];
        x := x + 2 * BLOCK_SIZE;
      }
      y := y + BLOCK_SIZE;
    }
  }

  method Decode(width: nat, height: nat, data: seq<Byte>) returns (r: Outcome)
    ensures r == Decoded(width, height, data)
  {
    hide Bin, ParseLength, Header, CharOf;
    var header := ReadHeader(data, width);
    if header != NAME {
      return Outcome(None, InvalidHeader);
    }
    var lengthChars, payloadChars := "", "";
    var payloadLen: Option<nat> := None;
    var count := 0;
    var y := 0;
    while y < height
      invariant count == |payloadChars|
      invariant Decoded(width, height, data) == Scan(width, height, data, 0, y, lengthChars, payloadChars, payloadLen)
    {
      var x := 0;
      while x < width
        invariant count == |payloadChars|
        invariant Decoded(width, height, data) == Scan(width, height, data, x, y, lengthChars, payloadChars, payloadLen)
      {
        if !(y < HEADER_SIZE && x < HEADER_SIZE) {
          var b0 := GetBin(data, width, x, y);
          var b1 := GetBin(data, width, x + BLOCK_SIZE, y);
          var ch := CharOf(b0 * 8 + b1);
          if y == 0 && x < HEADER_SIZE + 16 * BLOCK_SIZE {
            lengthChars := lengthChars + [ch];
          } else {
            if payloadLen == None {
              payloadLen := ParseLength(lengthChars);
              if payloadLen == None {
                return Outcome(None, InvalidLength);
              }
            }
            payloadChars := payloadChars + [ch];
            count := count + 1;
            if count >= payloadLen.value {
              return Outcome(Some(payloadChars), Done);
            }
          }
        }
        x := x + 2 * BLOCK_SIZE;
      }
      y := y + BLOCK_SIZE;
    }
    return Outcome(Some(payloadChars), Incomplete);
  }
}
