/**
 desktop/NewImageDimensions.py: how many symbols wide and high an image must be to hold its data,
 for a given ratio of width to height or for a fixed width. Real arithmetic is exact.
 */
module ImageDimensions {

  // _round_up
  function Ceil(x: real): (c: int)
    ensures c as real - 1.0 < x <= c as real
  {
    -((-x).Floor)
  }

  // _round_down: int() of a nonnegative number
  function RoundDown(x: real): (c: int)
    requires x >= 0.0
    ensures 0 <= c && c as real <= x < c as real + 1.0
  {
    x.Floor
  }

  class NewImageDimensions {
    const whRatio: real
    const dataLen: nat
    const symbolWidth: nat
    const symbolHeight: nat
    // 0 when no width is fixed
    const fixedWidth: nat

    var newWidth: int
    var newHeight: int
    var numSymbolsWide: int
    var numSymbolsHigh: int

    constructor (whRatio: real, dataLen: nat, symbolWidth: nat, symbolHeight: nat, fixedWidth: nat)
      ensures this.whRatio == whRatio && this.dataLen == dataLen && this.fixedWidth == fixedWidth
      ensures this.symbolWidth == symbolWidth && this.symbolHeight == symbolHeight
    {
      this.whRatio, this.dataLen, this.fixedWidth := whRatio, dataLen, fixedWidth;
      this.symbolWidth, this.symbolHeight := symbolWidth, symbolHeight;
      newWidth, newHeight, numSymbolsWide, numSymbolsHigh := 0, 0, 0, 0;
    }

    // The parameters for which the source computes dimensions without dividing by zero
    ghost predicate Usable() {
      && whRatio > 0.0 && symbolWidth > 0 && symbolHeight > 0
      && if fixedWidth > 0 then fixedWidth >= symbolWidth else dataLen > 0
    }

    // The grid holds the data, and the image is as large as the grid.
    ghost predicate Holds()
      reads this
    {
      && numSymbolsWide > 0 && numSymbolsHigh >= 0
      && numSymbolsWide * numSymbolsHigh >= dataLen
      && newWidth == numSymbolsWide * symbolWidth && newHeight == numSymbolsHigh * symbolHeight
    }

    // The number whose square root the source takes for the width
    function SquaredWidth(): real
      requires symbolWidth > 0
    {
      whRatio * symbolHeight as real * dataLen as real / symbolWidth as real
    }

    method GetDimsFixedWidth()
      requires Usable() && fixedWidth > 0
      modifies this`numSymbolsWide, this`numSymbolsHigh
      ensures numSymbolsWide == fixedWidth / symbolWidth > 0
      ensures numSymbolsWide * (numSymbolsHigh - 1) < dataLen <= numSymbolsWide * numSymbolsHigh
    {
      var quotient := fixedWidth as real / symbolWidth as real;
      FloorQuotient(fixedWidth, symbolWidth);
      var wide := RoundDown(quotient);
      var high := dataLen as real / wide as real;
      numSymbolsWide := wide;
      numSymbolsHigh := Ceil(high);
      LeastRows(wide, dataLen, high, numSymbolsHigh);
    }

    // root is the square root of SquaredWidth().
    method CalculateSymbolDims(root: real)
      requires Usable() && fixedWidth == 0
      requires root > 0.0 && root * root == SquaredWidth()
      modifies this
      ensures numSymbolsWide == Ceil(root) && Ceil(dataLen as real / root) <= numSymbolsHigh
      ensures numSymbolsWide * numSymbolsHigh >= dataLen
      // the height reaches to within one row of width / ratio, and added rows do not exceed it
      ensures newHeight as real > newWidth as real / whRatio - symbolHeight as real
      ensures numSymbolsHigh > Ceil(dataLen as real / root) ==> newHeight as real <= newWidth as real / whRatio
      ensures newWidth == symbolWidth * numSymbolsWide && newHeight == symbolHeight * numSymbolsHigh
    {
      var symWidth := Ceil(root);
      var symHeight := Ceil(dataLen as real / root);
      Capacity(root, dataLen as real, symWidth, symHeight);
      newHeight := symbolHeight * symHeight;
      newWidth := symbolWidth * symWidth;
      PositiveProduct(symbolHeight, symHeight);
      RatioTest(newWidth as real, newHeight as real, whRatio);
      if newWidth as real / newHeight as real > whRatio {
        var desiredHeight := newWidth as real / whRatio;
        var surplus := (desiredHeight - newHeight as real) / symbolHeight as real;
        RowsToAdd(desiredHeight, newHeight as real, symbolHeight as real);
        var symbolRowsToAdd := RoundDown(surplus);
        RowsAdded(desiredHeight, symHeight, symbolHeight, surplus, symbolRowsToAdd);
        MoreRows(symWidth, symHeight, symbolRowsToAdd);
        symHeight := symHeight + symbolRowsToAdd;
        newHeight := symbolHeight * symHeight;
      }
      numSymbolsWide := symWidth;
      numSymbolsHigh := symHeight;
    }

    // _calculate_num_symbols
    method CalculateNumSymbols(root: real)
      requires Usable()
      requires fixedWidth == 0 ==> root > 0.0 && root * root == SquaredWidth()
      modifies this
      ensures Holds()
      // the fewest rows that hold the data
      ensures fixedWidth > 0 ==>
                && numSymbolsWide == fixedWidth / symbolWidth
                && numSymbolsWide * (numSymbolsHigh - 1) < dataLen <= numSymbolsWide * numSymbolsHigh
      // the fewest rows that the root allows and that come within one row of width / ratio
      ensures fixedWidth == 0 ==>
                && numSymbolsWide == Ceil(root) && numSymbolsHigh >= Ceil(dataLen as real / root)
                && newHeight as real > newWidth as real / whRatio - symbolHeight as real
                && (numSymbolsHigh == Ceil(dataLen as real / root) || newHeight as real <= newWidth as real / whRatio)
    {
      if fixedWidth > 0 {
        GetDimsFixedWidth();
        NonnegativeRows(numSymbolsWide, numSymbolsHigh, dataLen);
      } else {
        CalculateSymbolDims(root);
        NonnegativeRows(numSymbolsWide, numSymbolsHigh, dataLen);
      }
      newWidth := numSymbolsWide * symbolWidth;
      newHeight := numSymbolsHigh * symbolHeight;
    }
  }

  // ----- arithmetic

  lemma FloorQuotient(a: nat, b: nat)
    requires b > 0 && a >= b
    ensures a as real / b as real >= 1.0
    ensures (a as real / b as real).Floor == a / b
  {
    var q := a / b;
    assert q * b <= a < (q + 1) * b by {
      assert a == b * q + a % b;
    }
    QuotientBounds(a as real, b as real, q as real);
    CastProduct(q, b);
    CastProduct(q + 1, b);
  }

  lemma QuotientBounds(a: real, b: real, q: real)
    requires b > 0.0
    ensures q * b <= a <==> q <= a / b
    ensures a < (q + 1.0) * b <==> a / b < q + 1.0
  {
    var d, e := a / b, q + 1.0;
    TimesDivided(a, b, d);
    Scaled(q, d, b);
    Scaled(e, d, b);
    assert e * b <= a <==> e <= d;
  }

  lemma Scaled(x: real, y: real, b: real)
    requires b > 0.0
    ensures x <= y <==> x * b <= y * b
  {
    if x <= y {
      assert (y - x) * b >= 0.0;
    } else {
      assert (x - y) * b > 0.0;
    }
  }

  // Rounding both the width and the height up keeps the capacity.
  lemma Capacity(w: real, len: real, wide: int, high: int)
    requires w > 0.0 && len > 0.0 && wide as real >= w && high as real >= len / w
    ensures wide > 0 && high > 0 && (wide * high) as real >= len
  {
    assert len / w > 0.0;
    assert len == len / w * w;
    Scaled(len / w, high as real, w);
    Scaled(w, wide as real, high as real);
    CastProduct(wide, high);
    assert w * high as real == high as real * w;
  }

  lemma PositiveProduct(a: nat, b: int)
    requires a > 0 && b > 0
    ensures a * b > 0
  {}

  lemma RatioTest(width: real, height: real, ratio: real)
    requires height > 0.0 && ratio > 0.0
    ensures width / height > ratio <==> width / ratio > height
  {
    var d, e := width / height, width / ratio;
    assert d * height == width && e * ratio == width;
    Scaled(d, ratio, height);
    Scaled(e, height, ratio);
    assert ratio * height == height * ratio;
  }

  lemma RowsToAdd(desired: real, height: real, row: real)
    requires row > 0.0 && desired > height
    ensures (desired - height) / row >= 0.0
  {}

  lemma RowsAdded(desired: real, high: int, row: nat, surplus: real, rows: int)
    requires row > 0 && surplus == (desired - (row * high) as real) / row as real
    requires rows as real <= surplus < rows as real + 1.0
    ensures (row * (high + rows)) as real <= desired < (row * (high + rows)) as real + row as real
  {
    var h := (row * high) as real;
    TimesDivided(desired - h, row as real, surplus);
    WithinOneRow(desired - h, row as real, surplus, rows as real);
    AddedHeight(row, high, rows);
  }

  lemma WithinOneRow(gap: real, r: real, surplus: real, n: real)
    requires r > 0.0 && surplus * r == gap && n <= surplus < n + 1.0
    ensures n * r <= gap < n * r + r
  {
    Scaled(n, surplus, r);
    BelowNextRow(gap, r, surplus, n, n + 1.0, n * r);
  }

  lemma BelowNextRow(gap: real, r: real, surplus: real, n: real, next: real, height: real)
    requires r > 0.0 && surplus * r == gap && surplus < next == n + 1.0 && height == n * r
    ensures gap < height + r
  {
    assert (next - surplus) * r > 0.0;
    assert next * r == n * r + r;
  }

  lemma TimesDivided(a: real, b: real, q: real)
    requires b > 0.0 && q == a / b
    ensures q * b == a
  {}

  lemma AddedHeight(row: nat, high: int, rows: int)
    ensures (row * (high + rows)) as real == (row * high) as real + rows as real * row as real
  {
    assert row * (high + rows) == row * high + rows * row;
    CastProduct(rows, row);
  }

  lemma MoreRows(wide: int, high: int, rows: int)
    requires wide > 0 && rows >= 0
    ensures wide * (high + rows) >= wide * high
  {}

  lemma NonnegativeRows(wide: int, high: int, len: nat)
    requires wide > 0 && wide * high >= len
    ensures high >= 0
  {
    if high < 0 {
      NegativeProduct(wide, high);
    }
  }

  lemma NegativeProduct(a: int, b: int)
    requires a > 0 && b < 0
    ensures a * b < 0
  {}

  lemma CastProduct(a: int, b: int)
    ensures (a * b) as real == a as real * b as real
  {}

  // The number of rows is the least that holds the data.
  lemma LeastRows(wide: int, len: nat, high: real, rows: int)
    requires wide > 0 && high == len as real / wide as real
    requires rows as real - 1.0 < high <= rows as real
    ensures wide * (rows - 1) < len <= wide * rows
  {
    var w, r := wide as real, rows as real;
    assert high * w == len as real;
    Scaled(high, r, w);
    Scaled(high, r - 1.0, w);
    CastProduct(wide, rows);
    CastProduct(wide, rows - 1);
    assert r * w == w * r && (r - 1.0) * w == w * (r - 1.0);
  }
}
