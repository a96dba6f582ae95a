/**
 desktop/ImageCoder.py with bsearch of desktop/util.py: base64 characters as two octal
 symbols, symbols as gray levels, and the way back from an average by the nearest level.
 Averages are exact; floating-point rounding is not modelled.
 */
module ImageCoder {

  // ----- bsearch

  ghost predicate Increasing(a: seq<real>) {
    forall i, j | 0 <= i < j < |a| :: a[i] < a[j]
  }

  function Dist(x: real, y: real): real {
    if x < y then y - x else x - y
  }

  // a[i] is nearest to x, and the last entry that is.
  ghost predicate Nearest(a: seq<real>, x: real, i: int) {
    && 0 <= i < |a|
    && (forall j | 0 <= j < |a| :: Dist(x, a[i]) <= Dist(x, a[j]))
    && (forall j | i < j < |a| :: Dist(x, a[i]) < Dist(x, a[j]))
  }

  lemma NearestUnique(a: seq<real>, x: real, i: int, j: int)
    requires Nearest(a, x, i) && Nearest(a, x, j)
    ensures i == j
  {
    assert Dist(x, a[i]) <= Dist(x, a[j]) <= Dist(x, a[i]);
  }

  // a[i] is nearest when x lies between the midpoints to its two neighbours.
  lemma NearestInBand(a: seq<real>, x: real, i: int)
    requires Increasing(a) && 0 <= i < |a|
    requires i > 0 ==> x + x >= a[i - 1] + a[i]
    requires i < |a| - 1 ==> x + x < a[i] + a[i + 1]
    ensures Nearest(a, x, i)
  {
    forall j | 0 <= j < |a|
      ensures j <= i ==> Dist(x, a[i]) <= Dist(x, a[j])
      ensures j > i ==> Dist(x, a[i]) < Dist(x, a[j])
    {
      if j < i {
        assert a[j] <= a[i - 1] < a[i];
      } else if j > i {
        assert a[i] < a[i + 1] <= a[j];
      }
    }
  }

  method Bsearch(a: seq<real>, x: real) returns (index: int)
    requires |a| > 0 && Increasing(a)
    ensures Nearest(a, x, index)
  {
    var lo, hi := 0, |a| - 1;
    hide Nearest;
    if x < a[lo] {
      NearestInBand(a, x, lo);
      return lo;
    }
    if x > a[hi] {
      NearestInBand(a, x, hi);
      return hi;
    }
    var mid, prevComparison := 0, 0;
    while lo <= hi
      invariant 0 <= lo <= hi + 1 <= |a|
      invariant forall i | 0 <= i < lo :: a[i] < x
      invariant forall i | hi < i < |a| :: a[i] > x
      invariant prevComparison == 0 ==> lo <= hi
      invariant prevComparison < 0 ==> mid == lo - 1
      invariant prevComparison > 0 ==> mid == hi + 1
      decreases hi - lo
    {
      mid := (lo + hi) / 2;
      var midval := a[mid];
      if midval < x {
        lo := mid + 1;
        prevComparison := -1;
      } else if midval > x {
        hi := mid - 1;
        prevComparison := 1;
      } else {
        NearestInBand(a, x, mid);
        return mid;
      }
    }
    var optionLow, optionHigh;
    if prevComparison < 0 {
      optionLow, optionHigh := mid, mid + 1;
    } else {
      optionLow, optionHigh := mid - 1, mid;
    }
    var distA := x - a[optionLow];
    var distB := a[optionHigh] - x;
    if distA < distB {
      NearestInBand(a, x, optionLow);
      return optionLow;
    } else {
      NearestInBand(a, x, optionHigh);
      return optionHigh;
    }
  }

  // ----- symbols and gray levels

  // thresholds: symbol 0 is the brightest level; symbol 8 stands for black.
  function Level(symbol: nat): int
    requires symbol <= 8
  {
    238 - 28 * symbol
  }

  // sorted(_inv_thresholds.keys())
  const LEVELS: seq<real> := [14.0, 42.0, 70.0, 98.0, 126.0, 154.0, 182.0, 210.0, 238.0]

  lemma LevelsIncreasing()
    ensures |LEVELS| == 9 && Increasing(LEVELS)
    ensures forall i | 0 <= i < 9 :: LEVELS[i] == Level(8 - i) as real
  {
    assert LEVELS[0] == 14.0 && LEVELS[1] == 42.0 && LEVELS[2] == 70.0 && LEVELS[3] == 98.0 && LEVELS[4] == 126.0;
    assert LEVELS[5] == 154.0 && LEVELS[6] == 182.0 && LEVELS[7] == 210.0 && LEVELS[8] == 238.0;
  }

  // The symbol whose level is nearest to an average, the brighter one on a tie
  function NearestSymbol(average: real): (symbol: nat)
    ensures symbol <= 8
  {
    if average < 28.0 then 8
    else if average < 56.0 then 7
    else if average < 84.0 then 6
    else if average < 112.0 then 5
    else if average < 140.0 then 4
    else if average < 168.0 then 3
    else if average < 196.0 then 2
    else if average < 224.0 then 1
    else 0
  }

  // The thresholds above are what searching the nine levels amounts to.
  lemma {:induction false} NearestSymbolIsNearest(average: real)
    ensures Nearest(LEVELS, average, 8 - NearestSymbol(average))
  {
    hide Nearest, Increasing;
    LevelsIncreasing();
    NearestInBand(LEVELS, average, 8 - NearestSymbol(average));
  }

  // signal_to_symbol, for the average of one square
  method SignalToSymbol(average: real) returns (symbol: nat)
    ensures symbol == NearestSymbol(average)
  {
    hide Nearest, Increasing;
    LevelsIncreasing();
    var i := Bsearch(LEVELS, average);
    NearestSymbolIsNearest(average);
    NearestUnique(LEVELS, average, i, 8 - NearestSymbol(average));
    return 8 - i;
  }

  // A symbol is recovered exactly from the averages in a half-open band of 14 around its level;
  // the band is unbounded above for the brightest symbol and below for black.
  lemma {:induction false} NearestSymbolBand(average: real, symbol: nat)
    requires symbol <= 8
    ensures NearestSymbol(average) == symbol <==>
              && (symbol == 8 || average >= Level(symbol) as real - 14.0)
              && (symbol == 0 || average < Level(symbol) as real + 14.0)
  {}

  // getBase8Value of the site's decoder, for the mean of a square: -1 for black
  function SiteSymbol(mean: real): int {
    var a := (mean / 28.0).Floor;
    if a == 0 then -1 else if a > 8 then 0 else 8 - a
  }

  // The two decoders agree on every average: black is -1 on the site and 8 in the desktop program.
  lemma {:induction false} SiteAgrees(mean: real)
    requires 0.0 <= mean
    ensures SiteSymbol(mean) == if NearestSymbol(mean) == 8 then -1 else NearestSymbol(mean)
  {
    var a := (mean / 28.0).Floor;
    assert a as real <= mean / 28.0 < (a + 1) as real;
  }
}
