/**
 What the Reed-Solomon coder of desktop/rs.py is for: any (n - k) / 2 byte errors are
 corrected, and codewords of different messages differ in more than n - k bytes.
 */
module ErrorCorrection {
  import F = GF256
  import opened Polynomials
  import opened PolynomialRing
  import opened PolynomialDivision
  import opened KeyEquation
  import opened RSCode
  import opened Decoder
  import BerlekampMassey

  // The number of positions at which two words differ
  function Distance(a: seq<Elem>, b: seq<Elem>): nat
    requires |a| == |b|
  {
    if |a| == 0 then 0
    else Distance(a[..|a| - 1], b[..|b| - 1]) + (if a[|a| - 1] != b[|b| - 1] then 1 else 0)
  }

  // ----- the list of errors

  // The nonzero coefficients of e at the positions 254 down to 255 - l
  function ErrorList(e: Poly, l: nat): seq<Error>
    requires l <= 255
  {
    if l == 0 then []
    else ErrorList(e, l - 1) + (if Coeff(e, 255 - l) != F.ZERO then [Error(255 - l, Coeff(e, 255 - l))] else [])
  }

  ghost predicate ListsErrors(es: seq<Error>, e: Poly, l: nat) {
    && (forall i | 0 <= i < |es| ::
          255 - l <= es[i].position < 255 && es[i].value == Coeff(e, es[i].position) && es[i].value != F.ZERO)
    && (forall i, j | 0 <= i < j < |es| :: es[i].position > es[j].position)
  }

  lemma {:induction false} ErrorListShape(e: Poly, l: nat)
    requires l <= 255
    ensures ListsErrors(ErrorList(e, l), e, l)
  {
    hide Coeff;
    if l > 0 {
      ErrorListShape(e, l - 1);
    }
  }

  // The sum of value * x^position
  function SumOf(es: seq<Error>): Poly {
    if es == [] then ZERO
    else var m := |es| - 1; Add(SumOf(es[..m]), Term(es[m].value, es[m].position))
  }

  lemma {:induction false} SumOfErrorList(e: Poly, l: nat, i: nat)
    requires l <= 255
    ensures Coeff(SumOf(ErrorList(e, l)), i) == if 255 - l <= i < 255 then Coeff(e, i) else F.ZERO
  {
    hide Coeff, Add, Term, F.Add;
    if l == 0 {
      ZeroCoeff(i);
    } else {
      var p := 255 - l;
      SumOfErrorList(e, l - 1, i);
      var before, es := ErrorList(e, l - 1), ErrorList(e, l);
      if Coeff(e, p) != F.ZERO {
        assert es[..|es| - 1] == before;
        AddCoeff(SumOf(before), Term(Coeff(e, p), p), i);
        TermCoeff(Coeff(e, p), p, i);
        F.AddZero(Coeff(SumOf(before), i));
        F.AddZero(Coeff(e, p));
      } else {
        assert es == before;
      }
    }
  }

  lemma ErrorListSum(e: Poly)
    requires DegLe(e, 254)
    ensures SumOf(ErrorList(e, 255)) == e
  {
    hide Coeff, SumOf, ErrorList;
    forall i: nat
      ensures Coeff(SumOf(ErrorList(e, 255)), i) == Coeff(e, i)
    {
      SumOfErrorList(e, 255, i);
    }
    Ext(SumOf(ErrorList(e, 255)), e);
  }

  lemma {:induction false} EvalTerm(a: Elem, n: nat, x: Elem)
    requires x != F.ZERO
    ensures Eval(Term(a, n), x) == F.Mul(a, F.Pow(x, n))
  {
    hide Coeff, Term, Shift, Eval, Scale, Mul, F.Mul, F.Pow;
    TermIs(a, n);
    if n == 0 {
      EvalConst(a, x);
      F.PowZero(x);
      F.MulOne(a);
    } else {
      EvalTerm(a, n - 1, x);
      EvalShift(Term(a, n - 1), x);
      F.PowOne(x);
      F.PowAdd(x, n - 1, 1);
      F.MulAssoc(a, F.Pow(x, n - 1), x);
      F.MulComm(x, F.Mul(a, F.Pow(x, n - 1)));
    }
  }

  lemma TermIs(a: Elem, n: nat)
    ensures n == 0 ==> Term(a, n) == Const(a)
    ensures n > 0 ==> Term(a, n) == Shift(Term(a, n - 1))
  {
    hide Coeff, Term, Shift;
    Coeffs();
    if n == 0 {
      Ext(Term(a, 0), Const(a));
    } else {
      Ext(Term(a, n), Shift(Term(a, n - 1)));
    }
  }

  // The power sums of the errors are the values of their polynomial.
  lemma {:induction false} PowerSumIsEval(es: seq<Error>, l: nat)
    ensures PowerSum(es, l) == Eval(SumOf(es), F.Pow(F.ALPHA, l))
  {
    hide Eval, Add, Term, F.Add, F.Mul, F.Pow;
    var x := F.Pow(F.ALPHA, l);
    if es == [] {
      EvalConst(F.ZERO, x);
    } else {
      var m := |es| - 1;
      PowerSumIsEval(es[..m], l);
      F.PowPow(F.ALPHA, l, es[m].position);
      F.PowPow(F.ALPHA, es[m].position, l);
      EvalAdd(SumOf(es[..m]), Term(es[m].value, es[m].position), x);
      EvalTerm(es[m].value, es[m].position, x);
      assert l * es[m].position == es[m].position * l;
    }
  }

  // ----- words that differ in few places

  // The error polynomial of a received word
  function ErrorOf(received: seq<Elem>, code: seq<Elem>): Poly {
    Add(Make(received), Make(code))
  }

  lemma ErrorOfCoeff(received: seq<Elem>, code: seq<Elem>, i: nat)
    ensures Coeff(ErrorOf(received, code), i) == F.Add(At(received, i), At(code, i))
  {
    hide Coeff, Add, Make, At, F.Add;
    AddCoeff(Make(received), Make(code), i);
    MakeAt(received, i);
    MakeAt(code, i);
  }

  lemma ErrorOfDegree(received: seq<Elem>, code: seq<Elem>)
    requires |received| == |code| <= 255
    ensures DegLe(ErrorOf(received, code), 254)
  {
    hide Coeff, ErrorOf, F.Add;
    forall i: nat | i > 254
      ensures Coeff(ErrorOf(received, code), i) == F.ZERO
    {
      ErrorOfCoeff(received, code, i);
      F.AddZero(F.ZERO);
    }
  }

  // As many errors are listed as there are positions that differ.
  lemma {:induction false} ErrorCount(received: seq<Elem>, code: seq<Elem>, l: nat)
    requires |received| == |code| <= 255 && l <= |code|
    ensures |ErrorList(ErrorOf(received, code), 255 - |code| + l)| == Distance(received[..l], code[..l])
  {
    hide Coeff, ErrorOf, F.Add;
    var e, n := ErrorOf(received, code), |code|;
    if l == 0 {
      NoErrorsAbove(received, code, 255 - n);
    } else {
      ErrorCount(received, code, l - 1);
      ErrorOfCoeff(received, code, n - l);
      F.AddIsZero(At(received, n - l), At(code, n - l));
      assert received[..l][..l - 1] == received[..l - 1];
      assert code[..l][..l - 1] == code[..l - 1];
      assert 255 - (255 - n + l) == n - l;
    }
  }

  lemma {:induction false} NoErrorsAbove(received: seq<Elem>, code: seq<Elem>, l: nat)
    requires |received| == |code| <= 255 && l <= 255 - |code|
    ensures ErrorList(ErrorOf(received, code), l) == []
  {
    hide Coeff, ErrorOf, F.Add;
    if l > 0 {
      NoErrorsAbove(received, code, l - 1);
      ErrorOfCoeff(received, code, 255 - l);
      F.AddZero(F.ZERO);
    }
  }

  lemma ErrorListLength(received: seq<Elem>, code: seq<Elem>)
    requires |received| == |code| <= 255
    ensures |ErrorList(ErrorOf(received, code), 255)| == Distance(received, code)
  {
    hide ErrorOf, Distance, ErrorList;
    ErrorCount(received, code, |code|);
    assert received[..|code|] == received && code[..|code|] == code;
  }

  // The listed errors, for two words of the same length
  lemma {:induction false} ErrorsBetween(received: seq<Elem>, code: seq<Elem>)
    requires |received| == |code| <= 255
    ensures var es := ErrorList(ErrorOf(received, code), 255);
            && |es| == Distance(received, code)
            && ErrorsOk(es)
            && SumOf(es) == ErrorOf(received, code)
  {
    hide ErrorOf, Distance, ErrorList, SumOf, DegLe, Coeff;
    var e := ErrorOf(received, code);
    ErrorListLength(received, code);
    ErrorListShape(e, 255);
    ErrorOfDegree(received, code);
    ErrorListSum(e);
  }

  lemma {:induction false} DistanceZero(a: seq<Elem>, b: seq<Elem>)
    requires |a| == |b|
    ensures Distance(a, b) == 0 <==> a == b
  {
    if |a| > 0 {
      var m := |a| - 1;
      DistanceZero(a[..m], b[..m]);
      assert a == a[..m] + [a[m]] && b == b[..m] + [b[m]];
    }
  }

  // Words whose sum has no syndrome are equal or differ in more than d positions.
  lemma {:induction false} SilentWords(a: seq<Elem>, b: seq<Elem>, d: nat)
    requires |a| == |b| <= 255 && a != b
    requires NoSyndrome(ErrorOf(a, b), d)
    ensures Distance(a, b) > d
  {
    hide ErrorOf, Distance, ErrorList, SumOf, PowerSum, ErrorsOk, Eval, F.Pow;
    ErrorsBetween(a, b);
    DistanceZero(a, b);
    var es := ErrorList(ErrorOf(a, b), 255);
    if |es| <= d {
      NoSilentErrors(es, d);
      var l: nat :| 1 <= l <= d && PowerSum(es, l) != F.ZERO;
      PowerSumIsEval(es, l);
      assert false;
    }
  }

  // Codewords of messages that differ once padded differ in at least n - k + 1 positions.
  lemma {:induction false} MinimumDistance(coder: RSCoder, m1: seq<Elem>, m2: seq<Elem>)
    requires coder.Valid() && |m1| <= coder.k && |m2| <= coder.k
    requires Rjust(m1, coder.k) != Rjust(m2, coder.k)
    ensures Encode(coder, m1).Ok? && Encode(coder, m2).Ok?
    ensures |Encode(coder, m1).value| == |Encode(coder, m2).value| == coder.n
    ensures Distance(Encode(coder, m1).value, Encode(coder, m2).value) >= coder.n - coder.k + 1
  {
    hide Encode, Verify, Generator, Make, NoSyndrome, Rjust, Distance, EncodePoly, Mul, Add;
    var q1 := EncodeShape(coder, m1);
    var q2 := EncodeShape(coder, m2);
    var c1, c2 := Encode(coder, m1).value, Encode(coder, m2).value;
    VerifyIffNoSyndrome(coder, c1);
    VerifyIffNoSyndrome(coder, c2);
    NoSyndromeAdd(Make(c1), Make(c2), coder.n - coder.k);
    SilentWords(c1, c2, coder.n - coder.k);
  }

  // ----- the stages of decode on a word with few errors

  lemma {:induction false} SyndromesHold(received: seq<Elem>, code: seq<Elem>, d: nat)
    requires |received| == |code| <= 255 && NoSyndrome(Make(code), d)
    ensures HasSyndromes(Syndromes(Make(received), d), ErrorList(ErrorOf(received, code), 255), d)
  {
    hide Coeff, Eval, Make, Add, PowerSum, Distance, ErrorList, SumOf, Syndromes, ErrorsOk, F.Pow, F.Add;
    var r, c := Make(received), Make(code);
    var es := ErrorList(ErrorOf(received, code), 255);
    ErrorsBetween(received, code);
    SyndromesCoeff(r, d, 0);
    forall l: nat | 1 <= l <= d
      ensures Coeff(Syndromes(r, d), l) == PowerSum(es, l)
    {
      SyndromesCoeff(r, d, l);
      PowerSumIsEval(es, l);
      EvalAdd(r, c, F.Pow(F.ALPHA, l));
      F.AddZero(Eval(r, F.Pow(F.ALPHA, l)));
    }
  }

  function Positions(es: seq<Error>): (js: seq<int>)
    ensures |js| == |es|
  {
    seq(|es|, i requires 0 <= i < |es| => es[i].position)
  }

  // sigma has the root alpha^l exactly when 255 - l is an error position.
  lemma {:induction false} LocatorRoot(es: seq<Error>, l: nat)
    requires ErrorsOk(es) && 1 <= l <= 255
    ensures Eval(Locator(es), F.Pow(F.ALPHA, l)) == F.ZERO <==> 255 - l in Positions(es)
  {
    hide Eval, Locator, Cofactor, F.Mul, F.Pow;
    var x := F.Pow(F.ALPHA, l);
    LocatorEval(es, x, |es|);
    CofactorZero(es, x, |es|);
    forall i | 0 <= i < |es|
      ensures F.Mul(Location(es[i]), x) == F.ONE <==> Positions(es)[i] == 255 - l
    {
      F.PowAdd(F.ALPHA, es[i].position, l);
      F.PowZero(F.ALPHA);
      F.AlphaPowers(es[i].position + l, 0);
    }
  }

  // The root search lists the error positions, in the order of the error list.
  lemma {:induction false} RootsAreErrors(e: Poly, sigma: Poly, l: nat)
    requires l <= 255
    requires forall p: nat | p < 255 :: Eval(sigma, F.Pow(F.ALPHA, 255 - p)) == F.ZERO <==> Coeff(e, p) != F.ZERO
    ensures RootPositions(sigma, l) == Positions(ErrorList(e, l))
  {
    hide Eval, Coeff, F.Pow;
    if l > 0 {
      RootsAreErrors(e, sigma, l - 1);
      var p := 255 - l;
      assert 255 - p == l;
      assert Eval(sigma, F.Pow(F.ALPHA, 255 - p)) == F.ZERO <==> Coeff(e, p) != F.ZERO;
    }
  }

  lemma {:induction false} ErrorListComplete(e: Poly, l: nat, p: nat)
    requires l <= 255 && p < 255
    ensures p in Positions(ErrorList(e, l)) <==> 255 - l <= p && Coeff(e, p) != F.ZERO
  {
    hide Coeff;
    if l > 0 {
      ErrorListComplete(e, l - 1, p);
      var before, es := ErrorList(e, l - 1), ErrorList(e, l);
      assert Positions(es) == Positions(before) || Positions(es) == Positions(before) + [255 - l];
    }
  }

  // The positions found by the root search on the true locator
  lemma {:induction false} ChienFindsErrors(e: Poly)
    requires ErrorsOk(ErrorList(e, 255))
    ensures RootPositions(Locator(ErrorList(e, 255)), 255) == Positions(ErrorList(e, 255))
  {
    hide Eval, Locator, ErrorList, Coeff, ErrorsOk, Positions, RootPositions, F.Pow;
    var es := ErrorList(e, 255);
    forall p: nat | p < 255
      ensures Eval(Locator(es), F.Pow(F.ALPHA, 255 - p)) == F.ZERO <==> Coeff(e, p) != F.ZERO
    {
      LocatorRoot(es, 255 - p);
      ErrorListComplete(e, 255, p);
    }
    RootsAreErrors(e, Locator(es), 255);
  }

  // ----- Forney's formula

  // The factors X_i - X_j of the difference product are X_i times those of the cofactor.
  lemma {:induction false} ProductIsCofactor(es: seq<Error>, x: Elem, i: nat, t: nat)
    requires i < |es| && F.Mul(Location(es[i]), x) == F.ONE
    requires Location(es[i]) != F.ZERO
    ensures var used := if t < |es| then t else |es|;
            DifferenceProduct(Locations(es), i, t)
            == F.Mul(F.Pow(Location(es[i]), if i < t then t - 1 else t), Cofactor(es[..used], x, i))
  {
    hide Location, F.Add, F.Mul, F.Pow;
    var a := Location(es[i]);
    if t == 0 {
      F.PowZero(a);
      F.MulOne(F.ONE);
    } else {
      ProductIsCofactor(es, x, i, t - 1);
      var power := F.Pow(a, if i < t - 1 then t - 2 else t - 1);
      F.PowOne(a);
      if t <= |es| {
        assert es[..t][..t - 1] == es[..t - 1];
        if t - 1 != i {
          var b := Location(es[t - 1]);
          F.PowAdd(a, if i < t - 1 then t - 2 else t - 1, 1);
          DifferenceFactor(a, b, x);
          PairUp(power, Cofactor(es[..t - 1], x, i), a, F.Add(F.ONE, F.Mul(b, x)));
        }
      } else {
        F.PowAdd(a, t - 2, 1);
        F.AddZero(a);
        var c := Cofactor(es, x, i);
        assert es[..|es|] == es;
        PairUp(power, c, a, F.ONE);
        F.MulOne(a);
        F.MulOne(c);
      }
    }
  }

  lemma DifferenceFactor(a: Elem, b: Elem, x: Elem)
    requires F.Mul(a, x) == F.ONE
    ensures F.Add(a, b) == F.Mul(a, F.Add(F.ONE, F.Mul(b, x)))
  {
    hide *;
    F.MulAdd(F.ONE, F.Mul(b, x), a);
    F.MulOne(a);
    F.MulComm(b, x);
    F.MulAssoc(a, x, b);
    F.MulOne(b);
  }

  // (p c) (a f) == (p a) (c f)
  lemma PairUp(p: Elem, c: Elem, a: Elem, f: Elem)
    ensures F.Mul(F.Mul(p, c), F.Mul(a, f)) == F.Mul(F.Mul(p, a), F.Mul(c, f))
  {
    hide *;
    F.MulAssoc(p, c, F.Mul(a, f));
    F.MulAssoc(c, a, f);
    F.MulComm(c, a);
    F.MulAssoc(a, c, f);
    F.MulAssoc(p, a, F.Mul(c, f));
  }

  lemma LocationsUsable(es: seq<Error>)
    requires ErrorsOk(es)
    ensures Usable(Locations(es)) && |Locations(es)| == |es|
  {
    hide Location, ErrorsOk;
    var X := Locations(es);
    forall i | 0 <= i < |X|
      ensures X[i] != F.ZERO
    {
      LocationNonzero(es[i]);
    }
    forall i, j | 0 <= i < j < |X|
      ensures X[i] != X[j]
    {
      LocationsDistinct(es, i, j);
    }
  }

  // Forney's formula returns the error value, also when fewer than s errors occurred.
  lemma {:induction false} MagnitudeIsValue(es: seq<Error>, s: nat, i: nat)
    requires ErrorsOk(es) && i < |es| <= s
    requires Usable(Locations(es)) && |Locations(es)| == |es|
    ensures Magnitude(Evaluator(es), Locations(es), s, i) == es[i].value
  {
    hide Location, ErrorsOk, Eval, Evaluator, DifferenceProduct, Cofactor, Usable, F.Mul, F.Pow, F.Inverse;
    var a, y := Location(es[i]), es[i].value;
    LocationNonzero(es[i]);
    assert Locations(es)[i] == a;
    var x := F.Inverse(a);
    F.MulInverse(a);
    EvaluatorEval(es, x, i);
    ProductIsCofactor(es, x, i, s);
    assert es[..|es|] == es;
    DifferenceProductNonzero(Locations(es), i, s);
    var c, p := Cofactor(es, x, i), F.Pow(a, s - 1);
    F.PowAdd(a, s - 1, 1);
    F.PowOne(a);
    ForneyAlgebra(p, a, x, y, c);
  }

  // ((p a) (y c)) x / (p c) == y
  lemma ForneyAlgebra(p: Elem, a: Elem, x: Elem, y: Elem, c: Elem)
    requires F.Mul(a, x) == F.ONE && F.Mul(p, c) != F.ZERO
    ensures F.Mul(F.Mul(F.Mul(F.Mul(p, a), F.Mul(y, c)), x), F.Inverse(F.Mul(p, c))) == y
  {
    hide *;
    var pc := F.Mul(p, c);
    F.MulComm(y, c);
    PairUp(p, c, a, y);
    F.MulAssoc(pc, F.Mul(a, y), x);
    F.MulComm(a, y);
    F.MulAssoc(y, a, x);
    F.MulOne(y);
    F.MulComm(pc, y);
    F.MulAssoc(y, pc, F.Inverse(pc));
    F.MulInverse(pc);
  }

  // ----- decode

  lemma PowersAtPositions(es: seq<Error>)
    ensures PowersAt(Positions(es)) == Locations(es)
  {
    hide F.Pow;
  }

  function Values(es: seq<Error>): (ys: seq<Elem>)
    ensures |ys| == |es|
  {
    seq(|es|, i requires 0 <= i < |es| => es[i].value)
  }

  // The located errors and their values rebuild the error polynomial.
  lemma ErrorPolyOfList(e: Poly)
    requires DegLe(e, 254)
    ensures ErrorPoly(Positions(ErrorList(e, 255)), Values(ErrorList(e, 255))) == e
  {
    hide Coeff, Make, ErrorList;
    var es := ErrorList(e, 255);
    var js, ys := Positions(es), Values(es);
    ErrorListShape(e, 255);
    var entries := seq(255, i requires 0 <= i < 255 => ErrorAt(js, ys, 254 - i));
    forall i: nat
      ensures Coeff(ErrorPoly(js, ys), i) == Coeff(e, i)
    {
      MakeAt(entries, i);
      if i < 255 {
        ErrorListComplete(e, 255, i);
      }
    }
    Ext(ErrorPoly(js, ys), e);
  }

  // With few errors, the correction is exactly the error polynomial.
  lemma {:induction false} CorrectionIsError(coder: RSCoder, received: seq<Elem>, code: seq<Elem>)
    requires coder.Valid() && |received| == |code| == coder.n
    requires NoSyndrome(Make(code), coder.n - coder.k)
    requires 2 * Distance(received, code) <= coder.n - coder.k
    ensures Correction(coder, Make(received)) == ErrorOf(received, code)
  {
    hide Make, NoSyndrome, Generator, ErrorOf, Distance, ErrorList, SumOf, DegLe, ErrorsOk, Coeff, Syndromes;
    hide HasSyndromes, Usable, Locations;
    hide BerlekampMassey.Iterate, Locator, Evaluator, RootPositions, Positions, PowersAt, Values, Magnitude, ErrorPoly;
    var d, e := coder.n - coder.k, ErrorOf(received, code);
    var es, s := ErrorList(e, 255), (coder.n - coder.k) / 2;
    ErrorsBetween(received, code);
    SyndromesHold(received, code, d);
    BerlekampMassey.IterateFindsErrors(Syndromes(Make(received), d), es, d);
    ChienFindsErrors(e);
    PowersAtPositions(es);
    LocationsUsable(es);
    MagnitudesAreValues(es, s);
    ErrorOfDegree(received, code);
    ErrorPolyOfList(e);
  }

  lemma MagnitudesAreValues(es: seq<Error>, s: nat)
    requires ErrorsOk(es) && |es| <= s && Usable(Locations(es)) && |Locations(es)| == |es|
    ensures Magnitudes(Evaluator(es), Locations(es), s) == Values(es)
  {
    hide Magnitude, ErrorsOk, Usable, Locations, Evaluator;
    forall i | 0 <= i < |es|
      ensures Magnitude(Evaluator(es), Locations(es), s, i) == es[i].value
    {
      MagnitudeIsValue(es, s, i);
    }
  }

  // ----- the headline theorem

  // What decode promises for a message: k bytes with nostrip, no leading NULs without.
  function Expected(coder: RSCoder, message: seq<Elem>, nostrip: bool): seq<Elem> {
    if nostrip then Rjust(message, coder.k) else LStrip(message)
  }

  lemma {:induction false} LStripZeros(n: nat, c: seq<Elem>)
    ensures LStrip(Zeros(n) + c) == LStrip(c)
    decreases n
  {
    if n > 0 {
      assert (Zeros(n) + c)[1..] == Zeros(n - 1) + c;
      LStripZeros(n - 1, c);
    } else {
      assert Zeros(0) + c == c;
    }
  }

  lemma LStripRjust(c: seq<Elem>, n: nat)
    ensures LStrip(Rjust(c, n)) == LStrip(c)
  {
    hide LStrip;
    if |c| < n {
      LStripZeros(n - |c|, c);
    }
  }

  // The upper part of a polynomial's coefficients, against the upper part of its n bytes
  lemma UpperPart(c: Poly, n: nat, d: nat)
    requires |c.coefficients| <= n && 1 <= d <= n
    ensures LStrip(Rjust(c.coefficients, n)[..n - d]) == DropLast(c.coefficients, d)
    ensures Rjust(DropLast(c.coefficients, d), n - d) == Rjust(c.coefficients, n)[..n - d]
  {
    var cs := c.coefficients;
    var ret := DropLast(cs, d);
    assert Rjust(cs, n) == Zeros(n - |cs|) + cs;
    if |cs| <= d {
      assert Rjust(cs, n)[..n - d] == Zeros(n - d) + [];
      LStripZeros(n - d, []);
    } else {
      assert Rjust(cs, n)[..n - d] == Zeros(n - |cs|) + ret;
      LStripZeros(n - |cs|, ret);
    }
  }

  lemma {:induction false} DecodeCodeword(coder: RSCoder, message: seq<Elem>, nostrip: bool)
    requires coder.Valid() && |message| <= coder.k
    ensures Encode(coder, message).Ok?
    ensures Decoded(coder, Encode(coder, message).value, nostrip) == Expected(coder, message, nostrip)
  {
    hide Verify, Generator, EncodePoly, Make, LStrip, Rjust, Mul, Correction;
    var q := EncodeShape(coder, message);
    LStripRjust(message, coder.k);
  }

  lemma LengthBound(p: Poly, n: nat)
    requires DegLe(p, n - 1) && n > 0
    ensures |p.coefficients| <= n
  {
    if p != ZERO {
      DegreeLe(p, n - 1);
    }
  }

  // What decode makes of the corrected polynomial
  lemma DecodeCorrected(coder: RSCoder, message: seq<Elem>, nostrip: bool)
    requires coder.Valid() && |message| <= coder.k
    ensures var ret := DropLast(EncodePoly(coder, message).coefficients, coder.n - coder.k);
            (if nostrip then Rjust(ret, coder.k) else ret) == Expected(coder, message, nostrip)
  {
    hide Verify, Generator, EncodePoly, Make, LStrip, Rjust, DropLast, Mul, DegLe;
    var q := EncodeShape(coder, message);
    LStripRjust(message, coder.k);
    EncodePolyDegree(coder, message);
    var c := EncodePoly(coder, message);
    LengthBound(c, coder.n);
    UpperPart(c, coder.n, coder.n - coder.k);
  }

  // Any word within (n - k) / 2 byte errors of a codeword decodes to its message.
  lemma {:induction false} DecodeCorrectsErrors(coder: RSCoder, message: seq<Elem>, received: seq<Elem>, nostrip: bool)
    requires coder.Valid() && |message| <= coder.k && |received| == coder.n
    ensures Encode(coder, message).Ok? && |Encode(coder, message).value| == coder.n
    ensures Distance(received, Encode(coder, message).value) <= (coder.n - coder.k) / 2
            ==> Decoded(coder, received, nostrip) == Expected(coder, message, nostrip)
  {
    hide Verify, Generator, Encode, EncodePoly, Make, Mul, NoSyndrome, Distance, Correction, Add, Sub, DropLast;
    hide Rjust, Expected;
    var q := EncodeShape(coder, message);
    var code, d := Encode(coder, message).value, coder.n - coder.k;
    if Distance(received, code) <= d / 2 {
      VerifyIffNoSyndrome(coder, code);
      if Verify(coder, received) {
        // a codeword within the radius is the codeword sent
        VerifyIffNoSyndrome(coder, received);
        NoSyndromeAdd(Make(received), Make(code), d);
        if received != code {
          SilentWords(received, code, d);
          assert false;
        }
        DecodeCodeword(coder, message, nostrip);
      } else {
        CorrectionIsError(coder, received, code);
        var r, c := Make(received), Make(code);
        SubIsAdd(r, ErrorOf(received, code));
        AddCancel(r, c);
        DecodeCorrected(coder, message, nostrip);
      }
    }
  }

  lemma {:induction false} LStripIdentity(c: seq<Elem>)
    ensures |LStrip(c)| <= |c|
    ensures LStrip(c) == c <==> c == [] || c[0] != F.ZERO
  {
    if |c| > 0 && c[0] == F.ZERO {
      LStripIdentity(c[1..]);
    }
  }

  // decode gives back the message itself exactly when it has no leading NUL, or, with nostrip, all of k bytes.
  lemma {:induction false} DecodeReturnsMessage(coder: RSCoder, message: seq<Elem>, received: seq<Elem>)
    requires coder.Valid() && |message| <= coder.k && |received| == coder.n
    ensures Encode(coder, message).Ok? && |Encode(coder, message).value| == coder.n
    ensures Distance(received, Encode(coder, message).value) <= (coder.n - coder.k) / 2 ==>
              && (Decoded(coder, received, false) == message <==> message == [] || message[0] != F.ZERO)
              && (Decoded(coder, received, true) == message <==> |message| == coder.k)
  {
    hide Generator, Encode, Distance, Decoded, LStrip;
    DecodeCorrectsErrors(coder, message, received, false);
    DecodeCorrectsErrors(coder, message, received, true);
    LStripIdentity(message);
  }
}
