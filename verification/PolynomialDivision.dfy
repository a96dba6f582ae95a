/**
 Long division of polynomials, the recursion of Polynomial.__divmod__.
 */
module PolynomialDivision {
  import F = GF256
  import opened Polynomials
  import opened PolynomialRing

  // The source raises an error when the divisor is zero: its leading coefficient has no inverse.
  function DivMod(dividend: Poly, divisor: Poly): (Poly, Poly)
    requires divisor != ZERO
    decreases |dividend.coefficients|
  {
    var quotientPower := Degree(dividend) - Degree(divisor);
    if quotientPower < 0 then
      (ZERO, dividend)
    else
      var quotientCoefficient := F.Div(dividend.coefficients[0], divisor.coefficients[0]);
      var quotient := Term(quotientCoefficient, quotientPower);
      var remainder := Sub(dividend, Mul(quotient, divisor));
      RemainderShrinks(dividend, divisor);
      if remainder == ZERO then
        (quotient, remainder)
      else
        var (moreQuotient, lastRemainder) := DivMod(remainder, divisor);
        (Add(quotient, moreQuotient), lastRemainder)
  }

  function Div(dividend: Poly, divisor: Poly): Poly
    requires divisor != ZERO
  {
    DivMod(dividend, divisor).0
  }

  function Mod(dividend: Poly, divisor: Poly): Poly
    requires divisor != ZERO
  {
    DivMod(dividend, divisor).1
  }

  lemma {:induction false} TermMul(a: Elem, n: nat, p: Poly)
    ensures Mul(Term(a, n), p) == ShiftBy(Scale(a, p), n)
  {
    hide Coeff, Term, Shift, Mul, Scale;
    Coeffs();
    if n == 0 {
      Ext(Term(a, 0), Const(a));
      MulConst(a, p);
    } else {
      Ext(Term(a, n), Shift(Term(a, n - 1)));
      TermMul(a, n - 1, p);
      MulShift(Term(a, n - 1), p);
    }
  }

  lemma AboveBound(p: Poly, d: int, i: nat)
    requires DegLe(p, d) && i > d
    ensures Coeff(p, i) == F.ZERO
  {}

  // The leading coefficients multiply.
  lemma {:induction false} MulLead(p: Poly, q: Poly, d: nat, e: nat)
    requires DegLe(p, d) && DegLe(q, e)
    ensures Coeff(Mul(p, q), d + e) == F.Mul(Coeff(p, d), Coeff(q, e))
    decreases d
  {
    hide *;
    var a, t := Coeff(p, 0), Tail(p);
    MulStep(p, q);
    DegLeTail(p, d);
    AddCoeff(Scale(a, q), Shift(Mul(t, q)), d + e);
    ScaleCoeff(a, q, d + e);
    ShiftCoeff(Mul(t, q), d + e);
    if d == 0 {
      DegLeZero(t, -1);
      MulZeroLeft(q);
      ScaleShift(a, q);
      ShiftCoeff(ZERO, e);
      DegLeZero(p, 0);
      ZeroCoeff(e);
      F.AddZero(F.Mul(a, Coeff(q, e)));
    } else {
      MulLead(t, q, d - 1, e);
      TailCoeff(p, d - 1);
      AboveBound(q, e, d + e);
      F.MulZero(a);
      F.AddZero(F.Mul(Coeff(p, d), Coeff(q, e)));
    }
  }

  // Degree is the least bound.
  lemma DegreeLe(p: Poly, d: int)
    requires DegLe(p, d) && p != ZERO
    ensures Degree(p) <= d
  {
    DegLeDegree(p);
  }

  // Subtracting the multiple of q that matches the leading term of p lowers the degree of p.
  lemma CancelLead(p: Poly, q: Poly, c: Elem, d: nat, e: nat)
    requires DegLe(p, d) && DegLe(q, e) && d >= e
    requires F.Mul(c, Coeff(q, e)) == Coeff(p, d)
    ensures DegLe(Sub(p, Mul(Term(c, d - e), q)), d - 1)
  {
    hide Coeff, Term, Sub, Mul, F.Mul;
    var difference := Sub(p, Mul(Term(c, d - e), q));
    forall i: nat | i >= d
      ensures Coeff(difference, i) == F.ZERO
    {
      CancelLeadAt(p, q, c, d, e, i);
    }
  }

  lemma CancelLeadAt(p: Poly, q: Poly, c: Elem, d: nat, e: nat, i: nat)
    requires DegLe(p, d) && DegLe(q, e) && i >= d >= e
    requires F.Mul(c, Coeff(q, e)) == Coeff(p, d)
    ensures Coeff(Sub(p, Mul(Term(c, d - e), q)), i) == F.ZERO
  {
    hide *;
    var product := Mul(Term(c, d - e), q);
    TermMul(c, d - e, q);
    SubIsAdd(p, product);
    ShiftByCoeff(Scale(c, q), d - e, i);
    ScaleCoeff(c, q, i - (d - e));
    AddCoeff(p, product, i);
    F.AddSelf(Coeff(p, i));
    if i > d {
      AboveBound(p, d, i);
      AboveBound(q, e, i - (d - e));
      F.MulZero(c);
    }
  }

  // One step of long division leaves zero or a shorter polynomial.
  lemma {:induction false} RemainderShrinks(dividend: Poly, divisor: Poly)
    requires divisor != ZERO && Degree(dividend) >= Degree(divisor)
    ensures F.ZERO != divisor.coefficients[0]
    ensures var quotient := Term(F.Div(dividend.coefficients[0], divisor.coefficients[0]),
            Degree(dividend) - Degree(divisor));
            var remainder := Sub(dividend, Mul(quotient, divisor));
            remainder == ZERO || |remainder.coefficients| < |dividend.coefficients|
  {
    var a, b := dividend.coefficients[0], divisor.coefficients[0];
    var d: int, e: int := Degree(dividend), Degree(divisor);
    assert Coeff(dividend, d) == a && Coeff(divisor, e) == b;
    hide Coeff, DegLe, Term, Sub, Mul, F.Mul, F.Div;
    DegLeDegree(dividend);
    DegLeDegree(divisor);
    DivTimes(a, b);
    CancelLead(dividend, divisor, F.Div(a, b), d, e);
    var remainder := Sub(dividend, Mul(Term(F.Div(a, b), d - e), divisor));
    if remainder != ZERO {
      DegreeLe(remainder, d - 1);
    }
  }

  lemma DivTimes(a: Elem, b: Elem)
    requires b != F.ZERO
    ensures F.Mul(F.Div(a, b), b) == a
  {
    hide F.Mul, F.Inverse;
    F.MulAssoc(a, F.Inverse(b), b);
    F.MulComm(F.Inverse(b), b);
    F.MulInverse(b);
    F.MulOne(a);
  }

  // The division identity, with a remainder that is zero or of smaller degree.
  lemma {:induction false} DivModIdentity(dividend: Poly, divisor: Poly)
    requires divisor != ZERO
    ensures var (q, r) := DivMod(dividend, divisor);
            && dividend == Add(Mul(q, divisor), r)
            && (r == ZERO || Degree(r) < Degree(divisor))
    decreases |dividend.coefficients|
  {
    hide Coeff, Term, Add, Sub, Mul, F.Div;
    if Degree(dividend) < Degree(divisor) {
      MulZeroLeft(divisor);
      AddZero(dividend);
    } else {
      RemainderShrinks(dividend, divisor);
      var quotient := Term(F.Div(dividend.coefficients[0], divisor.coefficients[0]),
          Degree(dividend) - Degree(divisor));
      var product := Mul(quotient, divisor);
      var remainder := Sub(dividend, product);
      SubIsAdd(dividend, product);
      AddComm(dividend, product);
      AddCancel(product, dividend);
      if remainder != ZERO {
        DivModIdentity(remainder, divisor);
        var (more, last) := DivMod(remainder, divisor);
        MulAddLeft(quotient, more, divisor);
        AddAssoc(product, Mul(more, divisor), last);
      }
    }
  }

  // A multiple of the divisor of smaller degree is zero.
  lemma SmallMultiple(s: Poly, divisor: Poly)
    requires divisor != ZERO && DegLe(Mul(s, divisor), Degree(divisor) - 1)
    ensures s == ZERO
  {
    if s != ZERO {
      var d: int, e: int := Degree(s), Degree(divisor);
      DegLeDegree(s);
      DegLeDegree(divisor);
      AboveBound(Mul(s, divisor), e - 1, d + e);
      hide *;
      MulLead(s, divisor, d, e);
      F.MulNonzero(Coeff(s, d), Coeff(divisor, e));
    }
  }

  // Quotient and remainder are determined by the identity and the degree bound.
  lemma {:induction false} DivModUnique(dividend: Poly, divisor: Poly, q: Poly, r: Poly)
    requires divisor != ZERO
    requires dividend == Add(Mul(q, divisor), r)
    requires r == ZERO || Degree(r) < Degree(divisor)
    ensures DivMod(dividend, divisor) == (q, r)
  {
    hide *;
    DivModIdentity(dividend, divisor);
    var (q', r') := DivMod(dividend, divisor);
    // (q + q') * divisor == r + r'
    MulAddLeft(q, q', divisor);
    AddSwap(Mul(q, divisor), r, Mul(q', divisor), r');
    AddSelf(dividend);
    AddIsZero(Mul(Add(q, q'), divisor), Add(r, r'));
    SmallDegree(r, Degree(divisor));
    SmallDegree(r', Degree(divisor));
    DegLeAdd(r, r', Degree(divisor) - 1);
    SmallMultiple(Add(q, q'), divisor);
    AddIsZero(q, q');
    MulZeroLeft(divisor);
    AddIsZero(r, r');
  }

  lemma SmallDegree(r: Poly, e: nat)
    requires r == ZERO || Degree(r) < e
    ensures DegLe(r, e - 1)
  {
    if r == ZERO {
      DegLeZero(r, e - 1);
    } else {
      DegLeDegree(r);
    }
  }
}
