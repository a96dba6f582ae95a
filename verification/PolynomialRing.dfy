/**
 Ring laws of the polynomials of desktop/polynomial.py, evaluation, congruence modulo a
 power of x, and the bound on the number of roots.
 */
module PolynomialRing {
  import F = GF256
  import opened Polynomials

  // ----- addition and multiplication by scalars and by x

  lemma AddComm(p: Poly, q: Poly)
    ensures Add(p, q) == Add(q, p)
  {
    hide *;
    Coeffs();
    forall i: nat
      ensures Coeff(Add(p, q), i) == Coeff(Add(q, p), i)
    {
      F.AddComm(Coeff(p, i), Coeff(q, i));
    }
    Ext(Add(p, q), Add(q, p));
  }

  lemma AddAssoc(p: Poly, q: Poly, r: Poly)
    ensures Add(Add(p, q), r) == Add(p, Add(q, r))
  {
    hide *;
    Coeffs();
    forall i: nat
      ensures Coeff(Add(Add(p, q), r), i) == Coeff(Add(p, Add(q, r)), i)
    {
      F.AddAssoc(Coeff(p, i), Coeff(q, i), Coeff(r, i));
    }
    Ext(Add(Add(p, q), r), Add(p, Add(q, r)));
  }

  lemma AddZero(p: Poly)
    ensures Add(p, ZERO) == p && Add(ZERO, p) == p
  {
    hide *;
    Coeffs();
    forall i: nat
      ensures Coeff(Add(p, ZERO), i) == Coeff(p, i)
    {
      F.AddZero(Coeff(p, i));
    }
    Ext(Add(p, ZERO), p);
    AddComm(p, ZERO);
  }

  lemma AddSelf(p: Poly)
    ensures Add(p, p) == ZERO
  {
    hide *;
    Coeffs();
    forall i: nat
      ensures Coeff(Add(p, p), i) == Coeff(ZERO, i)
    {
      F.AddSelf(Coeff(p, i));
    }
    Ext(Add(p, p), ZERO);
  }

  lemma AddSwap(p: Poly, q: Poly, r: Poly, s: Poly)
    ensures Add(Add(p, q), Add(r, s)) == Add(Add(p, r), Add(q, s))
  {
    hide *;
    Coeffs();
    var lhs, rhs := Add(Add(p, q), Add(r, s)), Add(Add(p, r), Add(q, s));
    forall i: nat
      ensures Coeff(lhs, i) == Coeff(rhs, i)
    {
      F.AddSwap(Coeff(p, i), Coeff(q, i), Coeff(r, i), Coeff(s, i));
    }
    Ext(lhs, rhs);
  }

  // Adding twice undoes the addition.
  lemma AddCancel(p: Poly, q: Poly)
    ensures Add(p, Add(p, q)) == q && Add(Add(q, p), p) == q
  {
    hide *;
    AddAssoc(p, p, q);
    AddAssoc(q, p, p);
    AddSelf(p);
    AddZero(q);
  }

  lemma AddIsZero(p: Poly, q: Poly)
    ensures Add(p, q) == ZERO <==> p == q
  {
    hide *;
    AddSelf(p);
    AddCancel(p, q);
    AddZero(p);
  }

  lemma SubIsAdd(p: Poly, q: Poly)
    ensures Sub(p, q) == Add(p, q)
  {
    hide Add, Neg;
    NegIsSelf(q);
  }

  lemma ScaleAdd(a: Elem, p: Poly, q: Poly)
    ensures Scale(a, Add(p, q)) == Add(Scale(a, p), Scale(a, q))
  {
    hide *;
    Coeffs();
    var lhs, rhs := Scale(a, Add(p, q)), Add(Scale(a, p), Scale(a, q));
    forall i: nat
      ensures Coeff(lhs, i) == Coeff(rhs, i)
    {
      F.MulAdd(Coeff(p, i), Coeff(q, i), a);
    }
    Ext(lhs, rhs);
  }

  lemma ScaleSum(a: Elem, b: Elem, p: Poly)
    ensures Scale(F.Add(a, b), p) == Add(Scale(a, p), Scale(b, p))
  {
    hide *;
    Coeffs();
    var lhs, rhs := Scale(F.Add(a, b), p), Add(Scale(a, p), Scale(b, p));
    forall i: nat
      ensures Coeff(lhs, i) == Coeff(rhs, i)
    {
      F.MulAdd(a, b, Coeff(p, i));
    }
    Ext(lhs, rhs);
  }

  lemma ScaleScale(a: Elem, b: Elem, p: Poly)
    ensures Scale(a, Scale(b, p)) == Scale(F.Mul(a, b), p)
  {
    hide *;
    Coeffs();
    var lhs, rhs := Scale(a, Scale(b, p)), Scale(F.Mul(a, b), p);
    forall i: nat
      ensures Coeff(lhs, i) == Coeff(rhs, i)
    {
      F.MulAssoc(a, b, Coeff(p, i));
    }
    Ext(lhs, rhs);
  }

  lemma ScaleZeroOne(p: Poly)
    ensures Scale(F.ZERO, p) == ZERO && Scale(F.ONE, p) == p
  {
    hide *;
    Coeffs();
    forall i: nat
      ensures Coeff(Scale(F.ZERO, p), i) == Coeff(ZERO, i) && Coeff(Scale(F.ONE, p), i) == Coeff(p, i)
    {
      F.MulZero(Coeff(p, i));
      F.MulOne(Coeff(p, i));
    }
    Ext(Scale(F.ZERO, p), ZERO);
    Ext(Scale(F.ONE, p), p);
  }

  lemma ShiftAdd(p: Poly, q: Poly)
    ensures Shift(Add(p, q)) == Add(Shift(p), Shift(q))
  {
    hide *;
    Coeffs();
    F.AddZero(F.ZERO);
    Ext(Shift(Add(p, q)), Add(Shift(p), Shift(q)));
  }

  lemma ScaleShift(a: Elem, p: Poly)
    ensures Scale(a, Shift(p)) == Shift(Scale(a, p))
    ensures Shift(ZERO) == ZERO && Scale(a, ZERO) == ZERO
  {
    hide *;
    Coeffs();
    F.MulZero(a);
    Ext(Scale(a, Shift(p)), Shift(Scale(a, p)));
    Ext(Shift(ZERO), ZERO);
    Ext(Scale(a, ZERO), ZERO);
  }

  lemma TailOf(a: Elem, p: Poly, q: Poly)
    ensures Tail(Add(p, q)) == Add(Tail(p), Tail(q))
    ensures Tail(Scale(a, p)) == Scale(a, Tail(p))
    ensures Tail(Shift(p)) == p
    ensures Tail(Const(a)) == ZERO
  {
    hide *;
    Coeffs();
    Ext(Tail(Add(p, q)), Add(Tail(p), Tail(q)));
    Ext(Tail(Scale(a, p)), Scale(a, Tail(p)));
    Ext(Tail(Shift(p)), p);
    Ext(Tail(Const(a)), ZERO);
  }

  // Every polynomial is its constant term plus x times its tail.
  lemma Split(p: Poly)
    ensures p == Add(Const(Coeff(p, 0)), Shift(Tail(p)))
  {
    hide *;
    Coeffs();
    var q := Add(Const(Coeff(p, 0)), Shift(Tail(p)));
    forall i: nat
      ensures Coeff(p, i) == Coeff(q, i)
    {
      F.AddZero(Coeff(p, i));
    }
    Ext(p, q);
  }

  lemma OneTerm(p: Poly)
    requires |p.coefficients| == 1
    ensures p == Const(Coeff(p, 0)) && Tail(p) == ZERO
  {
    TailOf(Coeff(p, 0), p, p);
  }

  // ----- the product

  lemma MulStep(p: Poly, q: Poly)
    ensures Mul(p, q) == Add(Scale(Coeff(p, 0), q), Shift(Mul(Tail(p), q)))
  {
    hide Add, Shift, Scale, Tail, Coeff;
    if |p.coefficients| == 1 {
      OneTerm(p);
      MulZeroLeft(q);
      ScaleShift(Coeff(p, 0), q);
      AddZero(Scale(Coeff(p, 0), q));
    }
  }

  lemma MulConst(a: Elem, q: Poly)
    ensures Mul(Const(a), q) == Scale(a, q)
  {
    hide Scale;
  }

  lemma MulZeroLeft(q: Poly)
    ensures Mul(ZERO, q) == ZERO
  {
    MulConst(F.ZERO, q);
    hide Scale, Mul;
    ScaleZeroOne(q);
  }

  lemma {:induction false} MulZeroRight(p: Poly)
    ensures Mul(p, ZERO) == ZERO
    decreases |p.coefficients|
  {
    hide Add, Shift, Scale, Tail, Coeff;
    TailShorter(p);
    ScaleShift(Coeff(p, 0), p);
    AddZero(ZERO);
    if |p.coefficients| > 1 {
      MulZeroRight(Tail(p));
    }
  }

  lemma {:induction false} MulAddLeft(p: Poly, q: Poly, r: Poly)
    ensures Mul(Add(p, q), r) == Add(Mul(p, r), Mul(q, r))
    decreases |p.coefficients| + |q.coefficients|
  {
    TailShorter(p);
    TailShorter(q);
    hide *;
    Coeffs();
    var a, b := Coeff(p, 0), Coeff(q, 0);
    var s, t := Mul(Tail(p), r), Mul(Tail(q), r);
    if |p.coefficients| == 1 && |q.coefficients| == 1 {
      OneTerm(p);
      OneTerm(q);
      AddZero(ZERO);
      MulZeroLeft(r);
      AddZero(Mul(ZERO, r));
    } else {
      OneTermTail(p);
      OneTermTail(q);
      MulAddLeft(Tail(p), Tail(q), r);
    }
    assert Mul(Add(Tail(p), Tail(q)), r) == Add(s, t);
    MulStep(p, r);
    MulStep(q, r);
    MulStep(Add(p, q), r);
    TailOf(a, p, q);
    ScaleSum(a, b, r);
    ShiftAdd(s, t);
    AddSwap(Scale(a, r), Scale(b, r), Shift(s), Shift(t));
  }

  lemma OneTermTail(p: Poly)
    ensures |Tail(p).coefficients| == if |p.coefficients| == 1 then 1 else |p.coefficients| - 1
  {
    TailShorter(p);
    if |p.coefficients| == 1 {
      OneTerm(p);
    }
  }

  lemma {:induction false} MulAddRight(p: Poly, q: Poly, r: Poly)
    ensures Mul(p, Add(q, r)) == Add(Mul(p, q), Mul(p, r))
    decreases |p.coefficients|
  {
    hide *;
    var a, t := Coeff(p, 0), Tail(p);
    if |p.coefficients| == 1 {
      OneTerm(p);
      MulConst(a, q);
      MulConst(a, r);
      MulConst(a, Add(q, r));
      ScaleAdd(a, q, r);
    } else {
      OneTermTail(p);
      MulAddRight(t, q, r);
      MulStep(p, q);
      MulStep(p, r);
      MulStep(p, Add(q, r));
      ScaleAdd(a, q, r);
      ShiftAdd(Mul(t, q), Mul(t, r));
      AddSwap(Scale(a, q), Scale(a, r), Shift(Mul(t, q)), Shift(Mul(t, r)));
    }
  }

  lemma {:induction false} MulScale(a: Elem, p: Poly, q: Poly)
    ensures Mul(Scale(a, p), q) == Scale(a, Mul(p, q))
    decreases |p.coefficients|
  {
    hide *;
    var b, t := Coeff(p, 0), Tail(p);
    Coeffs();
    if |p.coefficients| == 1 {
      OneTerm(p);
      MulZeroLeft(q);
      ScaleShift(a, q);
    } else {
      OneTermTail(p);
      MulScale(a, t, q);
    }
    MulStep(p, q);
    MulStep(Scale(a, p), q);
    TailOf(a, p, p);
    ScaleScale(a, b, q);
    ScaleAdd(a, Scale(b, q), Shift(Mul(t, q)));
    ScaleShift(a, Mul(t, q));
  }

  lemma MulShift(p: Poly, q: Poly)
    ensures Mul(Shift(p), q) == Shift(Mul(p, q))
  {
    hide *;
    Coeffs();
    MulStep(Shift(p), q);
    TailOf(F.ZERO, p, p);
    ScaleZeroOne(q);
    AddZero(Shift(Mul(p, q)));
  }

  lemma {:induction false} MulAssoc(p: Poly, q: Poly, r: Poly)
    ensures Mul(Mul(p, q), r) == Mul(p, Mul(q, r))
    decreases |p.coefficients|
  {
    hide *;
    var a, t := Coeff(p, 0), Tail(p);
    if |p.coefficients| == 1 {
      OneTerm(p);
      MulConst(a, q);
      MulConst(a, Mul(q, r));
      MulScale(a, q, r);
    } else {
      OneTermTail(p);
      MulAssoc(t, q, r);
      MulStep(p, q);
      MulStep(p, Mul(q, r));
      MulAddLeft(Scale(a, q), Shift(Mul(t, q)), r);
      MulScale(a, q, r);
      MulShift(Mul(t, q), r);
    }
  }

  lemma ScaleOfConst(a: Elem, b: Elem)
    ensures Scale(a, Const(b)) == Const(F.Mul(a, b))
  {
    hide *;
    Coeffs();
    F.MulZero(a);
    Ext(Scale(a, Const(b)), Const(F.Mul(a, b)));
  }

  // a q, split at the constant term of q
  lemma ScaleSplit(a: Elem, q: Poly)
    ensures Scale(a, q) == Add(Const(F.Mul(a, Coeff(q, 0))), Shift(Scale(a, Tail(q))))
  {
    hide *;
    Split(q);
    ScaleAdd(a, Const(Coeff(q, 0)), Shift(Tail(q)));
    ScaleShift(a, Tail(q));
    ScaleOfConst(a, Coeff(q, 0));
  }

  lemma {:induction false} MulStepRight(p: Poly, q: Poly)
    ensures Mul(p, q) == Add(Scale(Coeff(q, 0), p), Shift(Mul(p, Tail(q))))
    decreases |p.coefficients|
  {
    hide *;
    var a, b, s, t := Coeff(p, 0), Coeff(q, 0), Tail(p), Tail(q);
    F.MulComm(a, b);
    ScaleSplit(a, q);
    ScaleSplit(b, p);
    if |p.coefficients| == 1 {
      OneTerm(p);
      MulConst(a, q);
      MulConst(a, t);
      ScaleShift(b, s);
      AddZero(Const(F.Mul(a, b)));
    } else {
      OneTermTail(p);
      MulStepRight(s, q);
      MulStep(p, q);
      MulStep(p, t);
      // p q == (a b + x (a t)) + (x (b s) + x x (s t))
      ShiftAdd(Scale(b, s), Shift(Mul(s, t)));
      // b p + x (p t) == (a b + x (b s)) + (x (a t) + x x (s t))
      ShiftAdd(Scale(a, t), Shift(Mul(s, t)));
      AddSwap(Const(F.Mul(a, b)), Shift(Scale(a, t)), Shift(Scale(b, s)), Shift(Shift(Mul(s, t))));
    }
  }

  lemma {:induction false} MulComm(p: Poly, q: Poly)
    ensures Mul(p, q) == Mul(q, p)
    decreases |p.coefficients|
  {
    hide *;
    MulStep(p, q);
    MulStepRight(q, p);
    if |p.coefficients| == 1 {
      OneTerm(p);
      MulZeroLeft(q);
      MulZeroRight(q);
    } else {
      OneTermTail(p);
      MulComm(Tail(p), q);
    }
  }

  lemma MulOne(p: Poly)
    ensures Mul(ONE, p) == p && Mul(p, ONE) == p
  {
    hide Scale, Mul;
    assert ONE == Const(F.ONE);
    MulConst(F.ONE, p);
    ScaleZeroOne(p);
    MulComm(ONE, p);
  }

  // Exchange the two factors in front of a third.
  lemma MulSwap(p: Poly, q: Poly, r: Poly)
    ensures Mul(p, Mul(q, r)) == Mul(q, Mul(p, r))
  {
    hide *;
    MulAssoc(p, q, r);
    MulAssoc(q, p, r);
    MulComm(p, q);
  }

  // ----- evaluation

  lemma EvalStep(p: Poly, x: Elem)
    ensures Eval(p, x) == F.Add(Coeff(p, 0), F.Mul(x, Eval(Tail(p), x)))
  {
    hide F.Add, F.Mul, Tail, Coeff;
    if |p.coefficients| == 1 {
      OneTerm(p);
      EvalConst(F.ZERO, x);
      F.MulZero(x);
      F.AddZero(Coeff(p, 0));
    }
  }

  lemma EvalConst(a: Elem, x: Elem)
    ensures Eval(Const(a), x) == a
    ensures Eval(ZERO, x) == F.ZERO && Eval(ONE, x) == F.ONE
  {}

  lemma {:induction false} EvalAdd(p: Poly, q: Poly, x: Elem)
    ensures Eval(Add(p, q), x) == F.Add(Eval(p, x), Eval(q, x))
    decreases |p.coefficients| + |q.coefficients|
  {
    hide *;
    AddCoeff(p, q, 0);
    if |p.coefficients| == 1 && |q.coefficients| == 1 {
      OneTerm(p);
      OneTerm(q);
      EvalConst(F.ZERO, x);
      AddZero(ZERO);
      F.AddZero(F.ZERO);
    } else {
      OneTermTail(p);
      OneTermTail(q);
      EvalAdd(Tail(p), Tail(q), x);
    }
    EvalStep(p, x);
    EvalStep(q, x);
    EvalStep(Add(p, q), x);
    TailOf(F.ZERO, p, q);
    F.MulAdd(Eval(Tail(p), x), Eval(Tail(q), x), x);
    F.AddSwap(Coeff(p, 0), Coeff(q, 0), F.Mul(x, Eval(Tail(p), x)), F.Mul(x, Eval(Tail(q), x)));
  }

  lemma {:induction false} EvalScale(a: Elem, p: Poly, x: Elem)
    ensures Eval(Scale(a, p), x) == F.Mul(a, Eval(p, x))
    decreases |p.coefficients|
  {
    hide *;
    ScaleCoeff(a, p, 0);
    var t := Tail(p);
    if |p.coefficients| == 1 {
      OneTerm(p);
      EvalConst(F.ZERO, x);
      ScaleShift(a, p);
      F.MulZero(a);
    } else {
      OneTermTail(p);
      EvalScale(a, t, x);
    }
    EvalStep(p, x);
    EvalStep(Scale(a, p), x);
    TailOf(a, p, p);
    F.MulAdd(Coeff(p, 0), F.Mul(x, Eval(t, x)), a);
    F.MulAssoc(a, x, Eval(t, x));
    F.MulAssoc(x, a, Eval(t, x));
    F.MulComm(a, x);
  }

  lemma EvalShift(p: Poly, x: Elem)
    ensures Eval(Shift(p), x) == F.Mul(x, Eval(p, x))
  {
    hide *;
    EvalStep(Shift(p), x);
    ShiftCoeff(p, 0);
    TailOf(F.ZERO, p, p);
    F.AddZero(F.Mul(x, Eval(p, x)));
  }

  lemma {:induction false} EvalMul(p: Poly, q: Poly, x: Elem)
    ensures Eval(Mul(p, q), x) == F.Mul(Eval(p, x), Eval(q, x))
    decreases |p.coefficients|
  {
    hide *;
    var a, t := Coeff(p, 0), Tail(p);
    if |p.coefficients| == 1 {
      OneTerm(p);
      MulConst(a, q);
      EvalConst(a, x);
      EvalScale(a, q, x);
    } else {
      OneTermTail(p);
      EvalMul(t, q, x);
      MulStep(p, q);
      EvalAdd(Scale(a, q), Shift(Mul(t, q)), x);
      EvalScale(a, q, x);
      EvalShift(Mul(t, q), x);
      EvalStep(p, x);
      F.MulAssoc(x, Eval(t, x), Eval(q, x));
      F.MulAdd(a, F.Mul(x, Eval(t, x)), Eval(q, x));
    }
  }

  // ----- degree bounds; a bound of -1 says that the polynomial is zero

  ghost predicate DegLe(p: Poly, d: int) {
    forall i: nat | i > d :: Coeff(p, i) == F.ZERO
  }

  lemma DegLeDegree(p: Poly)
    ensures DegLe(p, Degree(p))
    ensures p != ZERO ==> Coeff(p, Degree(p)) != F.ZERO
  {}

  lemma DegLeZero(p: Poly, d: int)
    ensures DegLe(ZERO, d)
    ensures d < 0 && DegLe(p, d) ==> p == ZERO
  {
    hide Coeff;
    Coeffs();
    if d < 0 && DegLe(p, d) {
      Ext(p, ZERO);
    }
  }

  lemma DegLeConst(a: Elem)
    ensures DegLe(Const(a), 0)
  {
    hide Coeff;
    Coeffs();
  }

  lemma DegLeAdd(p: Poly, q: Poly, d: int)
    requires DegLe(p, d) && DegLe(q, d)
    ensures DegLe(Add(p, q), d)
  {
    hide Coeff, Add, F.Add;
    Coeffs();
    F.AddZero(F.ZERO);
  }

  lemma DegLeScale(a: Elem, p: Poly, d: int)
    requires DegLe(p, d)
    ensures DegLe(Scale(a, p), d)
  {
    hide Coeff, Scale, F.Mul;
    Coeffs();
    F.MulZero(a);
  }

  lemma DegLeShift(p: Poly, d: int)
    requires DegLe(p, d) && d >= -1
    ensures DegLe(Shift(p), d + 1)
  {
    hide Coeff, Shift;
    Coeffs();
  }

  lemma DegLeTail(p: Poly, d: int)
    requires DegLe(p, d)
    ensures DegLe(Tail(p), d - 1)
  {
    hide Coeff, Tail;
    Coeffs();
  }

  lemma {:induction false} DegLeMul(p: Poly, q: Poly, d: int, e: int)
    requires DegLe(p, d) && DegLe(q, e) && d >= -1 && e >= -1
    ensures DegLe(Mul(p, q), d + e)
    decreases d
  {
    hide Coeff, Tail, Scale, Shift, Add, Mul, DegLe;
    if e < 0 {
      DegLeZero(q, e);
      MulZeroRight(p);
      DegLeZero(p, d + e);
    } else if d < 0 {
      DegLeZero(p, d);
      MulZeroLeft(q);
      DegLeZero(p, d + e);
    } else {
      MulStep(p, q);
      DegLeTail(p, d);
      DegLeMul(Tail(p), q, d - 1, e);
      DegLeShift(Mul(Tail(p), q), d - 1 + e);
      DegLeScale(Coeff(p, 0), q, e);
      DegLeWeaken(Scale(Coeff(p, 0), q), e, d + e);
      DegLeAdd(Scale(Coeff(p, 0), q), Shift(Mul(Tail(p), q)), d + e);
    }
  }

  lemma DegLeWeaken(p: Poly, d: int, e: int)
    requires DegLe(p, d) && d <= e
    ensures DegLe(p, e)
  {}

  // ----- congruence modulo x^m

  ghost predicate EqMod(p: Poly, q: Poly, m: nat) {
    forall i: nat | i < m :: Coeff(p, i) == Coeff(q, i)
  }

  lemma EqModAdd(p: Poly, q: Poly, r: Poly, s: Poly, m: nat)
    requires EqMod(p, q, m) && EqMod(r, s, m)
    ensures EqMod(Add(p, r), Add(q, s), m)
  {
    hide Coeff, Add, F.Add;
    Coeffs();
  }

  lemma EqModScale(a: Elem, p: Poly, q: Poly, m: nat)
    requires EqMod(p, q, m)
    ensures EqMod(Scale(a, p), Scale(a, q), m)
  {
    hide Coeff, Scale, F.Mul;
    Coeffs();
  }

  lemma EqModShift(p: Poly, q: Poly, m: nat)
    requires EqMod(p, q, m)
    ensures EqMod(Shift(p), Shift(q), m + 1)
  {
    hide Coeff, Shift;
    Coeffs();
  }

  lemma {:induction false} EqModMul(p: Poly, q: Poly, r: Poly, m: nat)
    requires EqMod(p, q, m)
    ensures EqMod(Mul(p, r), Mul(q, r), m)
    decreases m
  {
    if m > 0 {
      hide Coeff, Tail, Scale, Shift, Add, Mul, F.Add, F.Mul;
      assert EqMod(Tail(p), Tail(q), m - 1) by { Coeffs(); }
      EqModMul(Tail(p), Tail(q), r, m - 1);
      EqModShift(Mul(Tail(p), r), Mul(Tail(q), r), m - 1);
      MulStep(p, r);
      MulStep(q, r);
      assert Coeff(p, 0) == Coeff(q, 0);
      EqModAdd(Scale(Coeff(p, 0), r), Scale(Coeff(q, 0), r), Shift(Mul(Tail(p), r)), Shift(Mul(Tail(q), r)), m);
    }
  }

  // A polynomial of degree at most d that vanishes modulo x^(d+1) is zero.
  lemma ZeroFromMod(p: Poly, d: nat)
    requires DegLe(p, d) && EqMod(p, ZERO, d + 1)
    ensures p == ZERO
  {
    hide Coeff;
    Coeffs();
    Ext(p, ZERO);
  }

  // x^m * p
  function ShiftBy(p: Poly, m: nat): Poly {
    if m == 0 then p else Shift(ShiftBy(p, m - 1))
  }

  lemma {:induction false} ShiftByCoeff(p: Poly, m: nat, i: nat)
    ensures Coeff(ShiftBy(p, m), i) == if i < m then F.ZERO else Coeff(p, i - m)
  {
    hide Coeff, Shift;
    if m > 0 {
      ShiftCoeff(ShiftBy(p, m - 1), i);
      if i > 0 {
        ShiftByCoeff(p, m - 1, i - 1);
      }
    }
  }

  lemma {:induction false} ShiftByMul(p: Poly, q: Poly, m: nat)
    ensures Mul(ShiftBy(p, m), q) == ShiftBy(Mul(p, q), m)
  {
    hide Mul, Shift;
    if m > 0 {
      ShiftByMul(p, q, m - 1);
      MulShift(ShiftBy(p, m - 1), q);
    }
  }

  lemma {:induction false} ShiftByEval(p: Poly, m: nat, x: Elem)
    requires x != F.ZERO
    ensures Eval(ShiftBy(p, m), x) == F.ZERO <==> Eval(p, x) == F.ZERO
  {
    hide Eval, Shift, F.Mul;
    if m > 0 {
      ShiftByEval(p, m - 1, x);
      EvalShift(ShiftBy(p, m - 1), x);
      F.MulNonzero(x, Eval(ShiftBy(p, m - 1), x));
    }
  }

  lemma ShiftByInjective(p: Poly, q: Poly, m: nat)
    requires ShiftBy(p, m) == ShiftBy(q, m)
    ensures p == q
  {
    hide Coeff, ShiftBy;
    forall i: nat
      ensures Coeff(p, i) == Coeff(q, i)
    {
      ShiftByCoeff(p, m, i + m);
      ShiftByCoeff(q, m, i + m);
    }
    Ext(p, q);
  }

  // ----- roots

  // The quotient of p by x - a.
  function Quotient(p: Poly, a: Elem): Poly
    decreases |p.coefficients|
  {
    TailShorter(p);
    if |p.coefficients| == 1 then ZERO else Add(Tail(p), Scale(a, Quotient(Tail(p), a)))
  }

  lemma {:induction false} QuotientEval(p: Poly, a: Elem, x: Elem)
    ensures F.Add(Eval(p, x), Eval(p, a)) == F.Mul(F.Add(x, a), Eval(Quotient(p, a), x))
    decreases |p.coefficients|
  {
    hide Coeff, Tail, Scale, Add, Eval, F.Add, F.Mul;
    if |p.coefficients| == 1 {
      OneTerm(p);
      EvalConst(Coeff(p, 0), x);
      EvalConst(Coeff(p, 0), a);
      F.AddSelf(Coeff(p, 0));
      F.MulZero(F.Add(x, a));
    } else {
      TailShorter(p);
      var t := Tail(p);
      var q := Quotient(t, a);
      QuotientEval(t, a, x);
      EvalStep(p, x);
      EvalStep(p, a);
      EvalAdd(t, Scale(a, q), x);
      EvalScale(a, q, x);
      QuotientAlgebra(Coeff(p, 0), x, a, Eval(t, x), Eval(t, a), Eval(q, x));
    }
  }

  // (c + x u) + (c + a v) == (x + a) (u + a w), given (x + a) w == u + v
  lemma QuotientAlgebra(c: Elem, x: Elem, a: Elem, u: Elem, v: Elem, w: Elem)
    requires F.Add(u, v) == F.Mul(F.Add(x, a), w)
    ensures F.Add(F.Add(c, F.Mul(x, u)), F.Add(c, F.Mul(a, v))) == F.Mul(F.Add(x, a), F.Add(u, F.Mul(a, w)))
  {
    hide *;
    var xu, au, av := F.Mul(x, u), F.Mul(a, u), F.Mul(a, v);
    F.AddSwap(c, xu, c, av);
    F.AddSelf(c);
    F.AddZero(F.Add(xu, av));
    // the right-hand side is (x u + a u) + a ((x + a) w)
    F.MulAdd(u, F.Mul(a, w), F.Add(x, a));
    F.MulAdd(x, a, u);
    F.MulAssoc(F.Add(x, a), a, w);
    F.MulComm(F.Add(x, a), a);
    F.MulAssoc(a, F.Add(x, a), w);
    F.MulAdd(u, v, a);
    F.AddAssoc(xu, au, F.Add(au, av));
    F.AddAssoc(au, au, av);
    F.AddSelf(au);
    F.AddZero(av);
  }

  lemma {:induction false} QuotientDegree(p: Poly, a: Elem, d: nat)
    requires DegLe(p, d)
    ensures DegLe(Quotient(p, a), d - 1)
    ensures d > 0 ==> Coeff(Quotient(p, a), d - 1) == Coeff(p, d)
    decreases |p.coefficients|
  {
    hide Coeff, Tail, Scale, Add, F.Add, F.Mul;
    Coeffs();
    if |p.coefficients| == 1 {
      OneTerm(p);
      DegLeZero(p, d - 1);
    } else {
      TailShorter(p);
      var t := Tail(p);
      DegLeTail(p, d);
      if d == 0 {
        DegLeZero(t, -1);
        TailShorter(p);
        QuotientZero(a);
        ScaleShift(a, t);
        AddZero(ZERO);
      } else {
        QuotientDegree(t, a, d - 1);
        DegLeScale(a, Quotient(t, a), d - 1);
        DegLeAdd(t, Scale(a, Quotient(t, a)), d - 1);
        F.MulZero(a);
        F.AddZero(Coeff(t, d - 1));
      }
    }
  }

  lemma QuotientZero(a: Elem)
    ensures Quotient(ZERO, a) == ZERO
  {}

  ghost predicate Distinct(xs: seq<Elem>) {
    forall i, j | 0 <= i < j < |xs| :: xs[i] != xs[j]
  }

  ghost predicate AllRoots(p: Poly, xs: seq<Elem>) {
    forall i | 0 <= i < |xs| :: Eval(p, xs[i]) == F.ZERO
  }

  // A polynomial of degree exactly d has at most d distinct roots.
  lemma {:induction false} RootBound(p: Poly, d: nat, xs: seq<Elem>)
    requires DegLe(p, d) && Coeff(p, d) != F.ZERO
    requires Distinct(xs) && AllRoots(p, xs)
    ensures |xs| <= d
    decreases d
  {
    hide Coeff, Eval, Quotient, F.Add, F.Mul;
    if |xs| > 0 {
      var a, rest := xs[0], xs[1..];
      var q := Quotient(p, a);
      QuotientDegree(p, a, d);
      if d == 0 {
        ConstantIsEval(p, a);
      } else {
        forall i | 0 <= i < |rest|
          ensures Eval(q, rest[i]) == F.ZERO
        {
          QuotientEval(p, a, rest[i]);
          F.AddZero(F.ZERO);
          assert rest[i] == xs[i + 1] && xs[0] != xs[i + 1];
          F.AddIsZero(rest[i], a);
          F.MulNonzero(F.Add(rest[i], a), Eval(q, rest[i]));
        }
        RootBound(q, d - 1, rest);
      }
    }
  }

  lemma ConstantIsEval(p: Poly, x: Elem)
    requires DegLe(p, 0)
    ensures Eval(p, x) == Coeff(p, 0)
  {
    hide Coeff, Eval, Tail, F.Add, F.Mul;
    EvalStep(p, x);
    DegLeTail(p, 0);
    DegLeZero(Tail(p), -1);
    EvalConst(F.ZERO, x);
    F.MulZero(x);
    F.AddZero(Coeff(p, 0));
  }

  // A nonzero polynomial of degree at most d has at most d distinct roots.
  lemma {:induction false} RootCount(p: Poly, d: int, xs: seq<Elem>)
    requires p != ZERO && DegLe(p, d)
    requires Distinct(xs) && AllRoots(p, xs)
    ensures |xs| <= d
  {
    DegLeDegree(p);
    assert Degree(p) <= d;
    hide Coeff, Eval, Degree;
    RootBound(p, Degree(p), xs);
  }
}
