/**
 The error locator and error evaluator of a set of errors, as described in the comments of
 RSCoder._berlekamp_massey, and the key equation that ties them to the syndromes.
 */
module KeyEquation {
  import F = GF256
  import opened Polynomials
  import opened PolynomialRing

  // A byte error: the position counts from the rightmost byte.
  datatype Error = Error(position: nat, value: Elem)

  // X_i = alpha^(j_i)
  function Location(e: Error): Elem {
    AlphaNonzero();
    F.Pow(F.ALPHA, e.position)
  }

  lemma AlphaNonzero()
    ensures F.ALPHA != F.ZERO
  {}

  lemma LocationNonzero(e: Error)
    ensures Location(e) != F.ZERO
  {
    hide F.Pow;
    AlphaNonzero();
    F.PowAdd(F.ALPHA, e.position, 0);
  }

  // The errors sit at different positions of a word of at most 255 bytes, and change the byte.
  ghost predicate ErrorsOk(es: seq<Error>) {
    && (forall i | 0 <= i < |es| :: es[i].position < 255 && es[i].value != F.ZERO)
    && (forall i, j | 0 <= i < j < |es| :: es[i].position != es[j].position)
  }

  function Locations(es: seq<Error>): seq<Elem> {
    seq(|es|, i requires 0 <= i < |es| => Location(es[i]))
  }

  lemma LocationsDistinct(es: seq<Error>, i: nat, j: nat)
    requires ErrorsOk(es) && i < |es| && j < |es|
    ensures Location(es[i]) == Location(es[j]) <==> i == j
  {
    hide F.Pow;
    AlphaNonzero();
    var a, b := es[i].position, es[j].position;
    F.AlphaPowers(a, b);
  }

  // 1 - a z
  function Factor(a: Elem): Poly {
    Add(ONE, Shift(Const(a)))
  }

  // sigma(z), the product of the factors 1 - X_i z
  function Locator(es: seq<Error>): Poly {
    if es == [] then ONE
    else var m := |es| - 1; Mul(Locator(es[..m]), Factor(Location(es[m])))
  }

  // omega(z), sigma(z) plus the sum over i of Y_i X_i z times the product of the other factors
  function Evaluator(es: seq<Error>): Poly {
    if es == [] then ONE
    else
      var m := |es| - 1;
      var x := Location(es[m]);
      Add(Mul(Evaluator(es[..m]), Factor(x)), Shift(Scale(F.Mul(es[m].value, x), Locator(es[..m]))))
  }

  // The value at alpha^l of the error polynomial: the sum of Y_i X_i^l
  function PowerSum(es: seq<Error>, l: nat): Elem {
    if es == [] then F.ZERO
    else
      var m := |es| - 1;
      LocationNonzero(es[m]);
      F.Add(PowerSum(es[..m], l), F.Mul(es[m].value, F.Pow(Location(es[m]), l)))
  }

  // ----- degrees and constant terms

  lemma MulFactor(p: Poly, a: Elem)
    ensures Mul(p, Factor(a)) == Add(p, Shift(Scale(a, p)))
  {
    hide Add, Mul, Shift, Scale, Const;
    MulComm(p, Factor(a));
    MulAddLeft(ONE, Shift(Const(a)), p);
    MulOne(p);
    MulShift(Const(a), p);
    MulConst(a, p);
  }

  lemma {:induction false} LocatorDegree(es: seq<Error>)
    ensures DegLe(Locator(es), |es|) && DegLe(Evaluator(es), |es|)
  {
    if es == [] {
      DegLeConst(F.ONE);
    } else {
      var m := |es| - 1;
      var a, s, w := Location(es[m]), Locator(es[..m]), Evaluator(es[..m]);
      LocatorDegree(es[..m]);
      hide Add, Mul, Shift, Scale, Factor, DegLe, Location, F.Mul;
      MulFactor(s, a);
      MulFactor(w, a);
      DegLeFactor(s, a, m);
      DegLeFactor(w, a, m);
      var b := F.Mul(es[m].value, a);
      DegLeScale(b, s, m);
      DegLeShift(Scale(b, s), m);
      DegLeAdd(Mul(w, Factor(a)), Shift(Scale(b, s)), m + 1);
    }
  }

  lemma DegLeFactor(p: Poly, a: Elem, d: nat)
    requires DegLe(p, d)
    ensures DegLe(Mul(p, Factor(a)), d + 1)
  {
    hide Add, Mul, Shift, Scale, Factor, DegLe;
    MulFactor(p, a);
    DegLeScale(a, p, d);
    DegLeShift(Scale(a, p), d);
    DegLeWeaken(p, d, d + 1);
    DegLeAdd(p, Shift(Scale(a, p)), d + 1);
  }

  lemma {:induction false} LocatorConstant(es: seq<Error>)
    ensures Coeff(Locator(es), 0) == F.ONE
  {
    if es != [] {
      var m := |es| - 1;
      var s, a := Locator(es[..m]), Location(es[m]);
      LocatorConstant(es[..m]);
      hide Add, Mul, Shift, Scale, Factor, Coeff, Location, F.Add;
      MulFactor(s, a);
      AddCoeff(s, Shift(Scale(a, s)), 0);
      ShiftCoeff(Scale(a, s), 0);
      F.AddZero(F.ONE);
    }
  }

  // ----- roots

  lemma EvalFactor(a: Elem, x: Elem)
    ensures Eval(Factor(a), x) == F.Add(F.ONE, F.Mul(a, x))
  {
    hide *;
    FactorIs(a);
    EvalAdd(ONE, Shift(Const(a)), x);
    EvalShift(Const(a), x);
    EvalConst(a, x);
    F.MulComm(a, x);
  }

  lemma FactorIs(a: Elem)
    ensures Factor(a) == Add(ONE, Shift(Const(a)))
  {}

  // The product of the factors 1 - X_j x over all j other than i.
  function Cofactor(es: seq<Error>, x: Elem, i: nat): Elem {
    if es == [] then F.ONE
    else
      var m := |es| - 1;
      if i == m then Cofactor(es[..m], x, i)
      else F.Mul(Cofactor(es[..m], x, i), F.Add(F.ONE, F.Mul(Location(es[m]), x)))
  }

  lemma {:induction false} LocatorEval(es: seq<Error>, x: Elem, i: nat)
    requires i >= |es|
    ensures Eval(Locator(es), x) == Cofactor(es, x, i)
  {
    hide Mul, Factor, Eval, Location, F.Add, F.Mul;
    if es == [] {
      EvalConst(F.ONE, x);
    } else {
      var m := |es| - 1;
      LocatorEval(es[..m], x, i);
      EvalMul(Locator(es[..m]), Factor(Location(es[m])), x);
      EvalFactor(Location(es[m]), x);
    }
  }

  // sigma vanishes exactly at the inverses of the locations.
  lemma {:induction false} CofactorZero(es: seq<Error>, x: Elem, i: nat)
    ensures Cofactor(es, x, i) == F.ZERO <==> exists j :: 0 <= j < |es| && j != i && F.Mul(Location(es[j]), x) == F.ONE
  {
    hide Location, F.Add, F.Mul;
    if es != [] {
      var m := |es| - 1;
      CofactorZero(es[..m], x, i);
      var y := F.Mul(Location(es[m]), x);
      F.AddIsZero(F.ONE, y);
      F.MulNonzero(Cofactor(es[..m], x, i), F.Add(F.ONE, y));
      forall j | 0 <= j < m
        ensures es[..m][j] == es[j]
      {}
    }
  }

  lemma EvaluatorStep(es: seq<Error>, x: Elem)
    requires es != []
    ensures var m := |es| - 1;
            var a := Location(es[m]);
            Eval(Evaluator(es), x) == F.Add(
              F.Mul(Eval(Evaluator(es[..m]), x), F.Add(F.ONE, F.Mul(a, x))),
              F.Mul(x, F.Mul(F.Mul(es[m].value, a), Eval(Locator(es[..m]), x))))
  {
    var m := |es| - 1;
    var a := Location(es[m]);
    var s, w := Locator(es[..m]), Evaluator(es[..m]);
    hide Mul, Add, Shift, Scale, Factor, Eval, Location, F.Add, F.Mul;
    var ya := F.Mul(es[m].value, a);
    EvalAdd(Mul(w, Factor(a)), Shift(Scale(ya, s)), x);
    EvalMul(w, Factor(a), x);
    EvalFactor(a, x);
    EvalShift(Scale(ya, s), x);
    EvalScale(ya, s, x);
  }

  // omega at the inverse of a location is the error value times the other factors.
  lemma {:induction false} EvaluatorEval(es: seq<Error>, x: Elem, i: nat)
    requires i < |es| && F.Mul(Location(es[i]), x) == F.ONE
    ensures Eval(Evaluator(es), x) == F.Mul(es[i].value, Cofactor(es, x, i))
  {
    hide Evaluator, Locator, Eval, Location, F.Add, F.Mul;
    var m := |es| - 1;
    var a := Location(es[m]);
    var s, w := Eval(Locator(es[..m]), x), Eval(Evaluator(es[..m]), x);
    EvaluatorStep(es, x);
    LocatorEval(es[..m], x, m);
    if i == m {
      F.AddSelf(F.ONE);
      F.MulZero(w);
      LastTerm(x, es[m].value, a, s);
      F.AddZero(F.Mul(es[m].value, s));
    } else {
      assert es[..m][i] == es[i];
      EvaluatorEval(es[..m], x, i);
      CofactorZero(es[..m], x, m);
      F.MulZero(F.Mul(es[m].value, a));
      F.MulZero(x);
      var z := F.Add(F.ONE, F.Mul(a, x));
      F.MulAssoc(es[i].value, Cofactor(es[..m], x, i), z);
      F.AddZero(F.Mul(w, z));
    }
  }

  lemma LastTerm(x: Elem, y: Elem, a: Elem, s: Elem)
    requires F.Mul(a, x) == F.ONE
    ensures F.Mul(x, F.Mul(F.Mul(y, a), s)) == F.Mul(y, s)
  {
    hide *;
    F.MulAssoc(x, F.Mul(y, a), s);
    F.MulComm(x, F.Mul(y, a));
    F.MulAssoc(y, a, x);
    F.MulOne(y);
  }

  // At no root of sigma does omega vanish.
  lemma {:induction false} EvaluatorNonzero(es: seq<Error>, i: nat)
    requires ErrorsOk(es) && i < |es|
    ensures Location(es[i]) != F.ZERO
    ensures Eval(Locator(es), F.Inverse(Location(es[i]))) == F.ZERO
    ensures Eval(Evaluator(es), F.Inverse(Location(es[i]))) != F.ZERO
  {
    hide Eval, Evaluator, Locator, Location, Cofactor, F.Mul, F.Inverse;
    LocationNonzero(es[i]);
    var a := Location(es[i]);
    var x := F.Inverse(a);
    F.MulInverse(a);
    EvaluatorEval(es, x, i);
    LocatorEval(es, x, |es|);
    CofactorZero(es, x, |es|);
    CofactorZero(es, x, i);
    forall j | 0 <= j < |es| && j != i
      ensures F.Mul(Location(es[j]), x) != F.ONE
    {
      LocationsDistinct(es, i, j);
      F.MulComm(a, x);
      F.MulComm(Location(es[j]), x);
      if F.Mul(Location(es[j]), x) == F.ONE {
        F.MulCancel(x, a, Location(es[j]));
      }
    }
    F.MulNonzero(es[i].value, Cofactor(es, x, i));
  }

  // ----- the key equation

  // The polynomial with the power sums as coefficients of z^1 .. z^d
  function SyndromesOf(es: seq<Error>, d: nat): Poly {
    if es == [] then ZERO
    else var m := |es| - 1; Add(SyndromesOf(es[..m], d), Geometric(es[m], d))
  }

  // The sum of Y X^l z^l for 1 <= l <= d
  function Geometric(e: Error, d: nat): Poly {
    if d == 0 then ZERO
    else
      LocationNonzero(e);
      Add(Geometric(e, d - 1), Term(F.Mul(e.value, F.Pow(Location(e), d)), d))
  }

  lemma {:induction false} GeometricCoeff(e: Error, d: nat, l: nat)
    ensures Location(e) != F.ZERO
    ensures Coeff(Geometric(e, d), l) == if 1 <= l <= d then F.Mul(e.value, F.Pow(Location(e), l)) else F.ZERO
  {
    hide Coeff, Add, Term, Location, F.Pow, F.Add, F.Mul;
    LocationNonzero(e);
    if d == 0 {
      ZeroCoeff(l);
    } else {
      var a := F.Mul(e.value, F.Pow(Location(e), d));
      GeometricCoeff(e, d - 1, l);
      AddCoeff(Geometric(e, d - 1), Term(a, d), l);
      TermCoeff(a, d, l);
      F.AddZero(Coeff(Geometric(e, d), l));
      F.AddZero(a);
      F.AddZero(Coeff(Geometric(e, d - 1), l));
    }
  }

  lemma {:induction false} SyndromesOfCoeff(es: seq<Error>, d: nat, l: nat)
    ensures Coeff(SyndromesOf(es, d), l) == if 1 <= l <= d then PowerSum(es, l) else F.ZERO
  {
    hide Coeff, Add, Geometric, Location, F.Pow, F.Add, F.Mul;
    if es == [] {
      ZeroCoeff(l);
    } else {
      var m := |es| - 1;
      SyndromesOfCoeff(es[..m], d, l);
      GeometricCoeff(es[m], d, l);
      AddCoeff(SyndromesOf(es[..m], d), Geometric(es[m], d), l);
      F.AddZero(F.ZERO);
    }
  }

  // Multiplying by the error's factor telescopes its geometric series to Y X z.
  lemma GeometricFactor(e: Error, d: nat)
    ensures EqMod(Mul(Geometric(e, d), Factor(Location(e))), Shift(Const(F.Mul(e.value, Location(e)))), d + 1)
  {
    hide Coeff, Mul, Add, Shift, Scale, Const, Geometric, Factor, Location, F.Mul, F.Pow;
    var lhs, rhs := Mul(Geometric(e, d), Factor(Location(e))), Shift(Const(F.Mul(e.value, Location(e))));
    forall l: nat | l < d + 1
      ensures Coeff(lhs, l) == Coeff(rhs, l)
    {
      GeometricFactorAt(e, d, l);
    }
  }

  lemma GeometricFactorAt(e: Error, d: nat, l: nat)
    requires l <= d
    ensures Coeff(Mul(Geometric(e, d), Factor(Location(e))), l) == Coeff(Shift(Const(F.Mul(e.value, Location(e)))), l)
  {
    hide *;
    var x, y, g := Location(e), e.value, Geometric(e, d);
    LocationNonzero(e);
    MulFactor(g, x);
    AddCoeff(g, Shift(Scale(x, g)), l);
    ShiftCoeff(Scale(x, g), l);
    ShiftCoeff(Const(F.Mul(y, x)), l);
    GeometricCoeff(e, d, l);
    F.AddZero(F.ZERO);
    if l > 0 {
      ScaleCoeff(x, g, l - 1);
      GeometricCoeff(e, d, l - 1);
      ConstCoeff(F.Mul(y, x), l - 1);
      if l == 1 {
        F.PowOne(x);
        F.MulZero(x);
        F.AddZero(F.Mul(y, x));
      } else {
        var p := F.Pow(x, l - 1);
        F.PowAdd(x, l - 1, 1);
        F.PowOne(x);
        F.MulComm(x, F.Mul(y, p));
        F.MulAssoc(y, p, x);
        F.AddSelf(F.Mul(y, F.Pow(x, l)));
      }
    }
  }

  lemma {:induction false} KeyEquationOf(es: seq<Error>, d: nat)
    ensures EqMod(Mul(Add(ONE, SyndromesOf(es, d)), Locator(es)), Evaluator(es), d + 1)
  {
    hide EqMod, Mul, Add, Shift, Scale, Factor, Geometric, Location, F.Mul, F.Pow;
    if es == [] {
      AddZero(ONE);
      MulOne(ONE);
      EqModSelf(ONE, d + 1);
    } else {
      var m := |es| - 1;
      var e := es[m];
      var x, y := Location(e), e.value;
      var s, w, f, g := Locator(es[..m]), Evaluator(es[..m]), Factor(x), Geometric(e, d);
      var u := Add(ONE, SyndromesOf(es[..m], d));
      KeyEquationOf(es[..m], d);
      // (u + g) (s f) == (u s) f + (g f) s
      AddAssoc(ONE, SyndromesOf(es[..m], d), g);
      MulAddLeft(u, g, Mul(s, f));
      MulAssoc(u, s, f);
      MulComm(s, f);
      MulAssoc(g, f, s);
      EqModMul(Mul(u, s), w, f, d + 1);
      // (g f) s == Y X z s
      GeometricFactor(e, d);
      EqModMul(Mul(g, f), Shift(Const(F.Mul(y, x))), s, d + 1);
      MulShift(Const(F.Mul(y, x)), s);
      MulConst(F.Mul(y, x), s);
      EqModAdd(Mul(Mul(u, s), f), Mul(w, f), Mul(Mul(g, f), s), Shift(Scale(F.Mul(y, x), s)), d + 1);
    }
  }

  lemma EqModSelf(p: Poly, m: nat)
    ensures EqMod(p, p, m)
  {}

  // S carries the first d syndromes of the errors.
  ghost predicate HasSyndromes(S: Poly, es: seq<Error>, d: nat) {
    Coeff(S, 0) == F.ZERO && forall l: nat | 1 <= l <= d :: Coeff(S, l) == PowerSum(es, l)
  }

  // (1 + S) sigma == omega modulo z^(d+1)
  lemma {:induction false} KeyEquationHolds(S: Poly, es: seq<Error>, d: nat)
    requires HasSyndromes(S, es, d)
    ensures EqMod(Mul(Add(ONE, S), Locator(es)), Evaluator(es), d + 1)
  {
    hide Coeff, Mul, Add, Locator, Evaluator, SyndromesOf, PowerSum;
    var T := SyndromesOf(es, d);
    forall l: nat | l < d + 1
      ensures Coeff(S, l) == Coeff(T, l)
    {
      SyndromesOfCoeff(es, d, l);
    }
    EqModAdd(ONE, ONE, S, T, d + 1);
    EqModMul(Add(ONE, S), Add(ONE, T), Locator(es), d + 1);
    KeyEquationOf(es, d);
  }

  // The errors of a nonempty set of at most d errors cannot all have syndromes zero.
  lemma {:induction false} NoSilentErrors(es: seq<Error>, d: nat)
    requires ErrorsOk(es) && 0 < |es| <= d
    ensures exists l: nat :: 1 <= l <= d && PowerSum(es, l) != F.ZERO
  {
    hide Coeff, Mul, Add, Locator, Evaluator, SyndromesOf, PowerSum, Location, Eval, DegLe, F.Inverse;
    if forall l: nat | 1 <= l <= d :: PowerSum(es, l) == F.ZERO {
      forall l: nat
        ensures Coeff(ZERO, l) == F.ZERO
      {
        ZeroCoeff(l);
      }
      KeyEquationHolds(ZERO, es, d);
      AddZero(ONE);
      MulOne(Locator(es));
      LocatorDegree(es);
      DegLeWeaken(Locator(es), |es|, d);
      DegLeWeaken(Evaluator(es), |es|, d);
      EqualFromMod(Locator(es), Evaluator(es), d);
      EvaluatorNonzero(es, 0);
      assert false;
    }
  }

  // Polynomials of degree at most d that agree modulo x^(d+1) are equal.
  lemma EqualFromMod(p: Poly, q: Poly, d: nat)
    requires DegLe(p, d) && DegLe(q, d) && EqMod(p, q, d + 1)
    ensures p == q
  {
    hide Coeff;
    Ext(p, q);
  }
}
