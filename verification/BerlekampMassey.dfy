/**
 RSCoder._berlekamp_massey: the iteration, the invariant it keeps at every step, and the
 proof that it ends with the error locator and the error evaluator.
 */
module BerlekampMassey {
  import F = GF256
  import opened Polynomials
  import opened PolynomialRing
  import opened PolynomialDivision
  import opened KeyEquation

  // The last entries of the six lists of the source.
  datatype State = State(sigma: Poly, omega: Poly, tao: Poly, gamma: Poly, D: int, B: int)

  const START := State(ONE, ONE, ONE, ZERO, 0, 0)

  // The coefficient of z^(l+1) in (1 + s) * sigma
  function Delta(s: Poly, l: nat, sigma: Poly): Elem {
    Coeff(Mul(Add(ONE, s), sigma), l + 1)
  }

  // Whether rule A, rather than rule B, gives the next tao and gamma.
  predicate RuleA(delta: Elem, l: nat, D: int, B: int) {
    delta == F.ZERO || 2 * D > l + 1 || (2 * D == l + 1 && B == 0)
  }

  // p - Delta * Z * q
  function Correct(p: Poly, delta: Elem, q: Poly): Poly {
    Sub(p, Mul(Mul(Const(delta), Z), q))
  }

  function Step(s: Poly, l: nat, st: State): State {
    var delta := Delta(s, l, st.sigma);
    var sigma := Correct(st.sigma, delta, st.tao);
    var omega := Correct(st.omega, delta, st.gamma);
    if RuleA(delta, l, st.D, st.B) then
      State(sigma, omega, Mul(Z, st.tao), Mul(Z, st.gamma), st.D, st.B)
    else
      ConstNonzero(delta);
      State(sigma, omega, Div(st.sigma, Const(delta)), Div(st.omega, Const(delta)), l + 1 - st.D, 1 - st.B)
  }

  lemma ConstNonzero(a: Elem)
    ensures Const(a) == ZERO <==> a == F.ZERO
  {}

  // The state after l iterations.
  function Iterate(s: Poly, l: nat): State {
    if l == 0 then START else Step(s, l - 1, Iterate(s, l - 1))
  }

  lemma IterateStep(s: Poly, l: nat)
    ensures Iterate(s, 0) == START && Iterate(s, l + 1) == Step(s, l, Iterate(s, l))
  {}

  // The method keeps the history of all six sequences, as the source does.
  method Run(s: Poly, d: nat) returns (sigma: Poly, omega: Poly)
    ensures sigma == Iterate(s, d).sigma
    ensures omega == Iterate(s, d).omega
  {
    hide Coeff, Add, Sub, Mul, Div, Iterate;
    var sigmas, omegas, taos, gammas: seq<Poly> := [ONE], [ONE], [ONE], [ZERO];
    var Ds: seq<int>, Bs: seq<int> := [0], [0];
    var l := 0;
    IterateStep(s, 0);
    while l < d
      invariant 0 <= l <= d
      invariant |sigmas| == |omegas| == |taos| == |gammas| == |Ds| == |Bs| == l + 1
      invariant Iterate(s, l) == State(sigmas[l], omegas[l], taos[l], gammas[l], Ds[l], Bs[l])
    {
      IterateStep(s, l);
      var delta := Coeff(Mul(Add(ONE, s), sigmas[l]), l + 1);
      var Delta: Poly := Const(delta);
      ConstNonzero(delta);
      sigmas := sigmas + [Sub(sigmas[l], Mul(Mul(Delta, Z), taos[l]))];
      omegas := omegas + [Sub(omegas[l], Mul(Mul(Delta, Z), gammas[l]))];
      if Delta == ZERO || 2 * Ds[l] > l + 1 {
        Ds, Bs := Ds + [Ds[l]], Bs + [Bs[l]];
        taos, gammas := taos + [Mul(Z, taos[l])], gammas + [Mul(Z, gammas[l])];
      } else if Delta != ZERO && 2 * Ds[l] < l + 1 {
        Ds, Bs := Ds + [l + 1 - Ds[l]], Bs + [1 - Bs[l]];
        taos, gammas := taos + [Div(sigmas[l], Delta)], gammas + [Div(omegas[l], Delta)];
      } else if 2 * Ds[l] == l + 1 {
        if Bs[l] == 0 {
          Ds, Bs := Ds + [Ds[l]], Bs + [Bs[l]];
          taos, gammas := taos + [Mul(Z, taos[l])], gammas + [Mul(Z, gammas[l])];
        } else {
          Ds, Bs := Ds + [l + 1 - Ds[l]], Bs + [1 - Bs[l]];
          taos, gammas := taos + [Div(sigmas[l], Delta)], gammas + [Div(omegas[l], Delta)];
        }
      } else {
        // "Code shouldn't have gotten here"
        assert false;
      }
      l := l + 1;
    }
    return sigmas[l], omegas[l];
  }

  // ----- the invariant

  // What holds before iteration l: two key equations, a determinant, and four degree bounds.
  ghost predicate KeyState(s: Poly, l: nat, st: State) {
    var u := Add(ONE, s);
    && EqMod(Mul(u, st.sigma), st.omega, l + 1)
    && EqMod(Mul(u, st.tao), Add(st.gamma, ShiftBy(ONE, l)), l + 1)
    && Add(Mul(st.omega, st.tao), Mul(st.sigma, st.gamma)) == ShiftBy(ONE, l)
    && Coeff(st.sigma, 0) == F.ONE
    && DegreesOk(l, st)
  }

  ghost predicate DegreesOk(l: nat, st: State) {
    && 0 <= st.B <= 1 && st.B <= st.D <= l
    && DegLe(st.sigma, st.D) && DegLe(st.tao, l - st.D)
    && DegLe(st.omega, st.D - st.B) && DegLe(st.gamma, l - st.D - (1 - st.B))
  }

  lemma CorrectIs(p: Poly, delta: Elem, q: Poly)
    ensures Correct(p, delta, q) == Add(p, Scale(delta, Shift(q)))
    ensures Mul(Z, q) == Shift(q)
  {
    assert Z == Shift(ONE);
    hide Add, Sub, Mul, Scale, Shift;
    MulOne(q);
    MulShift(ONE, q);
    MulAssoc(Const(delta), Z, q);
    MulConst(delta, Shift(q));
    SubIsAdd(p, Scale(delta, Shift(q)));
  }

  lemma DivConst(p: Poly, a: Elem)
    requires a != F.ZERO
    ensures Const(a) != ZERO
    ensures Div(p, Const(a)) == Scale(F.Inverse(a), p)
  {
    hide Add, Mul, Scale, DivMod, F.Mul, F.Inverse;
    ConstNonzero(a);
    var q := Scale(F.Inverse(a), p);
    MulComm(q, Const(a));
    MulConst(a, q);
    ScaleScale(a, F.Inverse(a), p);
    F.MulInverse(a);
    ScaleZeroOne(p);
    AddZero(p);
    DivModUnique(p, Const(a), q, ZERO);
  }

  // One step, written with shifts and scalings.
  lemma {:induction false} StepIs(s: Poly, l: nat, st: State)
    ensures var delta := Delta(s, l, st.sigma);
            var next := Step(s, l, st);
            && next.sigma == Add(st.sigma, Scale(delta, Shift(st.tao)))
            && next.omega == Add(st.omega, Scale(delta, Shift(st.gamma)))
            && (if RuleA(delta, l, st.D, st.B) then
                  next.tao == Shift(st.tao) && next.gamma == Shift(st.gamma) && next.D == st.D && next.B == st.B
                else
                  delta != F.ZERO
                  && next.tao == Scale(F.Inverse(delta), st.sigma) && next.gamma == Scale(F.Inverse(delta), st.omega)
                  && next.D == l + 1 - st.D && next.B == 1 - st.B)
  {
    hide Add, Scale, Shift, Mul, Div, Correct, Delta, F.Inverse;
    var delta := Delta(s, l, st.sigma);
    CorrectIs(st.sigma, delta, st.tao);
    CorrectIs(st.omega, delta, st.gamma);
    if !RuleA(delta, l, st.D, st.B) {
      DivConst(st.sigma, delta);
      DivConst(st.omega, delta);
    }
  }

  lemma MulRight(p: Poly, a: Elem, q: Poly)
    ensures Mul(p, Scale(a, q)) == Scale(a, Mul(p, q))
    ensures Mul(p, Shift(q)) == Shift(Mul(p, q))
  {
    hide *;
    MulComm(p, Scale(a, q));
    MulScale(a, q, p);
    MulComm(q, p);
    MulComm(p, Shift(q));
    MulShift(q, p);
  }

  // If u sigma == omega modulo z^(l+1), delta repairs the next coefficient.
  lemma NextCoefficient(u: Poly, sigma: Poly, omega: Poly, l: nat, delta: Elem)
    requires EqMod(Mul(u, sigma), omega, l + 1)
    requires Coeff(Mul(u, sigma), l + 1) == delta && DegLe(omega, l)
    ensures EqMod(Mul(u, sigma), Add(omega, Scale(delta, ShiftBy(ONE, l + 1))), l + 2)
  {
    hide Coeff, Add, Scale, Mul, ShiftBy, F.Add, F.Mul;
    var rhs := Add(omega, Scale(delta, ShiftBy(ONE, l + 1)));
    forall i: nat | i < l + 2
      ensures Coeff(Mul(u, sigma), i) == Coeff(rhs, i)
    {
      AddCoeff(omega, Scale(delta, ShiftBy(ONE, l + 1)), i);
      ScaleCoeff(delta, ShiftBy(ONE, l + 1), i);
      ShiftByCoeff(ONE, l + 1, i);
      OneCoeff(0);
      F.MulZero(delta);
      F.MulOne(delta);
      F.AddZero(Coeff(omega, i));
      F.AddZero(delta);
    }
  }

  // The second key equation moves up by a factor z.
  lemma ShiftedTao(u: Poly, tao: Poly, gamma: Poly, l: nat)
    requires EqMod(Mul(u, tao), Add(gamma, ShiftBy(ONE, l)), l + 1)
    ensures EqMod(Mul(u, Shift(tao)), Add(Shift(gamma), ShiftBy(ONE, l + 1)), l + 2)
  {
    hide Add, Mul, Shift, Coeff;
    MulRight(u, F.ZERO, tao);
    EqModShift(Mul(u, tao), Add(gamma, ShiftBy(ONE, l)), l + 1);
    ShiftAdd(gamma, ShiftBy(ONE, l));
  }

  lemma SigmaKeeps(u: Poly, st: State, l: nat, delta: Elem)
    requires EqMod(Mul(u, st.sigma), st.omega, l + 1) && DegLe(st.omega, l)
    requires EqMod(Mul(u, st.tao), Add(st.gamma, ShiftBy(ONE, l)), l + 1)
    requires Coeff(Mul(u, st.sigma), l + 1) == delta
    ensures EqMod(Mul(u, Add(st.sigma, Scale(delta, Shift(st.tao)))), Add(st.omega, Scale(delta, Shift(st.gamma))),
            l + 2)
  {
    NextCoefficient(u, st.sigma, st.omega, l, delta);
    ShiftedTao(u, st.tao, st.gamma, l);
    hide Add, Scale, Shift, Mul, ShiftBy, Coeff;
    var z, t, g := ShiftBy(ONE, l + 1), Shift(st.tao), Shift(st.gamma);
    EqModScale(delta, Mul(u, t), Add(g, z), l + 2);
    MulAddRight(u, st.sigma, Scale(delta, t));
    MulRight(u, delta, t);
    EqModAdd(Mul(u, st.sigma), Add(st.omega, Scale(delta, z)), Scale(delta, Mul(u, t)), Scale(delta, Add(g, z)), l + 2);
    // (omega + delta z) + delta (g + z) == omega + delta g
    ScaleAdd(delta, g, z);
    AddComm(Scale(delta, g), Scale(delta, z));
    AddAssoc(st.omega, Scale(delta, z), Add(Scale(delta, z), Scale(delta, g)));
    AddCancel(Scale(delta, z), Scale(delta, g));
  }

  lemma TaoKeepsB(u: Poly, st: State, l: nat, delta: Elem)
    requires EqMod(Mul(u, st.sigma), st.omega, l + 1) && DegLe(st.omega, l)
    requires Coeff(Mul(u, st.sigma), l + 1) == delta && delta != F.ZERO
    ensures EqMod(Mul(u, Scale(F.Inverse(delta), st.sigma)),
            Add(Scale(F.Inverse(delta), st.omega), ShiftBy(ONE, l + 1)), l + 2)
  {
    NextCoefficient(u, st.sigma, st.omega, l, delta);
    hide Add, Scale, Mul, ShiftBy, Coeff, F.Inverse, F.Mul;
    var i, z := F.Inverse(delta), ShiftBy(ONE, l + 1);
    MulRight(u, i, st.sigma);
    EqModScale(i, Mul(u, st.sigma), Add(st.omega, Scale(delta, z)), l + 2);
    ScaleAdd(i, st.omega, Scale(delta, z));
    ScaleScale(i, delta, z);
    F.MulComm(i, delta);
    F.MulInverse(delta);
    ScaleZeroOne(z);
  }

  // omega' tao' - sigma' gamma' under rule A
  lemma DeterminantA(st: State, delta: Elem)
    ensures Add(Mul(Add(st.omega, Scale(delta, Shift(st.gamma))), Shift(st.tao)),
                Mul(Add(st.sigma, Scale(delta, Shift(st.tao))), Shift(st.gamma)))
            == Shift(Add(Mul(st.omega, st.tao), Mul(st.sigma, st.gamma)))
  {
    hide *;
    var t, g := Shift(st.tao), Shift(st.gamma);
    MulAddLeft(st.omega, Scale(delta, g), t);
    MulAddLeft(st.sigma, Scale(delta, t), g);
    MulScale(delta, g, t);
    MulScale(delta, t, g);
    MulComm(g, t);
    var x := Scale(delta, Mul(t, g));
    AddSwap(Mul(st.omega, t), x, Mul(st.sigma, g), x);
    AddSelf(x);
    AddZero(Add(Mul(st.omega, t), Mul(st.sigma, g)));
    MulRight(st.omega, delta, st.tao);
    MulRight(st.sigma, delta, st.gamma);
    ShiftAdd(Mul(st.omega, st.tao), Mul(st.sigma, st.gamma));
  }

  // omega' tao' - sigma' gamma' under rule B
  lemma DeterminantB(st: State, delta: Elem)
    requires delta != F.ZERO
    ensures Add(Mul(Add(st.omega, Scale(delta, Shift(st.gamma))), Scale(F.Inverse(delta), st.sigma)),
                Mul(Add(st.sigma, Scale(delta, Shift(st.tao))), Scale(F.Inverse(delta), st.omega)))
            == Shift(Add(Mul(st.omega, st.tao), Mul(st.sigma, st.gamma)))
  {
    hide *;
    var i, t, g := F.Inverse(delta), Shift(st.tao), Shift(st.gamma);
    var sigma, omega := st.sigma, st.omega;
    F.MulInverse(delta);
    ExpandB(omega, delta, g, sigma);
    ExpandB(sigma, delta, t, omega);
    MulComm(sigma, omega);
    var x := Scale(i, Mul(omega, sigma));
    AddSwap(x, Mul(g, sigma), x, Mul(t, omega));
    AddSelf(x);
    AddZero(Add(Mul(g, sigma), Mul(t, omega)));
    MulShift(st.gamma, sigma);
    MulShift(st.tao, omega);
    ShiftAdd(Mul(st.gamma, sigma), Mul(st.tao, omega));
    MulComm(st.gamma, sigma);
    MulComm(st.tao, omega);
    AddComm(Mul(sigma, st.gamma), Mul(omega, st.tao));
  }

  // (p + delta q) (r / delta) == (p r) / delta + q r
  lemma ExpandB(p: Poly, delta: Elem, q: Poly, r: Poly)
    requires delta != F.ZERO
    ensures Mul(Add(p, Scale(delta, q)), Scale(F.Inverse(delta), r))
            == Add(Scale(F.Inverse(delta), Mul(p, r)), Mul(q, r))
  {
    hide *;
    var i := F.Inverse(delta);
    F.MulInverse(delta);
    MulAddLeft(p, Scale(delta, q), Scale(i, r));
    MulRight(p, i, r);
    MulScale(delta, q, Scale(i, r));
    MulRight(q, i, r);
    ScaleScale(delta, i, Mul(q, r));
    ScaleZeroOne(Mul(q, r));
  }

  lemma DegreesKeepA(l: nat, st: State, delta: Elem)
    requires DegreesOk(l, st) && RuleA(delta, l, st.D, st.B)
    ensures DegreesOk(l + 1,
            State(Add(st.sigma, Scale(delta, Shift(st.tao))), Add(st.omega, Scale(delta, Shift(st.gamma))),
                                   Shift(st.tao), Shift(st.gamma), st.D, st.B))
  {
    hide Add, Scale, Shift, DegLe;
    CorrectDegree(st.sigma, delta, st.tao, st.D, l - st.D, st.D);
    CorrectDegree(st.omega, delta, st.gamma, st.D - st.B, l - st.D - (1 - st.B), st.D - st.B);
    DegLeShift(st.tao, l - st.D);
    DegLeShift(st.gamma, l - st.D - (1 - st.B));
  }

  lemma DegreesKeepB(l: nat, st: State, delta: Elem, i: Elem)
    requires DegreesOk(l, st) && !RuleA(delta, l, st.D, st.B)
    ensures DegreesOk(l + 1,
            State(Add(st.sigma, Scale(delta, Shift(st.tao))), Add(st.omega, Scale(delta, Shift(st.gamma))),
                                   Scale(i, st.sigma), Scale(i, st.omega), l + 1 - st.D, 1 - st.B))
  {
    hide Add, Scale, Shift, DegLe;
    CorrectDegree(st.sigma, delta, st.tao, st.D, l - st.D, l + 1 - st.D);
    CorrectDegree(st.omega, delta, st.gamma, st.D - st.B, l - st.D - (1 - st.B), l - st.D + st.B);
    DegLeScale(i, st.sigma, st.D);
    DegLeScale(i, st.omega, st.D - st.B);
  }

  // p + delta z q stays within a bound that covers p, and z q unless delta is 0.
  lemma CorrectDegree(p: Poly, delta: Elem, q: Poly, d: int, e: int, bound: int)
    requires DegLe(p, d) && DegLe(q, e) && e >= -1 && d <= bound
    requires delta == F.ZERO || e + 1 <= bound
    ensures DegLe(Add(p, Scale(delta, Shift(q))), bound)
  {
    hide Add, Scale, Shift, DegLe;
    DegLeWeaken(p, d, bound);
    if delta == F.ZERO {
      ScaleZeroOne(Shift(q));
      AddZero(p);
    } else {
      DegLeShift(q, e);
      DegLeWeaken(Shift(q), e + 1, bound);
      DegLeScale(delta, Shift(q), bound);
      DegLeAdd(p, Scale(delta, Shift(q)), bound);
    }
  }

  lemma ConstantKeeps(p: Poly, delta: Elem, q: Poly)
    ensures Coeff(Add(p, Scale(delta, Shift(q))), 0) == Coeff(p, 0)
  {
    hide *;
    AddCoeff(p, Scale(delta, Shift(q)), 0);
    ScaleCoeff(delta, Shift(q), 0);
    ShiftCoeff(q, 0);
    F.MulZero(delta);
    F.AddZero(Coeff(p, 0));
  }

  lemma {:induction false} StepKeeps(s: Poly, l: nat, st: State)
    requires KeyState(s, l, st)
    ensures KeyState(s, l + 1, Step(s, l, st))
  {
    StepIs(s, l, st);
    var u, delta := Add(ONE, s), Delta(s, l, st.sigma);
    DegLeWeaken(st.omega, st.D - st.B, l);
    SigmaKeeps(u, st, l, delta);
    hide Step, Add, Scale, Shift, Mul, EqMod, DegLe, F.Inverse;
    ConstantKeeps(st.sigma, delta, st.tao);
    if RuleA(delta, l, st.D, st.B) {
      ShiftedTao(u, st.tao, st.gamma, l);
      DeterminantA(st, delta);
      DegreesKeepA(l, st, delta);
    } else {
      TaoKeepsB(u, st, l, delta);
      DeterminantB(st, delta);
      DegreesKeepB(l, st, delta, F.Inverse(delta));
    }
  }

  lemma StartState(s: Poly)
    requires Coeff(s, 0) == F.ZERO
    ensures KeyState(s, 0, START)
  {
    hide Coeff, Add, Mul, F.Add;
    var u := Add(ONE, s);
    MulComm(u, ONE);
    MulOne(u);
    MulOne(ONE);
    MulZeroRight(ONE);
    AddZero(ONE);
    AddCoeff(ONE, s, 0);
    OneCoeff(0);
    F.AddZero(F.ONE);
    DegLeConst(F.ONE);
    DegLeZero(ZERO, -1);
  }

  // The invariant holds at every step of the loop, whichever rules were taken.
  lemma {:induction false} IterateKeeps(s: Poly, l: nat)
    requires Coeff(s, 0) == F.ZERO
    ensures KeyState(s, l, Iterate(s, l))
  {
    hide Step, KeyState, Coeff;
    if l == 0 {
      StartState(s);
    } else {
      IterateKeeps(s, l - 1);
      StepKeeps(s, l - 1, Iterate(s, l - 1));
    }
  }

  // ----- the outcome

  // tao * omega* - gamma * sigma*, for the true locator sigma* and evaluator omega*
  function CrossTao(st: State, sigma: Poly, omega: Poly): Poly {
    Add(Mul(st.tao, omega), Mul(st.gamma, sigma))
  }

  // It agrees with z^d sigma* modulo z^(d+1).
  lemma CrossTaoMod(u: Poly, st: State, sigma: Poly, omega: Poly, d: nat)
    requires EqMod(Mul(u, sigma), omega, d + 1)
    requires EqMod(Mul(u, st.tao), Add(st.gamma, ShiftBy(ONE, d)), d + 1)
    ensures EqMod(CrossTao(st, sigma, omega), ShiftBy(sigma, d), d + 1)
  {
    var tao, gamma, z := st.tao, st.gamma, ShiftBy(ONE, d);
    hide Add, Mul, ShiftBy, Coeff;
    EqModMul(Mul(u, sigma), omega, tao, d + 1);
    EqModMul(Mul(u, tao), Add(gamma, z), sigma, d + 1);
    MulComm(tao, omega);
    MulAssoc(u, sigma, tao);
    MulAssoc(u, tao, sigma);
    MulComm(sigma, tao);
    MulAddLeft(gamma, z, sigma);
    ShiftByMul(ONE, sigma, d);
    MulOne(sigma);
    var gs, zs := Mul(gamma, sigma), ShiftBy(sigma, d);
    // tao omega* == gamma sigma* + z^d sigma*
    EqModAdd(Mul(tao, omega), Add(gs, zs), gs, gs, d + 1);
    AddComm(gs, zs);
    AddCancel(gs, zs);
  }

  // sigma * omega* - omega * sigma* vanishes modulo z^(d+1).
  lemma CrossSigmaMod(u: Poly, st: State, sigma: Poly, omega: Poly, d: nat)
    requires EqMod(Mul(u, sigma), omega, d + 1)
    requires EqMod(Mul(u, st.sigma), st.omega, d + 1)
    ensures EqMod(Add(Mul(st.sigma, omega), Mul(st.omega, sigma)), ZERO, d + 1)
  {
    hide Add, Mul, Coeff;
    EqModMul(Mul(u, sigma), omega, st.sigma, d + 1);
    EqModMul(Mul(u, st.sigma), st.omega, sigma, d + 1);
    MulComm(st.sigma, omega);
    MulAssoc(u, sigma, st.sigma);
    MulAssoc(u, st.sigma, sigma);
    MulComm(sigma, st.sigma);
    var a, b := Mul(st.sigma, omega), Mul(st.omega, sigma);
    EqModAdd(a, b, b, b, d + 1);
    AddSelf(b);
  }

  // p * (tao omega* - gamma sigma*) == (omega tao - sigma gamma) * q, when p omega* == omega q and p sigma* == sigma q
  lemma CrossProduct(st: State, sigma: Poly, omega: Poly, p: Poly, q: Poly)
    requires Mul(p, omega) == Mul(st.omega, q) && Mul(p, sigma) == Mul(st.sigma, q)
    ensures Mul(p, CrossTao(st, sigma, omega)) == Mul(Add(Mul(st.omega, st.tao), Mul(st.sigma, st.gamma)), q)
  {
    var tao, gamma := st.tao, st.gamma;
    hide Add, Mul;
    MulAddRight(p, Mul(tao, omega), Mul(gamma, sigma));
    MulSwap(p, tao, omega);
    MulSwap(p, gamma, sigma);
    MulSwap(tao, st.omega, q);
    MulSwap(gamma, st.sigma, q);
    MulAssoc(st.omega, tao, q);
    MulAssoc(st.sigma, gamma, q);
    MulAddLeft(Mul(st.omega, tao), Mul(st.sigma, gamma), q);
  }

  lemma CrossDegrees(st: State, sigma: Poly, omega: Poly, d: nat, v: nat)
    requires DegreesOk(d, st) && DegLe(sigma, v) && DegLe(omega, v)
    ensures DegLe(CrossTao(st, sigma, omega), d - st.D + v)
    ensures DegLe(Add(Mul(st.sigma, omega), Mul(st.omega, sigma)), st.D + v)
  {
    hide Add, Mul, DegLe;
    var c := d - st.D - (1 - st.B);
    DegLeMul(st.tao, omega, d - st.D, v);
    DegLeMul(st.gamma, sigma, c, v);
    DegLeWeaken(Mul(st.gamma, sigma), c + v, d - st.D + v);
    DegLeAdd(Mul(st.tao, omega), Mul(st.gamma, sigma), d - st.D + v);
    DegLeMul(st.sigma, omega, st.D, v);
    DegLeMul(st.omega, sigma, st.D - st.B, v);
    DegLeWeaken(Mul(st.omega, sigma), st.D - st.B + v, st.D + v);
    DegLeAdd(Mul(st.sigma, omega), Mul(st.omega, sigma), st.D + v);
  }

  // D does not exceed the number of errors, and the fractions omega / sigma agree.
  lemma {:induction false} CrossMultiplied(s: Poly, es: seq<Error>, d: nat, st: State)
    requires KeyState(s, d, st) && HasSyndromes(s, es, d) && 2 * |es| <= d
    ensures st.D <= |es|
    ensures Mul(st.sigma, Evaluator(es)) == Mul(st.omega, Locator(es))
    ensures EqMod(CrossTao(st, Locator(es), Evaluator(es)), ShiftBy(Locator(es), d), d + 1)
    ensures DegLe(CrossTao(st, Locator(es), Evaluator(es)), d - st.D + |es|)
  {
    var u, v := Add(ONE, s), |es|;
    var sigma, omega := Locator(es), Evaluator(es);
    KeyEquationHolds(s, es, d);
    hide Add, Mul, Coeff, ShiftBy, Locator, Evaluator, HasSyndromes, CrossTao;
    CrossTaoMod(u, st, sigma, omega, d);
    CrossSigmaMod(u, st, sigma, omega, d);
    LocatorDegree(es);
    CrossDegrees(st, sigma, omega, d, v);
    var a := CrossTao(st, sigma, omega);
    assert Coeff(a, d) == F.ONE by {
      assert Coeff(a, d) == Coeff(ShiftBy(sigma, d), d);
      ShiftByCoeff(sigma, d, d);
      LocatorConstant(es);
    }
    assert d <= d - st.D + v;
    var c := Add(Mul(st.sigma, omega), Mul(st.omega, sigma));
    DegLeWeaken(c, st.D + v, d);
    ZeroFromMod(c, d);
    AddIsZero(Mul(st.sigma, omega), Mul(st.omega, sigma));
  }

  // Both products with the cross term are z^d times the true polynomials.
  lemma {:induction false} CrossFactors(s: Poly, es: seq<Error>, d: nat, st: State)
    requires KeyState(s, d, st) && HasSyndromes(s, es, d) && 2 * |es| <= d
    ensures var a := CrossTao(st, Locator(es), Evaluator(es));
            && Mul(st.sigma, a) == ShiftBy(Locator(es), d)
            && Mul(st.omega, a) == ShiftBy(Evaluator(es), d)
  {
    var sigma, omega := Locator(es), Evaluator(es);
    CrossMultiplied(s, es, d, st);
    hide Add, Mul, Coeff, EqMod, DegreesOk, Locator, Evaluator, HasSyndromes, CrossTao;
    CrossProduct(st, sigma, omega, st.sigma, sigma);
    CrossProduct(st, sigma, omega, st.omega, omega);
    ShiftByMul(ONE, sigma, d);
    ShiftByMul(ONE, omega, d);
    MulOne(sigma);
    MulOne(omega);
  }

  // sigma vanishes at the inverse of every location.
  lemma {:induction false} SharedRoot(s: Poly, es: seq<Error>, d: nat, st: State, i: nat)
    requires KeyState(s, d, st) && HasSyndromes(s, es, d) && 2 * |es| <= d
    requires ErrorsOk(es) && i < |es|
    ensures Location(es[i]) != F.ZERO
    ensures Eval(st.sigma, F.Inverse(Location(es[i]))) == F.ZERO
  {
    CrossFactors(s, es, d, st);
    hide KeyState, HasSyndromes, Mul, ShiftBy, Locator, Evaluator, CrossTao, Eval, Location, F.Mul, F.Inverse;
    EvaluatorNonzero(es, i);
    var x, a := F.Inverse(Location(es[i])), CrossTao(st, Locator(es), Evaluator(es));
    F.MulInverse(Location(es[i]));
    ShiftByEval(Locator(es), d, x);
    ShiftByEval(Evaluator(es), d, x);
    EvalMul(st.sigma, a, x);
    EvalMul(st.omega, a, x);
    F.MulNonzero(Eval(st.sigma, x), Eval(a, x));
    F.MulNonzero(Eval(st.omega, x), Eval(a, x));
  }

  function InverseLocations(es: seq<Error>): (xs: seq<Elem>)
    ensures |xs| == |es|
  {
    seq(|es|, i requires 0 <= i < |es| => LocationNonzero(es[i]); F.Inverse(Location(es[i])))
  }

  lemma InverseLocationsDistinct(es: seq<Error>)
    requires ErrorsOk(es)
    ensures Distinct(InverseLocations(es))
  {
    hide F.Inverse, Location, ErrorsOk;
    var xs := InverseLocations(es);
    forall i, j | 0 <= i < j < |xs|
      ensures xs[i] != xs[j]
    {
      LocationNonzero(es[i]);
      LocationNonzero(es[j]);
      LocationsDistinct(es, i, j);
      if xs[i] == xs[j] {
        InverseInjective(Location(es[i]), Location(es[j]));
      }
    }
  }

  // sigma has as many distinct roots as there are errors, so D is exactly their number.
  lemma {:induction false} DCountsErrors(s: Poly, es: seq<Error>, d: nat, st: State)
    requires KeyState(s, d, st) && HasSyndromes(s, es, d) && 2 * |es| <= d && ErrorsOk(es)
    ensures st.D == |es|
  {
    CrossMultiplied(s, es, d, st);
    SigmaNonzero(s, d, st);
    InverseLocationsDistinct(es);
    var xs := InverseLocations(es);
    hide KeyState, HasSyndromes, ErrorsOk, Distinct, DegLe, EqMod, Eval, Mul, F.Inverse, Location;
    forall i | 0 <= i < |xs|
      ensures Eval(st.sigma, xs[i]) == F.ZERO
    {
      SharedRoot(s, es, d, st, i);
    }
    RootCount(st.sigma, st.D, xs);
  }

  lemma SigmaNonzero(s: Poly, d: nat, st: State)
    requires KeyState(s, d, st)
    ensures DegLe(st.sigma, st.D) && st.sigma != ZERO
  {
    ZeroCoeff(0);
    hide Coeff;
  }

  lemma InverseInjective(a: Elem, b: Elem)
    requires a != F.ZERO && b != F.ZERO && F.Inverse(a) == F.Inverse(b)
    ensures a == b
  {
    hide F.Mul, F.Inverse;
    F.MulInverse(a);
    F.MulInverse(b);
    F.MulComm(a, F.Inverse(a));
    F.MulComm(b, F.Inverse(b));
    F.MulCancel(F.Inverse(a), a, b);
  }

  // With at most d / 2 errors, d iterations end with their locator and evaluator.
  lemma {:induction false} IterateFindsErrors(s: Poly, es: seq<Error>, d: nat)
    requires HasSyndromes(s, es, d) && 2 * |es| <= d && ErrorsOk(es)
    ensures Iterate(s, d).sigma == Locator(es)
    ensures Iterate(s, d).omega == Evaluator(es)
    ensures Iterate(s, d).D == |es|
  {
    var st := Iterate(s, d);
    var a := CrossTao(st, Locator(es), Evaluator(es));
    IterateKeeps(s, d);
    CrossMultiplied(s, es, d, st);
    CrossFactors(s, es, d, st);
    DCountsErrors(s, es, d, st);
    hide KeyState, HasSyndromes, ErrorsOk, Coeff, Mul, ShiftBy, Locator, Evaluator, CrossTao, Iterate;
    // the cross term is z^d
    forall i: nat
      ensures Coeff(a, i) == Coeff(ShiftBy(ONE, d), i)
    {
      ShiftByCoeff(Locator(es), d, i);
      ShiftByCoeff(ONE, d, i);
      if i >= d {
        OneCoeff(i - d);
      }
      LocatorConstant(es);
    }
    Ext(a, ShiftBy(ONE, d));
    MulByPower(st.sigma, d);
    MulByPower(st.omega, d);
    ShiftByInjective(st.sigma, Locator(es), d);
    ShiftByInjective(st.omega, Evaluator(es), d);
  }

  lemma MulByPower(p: Poly, d: nat)
    ensures Mul(p, ShiftBy(ONE, d)) == ShiftBy(p, d)
  {
    hide Mul, ShiftBy;
    MulComm(p, ShiftBy(ONE, d));
    ShiftByMul(ONE, p, d);
    MulOne(p);
  }
}
