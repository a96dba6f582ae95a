/**
 Polynomials over GF(2^8), after desktop/polynomial.py: coefficients in order of decreasing
 power, without leading zeros, the zero polynomial being the single coefficient 0.
 */
module Polynomials {
  import F = GF256
  type Elem = F.Elem

  datatype Polynomial = Polynomial(coefficients: seq<Elem>) {
    // What the constructor establishes: at least one term, and no leading zero unless it is the only term.
    predicate Normal() {
      |coefficients| > 0 && (|coefficients| > 1 ==> coefficients[0] != F.ZERO)
    }
  }

  type Poly = p: Polynomial | p.Normal() witness Polynomial([F.ZERO])

  const ZERO: Poly := Polynomial([F.ZERO])
  const ONE: Poly := Polynomial([F.ONE])

  // The polynomial of degree 1 with root 0
  const Z: Poly := Polynomial([F.ONE, F.ZERO])

  // The constructor: drop leading zeros, keep one term.
  function Make(c: seq<Elem>): Poly {
    if |c| == 0 then ZERO
    else if |c| > 1 && c[0] == F.ZERO then Make(c[1..])
    else Polynomial(c)
  }

  function Degree(p: Poly): nat {
    |p.coefficients| - 1
  }

  // The entry of a list of coefficients that belongs to power i; 0 outside the list.
  function At(c: seq<Elem>, i: nat): Elem {
    if i < |c| then c[|c| - 1 - i] else F.ZERO
  }

  // get_coefficient
  function Coeff(p: Poly, i: nat): Elem {
    At(p.coefficients, i)
  }

  function Zeros(n: nat): seq<Elem> {
    seq(n, _ => F.ZERO)
  }

  // Pad the shorter operand in front and add term by term.
  function Add(p: Poly, q: Poly): Poly {
    var n, m := |p.coefficients|, |q.coefficients|;
    var s := if n > m then p.coefficients else Zeros(m - n) + p.coefficients;
    var t := if n > m then Zeros(n - m) + q.coefficients else q.coefficients;
    Make(seq(|s|, i requires 0 <= i < |s| => F.Add(s[i], t[i])))
  }

  function Neg(p: Poly): Poly {
    var c := p.coefficients;
    Make(seq(|c|, i requires 0 <= i < |c| => F.Neg(c[i])))
  }

  function Sub(p: Poly, q: Poly): Poly {
    Add(p, Neg(q))
  }

  function Scale(a: Elem, p: Poly): Poly {
    var c := p.coefficients;
    Make(seq(|c|, i requires 0 <= i < |c| => F.Mul(a, c[i])))
  }

  // The constant polynomial a.
  function Const(a: Elem): Poly {
    Polynomial([a])
  }

  // a * x^n
  function Term(a: Elem, n: nat): Poly {
    Make([a] + Zeros(n))
  }

  // x * p
  function Shift(p: Poly): Poly {
    Make(p.coefficients + [F.ZERO])
  }

  // p without its constant term, divided by x.
  function Tail(p: Poly): Poly {
    Make(p.coefficients[..|p.coefficients| - 1])
  }

  // The product, by the terms of the left operand from the constant upwards.
  function Mul(p: Poly, q: Poly): Poly
    decreases |p.coefficients|
  {
    TailShorter(p);
    if |p.coefficients| == 1 then Scale(Coeff(p, 0), q)
    else Add(Scale(Coeff(p, 0), q), Shift(Mul(Tail(p), q)))
  }

  // The value at x, by Horner's rule.
  function Eval(p: Poly, x: Elem): Elem
    decreases |p.coefficients|
  {
    TailShorter(p);
    if |p.coefficients| == 1 then Coeff(p, 0)
    else F.Add(Coeff(p, 0), F.Mul(x, Eval(Tail(p), x)))
  }

  // ----- coefficients

  lemma {:induction false} MakeAt(c: seq<Elem>, i: nat)
    ensures Coeff(Make(c), i) == At(c, i)
  {
    if |c| > 1 && c[0] == F.ZERO {
      MakeAt(c[1..], i);
    }
  }

  lemma TailShorter(p: Poly)
    ensures |p.coefficients| > 1 ==> |Tail(p).coefficients| == |p.coefficients| - 1
  {}

  lemma {:induction false} AddCoeff(p: Poly, q: Poly, i: nat)
    ensures Coeff(Add(p, q), i) == F.Add(Coeff(p, i), Coeff(q, i))
  {
    hide F.Add, Make;
    var n, m := |p.coefficients|, |q.coefficients|;
    var s := if n > m then p.coefficients else Zeros(m - n) + p.coefficients;
    var t := if n > m then Zeros(n - m) + q.coefficients else q.coefficients;
    MakeAt(seq(|s|, j requires 0 <= j < |s| => F.Add(s[j], t[j])), i);
    F.AddZero(F.ZERO);
  }

  lemma NegIsSelf(p: Poly)
    ensures Neg(p) == p
  {
    assert seq(|p.coefficients|, i requires 0 <= i < |p.coefficients| => F.Neg(p.coefficients[i])) == p.coefficients;
  }

  lemma ScaleCoeff(a: Elem, p: Poly, i: nat)
    ensures Coeff(Scale(a, p), i) == F.Mul(a, Coeff(p, i))
  {
    hide F.Mul, Make;
    var c := p.coefficients;
    MakeAt(seq(|c|, j requires 0 <= j < |c| => F.Mul(a, c[j])), i);
    F.MulZero(a);
  }

  lemma ShiftCoeff(p: Poly, i: nat)
    ensures Coeff(Shift(p), i) == if i == 0 then F.ZERO else Coeff(p, i - 1)
  {
    hide Make;
    MakeAt(p.coefficients + [F.ZERO], i);
  }

  lemma TailCoeff(p: Poly, i: nat)
    ensures Coeff(Tail(p), i) == Coeff(p, i + 1)
  {
    hide Make;
    MakeAt(p.coefficients[..|p.coefficients| - 1], i);
  }

  lemma TermCoeff(a: Elem, n: nat, i: nat)
    ensures Coeff(Term(a, n), i) == if i == n then a else F.ZERO
  {
    hide Make;
    MakeAt([a] + Zeros(n), i);
  }

  lemma ConstCoeff(a: Elem, i: nat)
    ensures Coeff(Const(a), i) == if i == 0 then a else F.ZERO
  {}

  lemma ZeroCoeff(i: nat)
    ensures Coeff(ZERO, i) == F.ZERO
  {}

  lemma OneCoeff(i: nat)
    ensures Coeff(ONE, i) == if i == 0 then F.ONE else F.ZERO
  {}

  // The coefficient rules, for every polynomial at once.
  lemma Coeffs()
    ensures forall p: Poly, q: Poly, i: nat :: Coeff(Add(p, q), i) == F.Add(Coeff(p, i), Coeff(q, i))
    ensures forall a: Elem, p: Poly, i: nat :: Coeff(Scale(a, p), i) == F.Mul(a, Coeff(p, i))
    ensures forall p: Poly, i: nat :: Coeff(Shift(p), i) == if i == 0 then F.ZERO else Coeff(p, i - 1)
    ensures forall p: Poly, i: nat :: Coeff(Tail(p), i) == Coeff(p, i + 1)
    ensures forall a: Elem, n: nat, i: nat :: Coeff(Term(a, n), i) == if i == n then a else F.ZERO
    ensures forall i: nat :: Coeff(ZERO, i) == F.ZERO
    ensures forall a: Elem, i: nat :: Coeff(Const(a), i) == if i == 0 then a else F.ZERO
  {
    hide F.Add, F.Mul, Add, Scale, Shift, Tail, Term;
    forall p: Poly, q: Poly, i: nat
      ensures Coeff(Add(p, q), i) == F.Add(Coeff(p, i), Coeff(q, i))
    {
      AddCoeff(p, q, i);
    }
    forall a: Elem, p: Poly, i: nat
      ensures Coeff(Scale(a, p), i) == F.Mul(a, Coeff(p, i))
    {
      ScaleCoeff(a, p, i);
    }
    forall p: Poly, i: nat
      ensures Coeff(Shift(p), i) == if i == 0 then F.ZERO else Coeff(p, i - 1)
    {
      ShiftCoeff(p, i);
    }
    forall p: Poly, i: nat
      ensures Coeff(Tail(p), i) == Coeff(p, i + 1)
    {
      TailCoeff(p, i);
    }
    forall a: Elem, n: nat, i: nat
      ensures Coeff(Term(a, n), i) == if i == n then a else F.ZERO
    {
      TermCoeff(a, n, i);
    }
  }

  // Normal polynomials with equal coefficients are equal.
  lemma {:induction false} Ext(p: Poly, q: Poly)
    requires forall i: nat :: Coeff(p, i) == Coeff(q, i)
    ensures p == q
  {
    var n, m := |p.coefficients|, |q.coefficients|;
    assert Coeff(p, n - 1) == Coeff(q, n - 1);
    assert Coeff(p, m - 1) == Coeff(q, m - 1);
    forall j | 0 <= j < n
      ensures p.coefficients[j] == q.coefficients[j]
    {
      assert Coeff(p, n - 1 - j) == Coeff(q, n - 1 - j);
    }
  }
}
