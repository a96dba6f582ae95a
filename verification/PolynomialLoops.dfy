/**
 The loops of desktop/polynomial.py: the constructor's removal of leading zeros, the
 in-place convolution of __mul__, and evaluate.
 */
module PolynomialLoops {
  import F = GF256
  import opened Polynomials
  import opened PolynomialRing

  method Construct(coefficients: seq<Elem>) returns (p: Poly)
    ensures p == Make(coefficients)
    ensures forall i: nat :: Coeff(p, i) == At(coefficients, i)
  {
    var c := coefficients;
    while |c| > 0 && c[0] == F.ZERO
      invariant Make(c) == Make(coefficients)
      decreases |c|
    {
      c := c[1..];
    }
    if |c| == 0 {
      c := [F.ZERO];
    }
    p := Polynomial(c);
    forall i: nat
      ensures Coeff(p, i) == At(coefficients, i)
    {
      MakeAt(coefficients, i);
    }
  }

  // The part of the coefficient of x^k in p * q that comes from the terms of p below x^n.
  function Convolution(p: Poly, q: Poly, k: nat, n: nat): Elem {
    if n == 0 then F.ZERO
    else if n > k + 1 then Convolution(p, q, k, n - 1)
    else F.Add(Convolution(p, q, k, n - 1), F.Mul(Coeff(p, n - 1), Coeff(q, k - (n - 1))))
  }

  // Taking the first term of p out of the sum leaves the sum of its tail.
  lemma {:induction false} ConvolutionTail(p: Poly, q: Poly, k: nat, n: nat)
    requires n > 0
    ensures Convolution(p, q, k, n)
            == F.Add(F.Mul(Coeff(p, 0), Coeff(q, k)), if k == 0 then F.ZERO else Convolution(Tail(p), q, k - 1, n - 1))
    decreases n
  {
    hide Coeff, Tail, F.Add, F.Mul;
    var a := F.Mul(Coeff(p, 0), Coeff(q, k));
    if n == 1 {
      assert Convolution(p, q, k, 0) == F.ZERO;
      F.AddZero(a);
    } else {
      ConvolutionTail(p, q, k, n - 1);
      if n <= k + 1 {
        TailCoeff(p, n - 2);
        F.AddAssoc(a, Convolution(Tail(p), q, k - 1, n - 2), F.Mul(Coeff(p, n - 1), Coeff(q, k - (n - 1))));
      }
    }
  }

  // The whole convolution is the coefficient of the product.
  lemma {:induction false} MulIsConvolution(p: Poly, q: Poly, k: nat, n: nat)
    requires n >= |p.coefficients|
    ensures Coeff(Mul(p, q), k) == Convolution(p, q, k, n)
    decreases k, |p.coefficients|
  {
    hide *;
    var a, t := Coeff(p, 0), Tail(p);
    assert n > 0 by { NotEmpty(p); }
    ConvolutionTail(p, q, k, n);
    MulStep(p, q);
    AddCoeff(Scale(a, q), Shift(Mul(t, q)), k);
    ScaleCoeff(a, q, k);
    ShiftCoeff(Mul(t, q), k);
    if k > 0 {
      if |p.coefficients| == 1 {
        OneTerm(p);
        MulZeroLeft(q);
        ConvolutionZero(q, k - 1, n - 1);
      } else {
        OneTermTail(p);
        MulIsConvolution(t, q, k - 1, n - 1);
      }
    }
  }

  lemma NotEmpty(p: Poly)
    ensures |p.coefficients| > 0
  {}

  lemma {:induction false} ConvolutionZero(q: Poly, k: nat, n: nat)
    ensures Convolution(ZERO, q, k, n) == F.ZERO && Coeff(ZERO, k) == F.ZERO
  {
    if n > 0 {
      ConvolutionZero(q, k, n - 1);
      hide F.Add, F.Mul;
      F.AddZero(F.ZERO);
      if n <= k + 1 {
        F.MulZero(Coeff(q, k - (n - 1)));
      }
    }
  }

  // __mul__
  method Multiply(p: Poly, q: Poly) returns (r: Poly)
    ensures r == Mul(p, q)
  {
    hide F.Add, F.Mul, Mul, Make;
    var n, m := |p.coefficients|, |q.coefficients|;
    var terms := new Elem[n + m](_ => F.ZERO);
    var i1 := 0;
    while i1 < n
      invariant 0 <= i1 <= n
      invariant forall k | 0 <= k < n + m :: terms[k] == Convolution(p, q, k, i1)
    {
      var c1 := p.coefficients[n - 1 - i1];
      assert c1 == Coeff(p, i1);
      F.MulZero(c1);
      if c1 != F.ZERO {
        var i2 := 0;
        while i2 < m
          invariant 0 <= i2 <= m
          invariant forall k | 0 <= k < n + m ::
              terms[k] == Convolution(p, q, k, if i1 <= k < i1 + i2 then i1 + 1 else i1)
        {
          var c2 := q.coefficients[m - 1 - i2];
          assert c2 == Coeff(q, i2);
          terms[i1 + i2] := F.Add(terms[i1 + i2], F.Mul(c1, c2));
          i2 := i2 + 1;
        }
      }
      forall k | 0 <= k < n + m
        ensures terms[k] == Convolution(p, q, k, i1 + 1)
      {
        F.AddZero(Convolution(p, q, k, i1));
        if k >= i1 {
          F.MulZero(Coeff(q, k - i1));
        }
      }
      i1 := i1 + 1;
    }
    var c := seq(n + m, i requires 0 <= i < n + m reads terms => terms[n + m - 1 - i]);
    r := Construct(c);
    forall k: nat
      ensures Coeff(r, k) == Coeff(Mul(p, q), k)
    {
      MulIsConvolution(p, q, k, n);
      if k >= n + m {
        ConvolutionBeyond(p, q, k, n);
      }
    }
    Ext(r, Mul(p, q));
  }

  lemma {:induction false} ConvolutionBeyond(p: Poly, q: Poly, k: nat, n: nat)
    requires k >= n + |q.coefficients|
    ensures Convolution(p, q, k, n) == F.ZERO
  {
    if n > 0 {
      ConvolutionBeyond(p, q, k, n - 1);
      assert Coeff(q, k - (n - 1)) == F.ZERO;
      hide F.Add, F.Mul;
      F.MulZero(Coeff(p, n - 1));
      F.AddZero(F.ZERO);
    }
  }

  // evaluate
  method Evaluate(p: Poly, x: Elem) returns (c: Elem)
    ensures c == Eval(p, x)
  {
    hide F.Add, F.Mul, Eval, Tail;
    c := F.ZERO;
    var power := F.ONE;
    var n := |p.coefficients|;
    var i := 0;
    F.AddZero(Eval(p, x));
    F.MulOne(Eval(p, x));
    ghost var rest: Poly := p;
    while i < n
      invariant 0 <= i <= n
      invariant i < n ==> rest.coefficients == p.coefficients[..n - i]
      invariant i == n ==> rest == ZERO
      invariant F.Add(c, F.Mul(power, Eval(rest, x))) == Eval(p, x)
    {
      var term := p.coefficients[n - 1 - i];
      assert term == Coeff(rest, 0);
      EvalStep(rest, x);
      var tail := Tail(rest);
      F.MulAdd(term, F.Mul(x, Eval(tail, x)), power);
      F.MulAssoc(power, x, Eval(tail, x));
      F.MulComm(power, term);
      F.AddAssoc(c, F.Mul(power, term), F.Mul(F.Mul(power, x), Eval(tail, x)));
      c := F.Add(c, F.Mul(term, power));
      power := F.Mul(power, x);
      i := i + 1;
      if i == n {
        OneTerm(rest);
      } else {
        TailIsPrefix(rest);
      }
      rest := tail;
    }
    EvalConst(F.ZERO, x);
    F.MulZero(power);
    F.AddZero(c);
  }

  lemma TailIsPrefix(p: Poly)
    requires |p.coefficients| > 1
    ensures Tail(p).coefficients == p.coefficients[..|p.coefficients| - 1]
  {}
}
