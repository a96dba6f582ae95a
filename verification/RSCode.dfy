/**
 RSCoder of desktop/rs.py: construction of the generator polynomial, encode and verify.
 Byte strings are sequences of field elements.
 */
module RSCode {
  import F = GF256
  import opened Polynomials
  import opened PolynomialRing
  import opened PolynomialDivision

  datatype Result<+T> = Ok(value: T) | ValueError(reason: Reason)

  datatype Reason =
    | NotPositive
    | CodewordTooLong
    | MessageNotShorter
    | MessageTooLong(max: nat, actual: nat)

  datatype RSCoder = RSCoder(n: nat, k: nat, g: Poly) {
    ghost predicate Valid() {
      k < n < 256 && g == Generator(n - k)
    }
  }

  // x - a, the factor of the generator with root a
  function Root(a: Elem): Poly {
    Polynomial([F.ONE, a])
  }

  // (x - alpha^1)(x - alpha^2)...(x - alpha^d)
  function Generator(d: nat): Poly {
    if d == 0 then ONE else Mul(Generator(d - 1), Root(F.Pow(F.ALPHA, d)))
  }

  // __init__
  method Create(n: int, k: int) returns (r: Result<RSCoder>)
    ensures r.Ok? <==> 0 <= k < n < 256
    ensures r.Ok? ==> r.value.n == n && r.value.k == k && r.value.Valid()
    ensures r == ValueError(NotPositive) <==> n < 0 || k < 0
    ensures r == ValueError(CodewordTooLong) <==> n >= 256 && k >= 0
    ensures r == ValueError(MessageNotShorter) <==> 0 <= n <= k && n < 256
  {
    hide Mul, F.Pow;
    if n < 0 || k < 0 {
      return ValueError(NotPositive);
    }
    if !(n < 256) {
      return ValueError(CodewordTooLong);
    }
    if !(k < n) {
      return ValueError(MessageNotShorter);
    }
    var g := ONE;
    for alpha := 1 to n - k + 1
      invariant g == Generator(alpha - 1)
    {
      var p := Root(F.Pow(F.ALPHA, alpha));
      g := Mul(g, p);
    }
    return Ok(RSCoder(n, k, g));
  }

  // str.rjust with NUL as the fill character
  function Rjust(c: seq<Elem>, n: nat): seq<Elem> {
    if |c| >= n then c else Zeros(n - |c|) + c
  }

  // str.lstrip of NULs
  function LStrip(c: seq<Elem>): seq<Elem> {
    if |c| > 0 && c[0] == F.ZERO then LStrip(c[1..]) else c
  }

  // The part of s before its last d entries, as Python's s[:-d] for d > 0.
  function DropLast<T>(s: seq<T>, d: nat): seq<T> {
    if |s| <= d then [] else s[..|s| - d]
  }

  function EncodePoly(coder: RSCoder, message: seq<Elem>): Poly
    requires coder.Valid()
  {
    GeneratorNonzero(coder.n - coder.k);
    var m := Make(message);
    var shifted := Mul(m, Make([F.ONE] + Zeros(coder.n - coder.k)));
    var b := Mod(shifted, coder.g);
    Sub(shifted, b)
  }

  function Encode(coder: RSCoder, message: seq<Elem>): Result<seq<Elem>>
    requires coder.Valid()
  {
    if |message| > coder.k then
      ValueError(MessageTooLong(coder.k, |message|))
    else
      Ok(Rjust(EncodePoly(coder, message).coefficients, coder.n))
  }

  predicate Verify(coder: RSCoder, code: seq<Elem>)
    requires coder.Valid()
  {
    hide Make, DivMod;
    GeneratorNonzero(coder.n - coder.k);
    var c := Make(code);
    Mod(c, coder.g) == ZERO
  }

  // ----- the generator

  lemma RootDegree(a: Elem)
    ensures DegLe(Root(a), 1) && Coeff(Root(a), 1) == F.ONE
  {}

  lemma MonicTimesRoot(p: Poly, a: Elem, d: nat)
    requires DegLe(p, d) && Coeff(p, d) == F.ONE
    ensures DegLe(Mul(p, Root(a)), d + 1) && Coeff(Mul(p, Root(a)), d + 1) == F.ONE
  {
    hide *;
    RootDegree(a);
    DegLeMul(p, Root(a), d, 1);
    MulLead(p, Root(a), d, 1);
    F.MulOne(F.ONE);
  }

  lemma {:induction false} GeneratorDegree(d: nat)
    ensures DegLe(Generator(d), d) && Coeff(Generator(d), d) == F.ONE
  {
    hide Coeff, DegLe, Mul, Root, F.Pow;
    if d == 0 {
      DegLeConst(F.ONE);
      OneCoeff(0);
    } else {
      GeneratorDegree(d - 1);
      MonicTimesRoot(Generator(d - 1), F.Pow(F.ALPHA, d), d - 1);
    }
  }

  lemma GeneratorNonzero(d: nat)
    ensures Generator(d) != ZERO && Degree(Generator(d)) == d
  {
    GeneratorDegree(d);
    ZeroCoeff(d);
    hide Generator;
    var g := Generator(d);
    DegreeLe(g, d);
    DegLeDegree(g);
    assert Degree(g) >= d by {
      if Degree(g) < d {
        AboveBound(g, Degree(g), d);
      }
    }
  }

  lemma RootEval(a: Elem, x: Elem)
    ensures Eval(Root(a), x) == F.Add(a, x)
  {
    var p := Root(a);
    assert Coeff(p, 0) == a && Tail(p) == ONE;
    hide Eval, Root, Tail, F.Add, F.Mul;
    EvalStep(p, x);
    EvalConst(a, x);
    F.MulOne(x);
  }

  lemma {:induction false} GeneratorRoot(d: nat, l: nat)
    requires 1 <= l <= d
    ensures Eval(Generator(d), F.Pow(F.ALPHA, l)) == F.ZERO
  {
    hide Eval, Mul, Root, F.Pow, F.Mul, F.Add;
    var a, x := F.Pow(F.ALPHA, d), F.Pow(F.ALPHA, l);
    EvalMul(Generator(d - 1), Root(a), x);
    F.MulZero(Eval(Root(a), x));
    F.MulZero(Eval(Generator(d - 1), x));
    if l == d {
      RootEval(a, x);
      F.AddSelf(x);
    } else {
      GeneratorRoot(d - 1, l);
    }
  }

  // alpha^1 .. alpha^d
  function AlphaPowers(d: nat): (xs: seq<Elem>)
    ensures |xs| == d
  {
    seq(d, i requires 0 <= i < d => F.Pow(F.ALPHA, i + 1))
  }

  lemma AlphaPowersDistinct(d: nat)
    requires d <= 255
    ensures Distinct(AlphaPowers(d))
  {
    hide F.Pow;
    forall i, j | 0 <= i < j < d
      ensures AlphaPowers(d)[i] != AlphaPowers(d)[j]
    {
      F.AlphaPowers(i + 1, j + 1);
    }
  }

  // p vanishes at alpha^1 .. alpha^d: all syndromes are zero.
  ghost predicate NoSyndrome(p: Poly, d: nat) {
    forall l | 1 <= l <= d :: Eval(p, F.Pow(F.ALPHA, l)) == F.ZERO
  }

  // A polynomial of degree below d that vanishes at alpha^1 .. alpha^d is zero.
  lemma SmallNoSyndrome(p: Poly, d: nat)
    requires d <= 255 && DegLe(p, d - 1) && NoSyndrome(p, d)
    ensures p == ZERO
  {
    hide Eval, F.Pow, DegLe;
    AlphaPowersDistinct(d);
    if p != ZERO {
      RootCount(p, d - 1, AlphaPowers(d));
    }
  }

  lemma MultipleHasNoSyndrome(q: Poly, d: nat)
    ensures NoSyndrome(Mul(q, Generator(d)), d)
  {
    hide Eval, Mul, F.Pow, F.Mul;
    forall l | 1 <= l <= d
      ensures Eval(Mul(q, Generator(d)), F.Pow(F.ALPHA, l)) == F.ZERO
    {
      var x := F.Pow(F.ALPHA, l);
      GeneratorRoot(d, l);
      EvalMul(q, Generator(d), x);
      F.MulZero(Eval(q, x));
    }
  }

  lemma NoSyndromeAdd(p: Poly, q: Poly, d: nat)
    requires NoSyndrome(p, d) && NoSyndrome(q, d)
    ensures NoSyndrome(Add(p, q), d)
  {
    hide Eval, Add, F.Pow, F.Add;
    forall l | 1 <= l <= d
      ensures Eval(Add(p, q), F.Pow(F.ALPHA, l)) == F.ZERO
    {
      EvalAdd(p, q, F.Pow(F.ALPHA, l));
      F.AddZero(F.ZERO);
    }
  }

  // Division by the generator leaves nothing exactly when all syndromes are zero.
  lemma {:induction false} ModGenerator(c: Poly, d: nat)
    requires d <= 255
    ensures Generator(d) != ZERO
    ensures Mod(c, Generator(d)) == ZERO <==> NoSyndrome(c, d)
  {
    hide NoSyndrome, Mul, Add, Generator, DivMod;
    GeneratorNonzero(d);
    var g := Generator(d);
    DivModIdentity(c, g);
    var (q, r) := DivMod(c, g);
    MultipleHasNoSyndrome(q, d);
    AddZero(Mul(q, g));
    if NoSyndrome(c, d) {
      NoSyndromeAdd(Mul(q, g), c, d);
      AddCancel(Mul(q, g), r);
      SmallDegree(r, d);
      SmallNoSyndrome(r, d);
    }
  }

  // verify accepts a word exactly when it vanishes at alpha^1 .. alpha^(n-k).
  lemma {:induction false} VerifyIffNoSyndrome(coder: RSCoder, code: seq<Elem>)
    requires coder.Valid()
    ensures Verify(coder, code) <==> NoSyndrome(Make(code), coder.n - coder.k)
  {
    hide NoSyndrome, Generator, Mod;
    ModGenerator(Make(code), coder.n - coder.k);
  }

  // ----- encode

  // p minus its remainder is the quotient times the divisor.
  lemma MinusRemainder(p: Poly, g: Poly)
    requires g != ZERO
    ensures Sub(p, Mod(p, g)) == Mul(Div(p, g), g)
  {
    hide Add, Sub, Mul, DivMod;
    DivModIdentity(p, g);
    var (q, r) := DivMod(p, g);
    SubIsAdd(p, r);
    AddCancel(r, Mul(q, g));
  }

  // The upper coefficients of x^d m minus its remainder are those of m.
  lemma UpperCoefficients(message: seq<Elem>, g: Poly, i: nat)
    requires g != ZERO && i >= Degree(g)
    ensures var shifted := Mul(Make(message), Term(F.ONE, Degree(g)));
            Coeff(Sub(shifted, Mod(shifted, g)), i) == At(message, i - Degree(g))
  {
    hide *;
    var d: int, m := Degree(g), Make(message);
    var shifted := Mul(m, Term(F.ONE, d));
    var b := Mod(shifted, g);
    MulComm(m, Term(F.ONE, d));
    TermMul(F.ONE, d, m);
    ScaleZeroOne(m);
    ShiftByCoeff(m, d, i);
    MakeAt(message, i - d);
    ModDegree(shifted, g);
    AboveBound(b, d - 1, i);
    SubIsAdd(shifted, b);
    AddCoeff(shifted, b, i);
    F.AddZero(Coeff(shifted, i));
  }

  lemma ModDegree(p: Poly, g: Poly)
    requires g != ZERO
    ensures DegLe(Mod(p, g), Degree(g) - 1)
  {
    hide DivMod, Degree, DegLe;
    DivModIdentity(p, g);
    SmallDegree(Mod(p, g), Degree(g));
  }

  lemma EncodePolyIs(coder: RSCoder, message: seq<Elem>)
    requires coder.Valid()
    ensures coder.g == Generator(coder.n - coder.k) != ZERO && Degree(coder.g) == coder.n - coder.k
    ensures var shifted := Mul(Make(message), Term(F.ONE, coder.n - coder.k));
            EncodePoly(coder, message) == Sub(shifted, Mod(shifted, coder.g))
  {
    hide Mul, Sub, Make, Mod, Generator, Degree;
    GeneratorNonzero(coder.n - coder.k);
  }

  // The encoded polynomial is a multiple of g.
  lemma EncodePolyMultiple(coder: RSCoder, message: seq<Elem>) returns (q: Poly)
    requires coder.Valid()
    ensures EncodePoly(coder, message) == Mul(q, coder.g)
    ensures NoSyndrome(EncodePoly(coder, message), coder.n - coder.k)
  {
    hide EncodePoly, Generator, Mul, Sub, Make, Mod, Div, Term, NoSyndrome, Degree;
    EncodePolyIs(coder, message);
    var d := coder.n - coder.k;
    var shifted := Mul(Make(message), Term(F.ONE, d));
    q := Div(shifted, coder.g);
    MinusRemainder(shifted, coder.g);
    MultipleHasNoSyndrome(q, d);
  }

  // Its upper coefficients are the message's.
  lemma EncodePolyUpper(coder: RSCoder, message: seq<Elem>, i: nat)
    requires coder.Valid() && i >= coder.n - coder.k
    ensures Coeff(EncodePoly(coder, message), i) == At(message, i - (coder.n - coder.k))
  {
    hide EncodePoly, Generator, Mul, Sub, Make, Mod, Term, Degree, Coeff, At;
    EncodePolyIs(coder, message);
    UpperCoefficients(message, coder.g, i);
  }

  lemma RjustAt(c: seq<Elem>, n: nat, i: nat)
    ensures At(Rjust(c, n), i) == At(c, i)
  {}

  // A list of n coefficients is determined by its entries.
  lemma AtExt(a: seq<Elem>, b: seq<Elem>)
    requires |a| == |b|
    requires forall i: nat | i < |a| :: At(a, i) == At(b, i)
    ensures a == b
  {
    forall j | 0 <= j < |a|
      ensures a[j] == b[j]
    {
      assert At(a, |a| - 1 - j) == At(b, |a| - 1 - j);
    }
  }

  // The bytes of a polynomial of degree below n
  lemma BytesOf(c: Poly, n: nat)
    requires DegLe(c, n - 1) && n > 0
    ensures |Rjust(c.coefficients, n)| == n
    ensures forall i: nat :: At(Rjust(c.coefficients, n), i) == Coeff(c, i)
    ensures Make(Rjust(c.coefficients, n)) == c
  {
    if c != ZERO {
      DegreeLe(c, n - 1);
    }
    var bytes := Rjust(c.coefficients, n);
    hide Make, Rjust, At;
    forall i: nat
      ensures At(bytes, i) == Coeff(c, i) && Coeff(Make(bytes), i) == Coeff(c, i)
    {
      RjustAt(c.coefficients, n, i);
      MakeAt(bytes, i);
    }
    Ext(Make(bytes), c);
  }

  lemma EncodePolyDegree(coder: RSCoder, message: seq<Elem>)
    requires coder.Valid() && |message| <= coder.k
    ensures DegLe(EncodePoly(coder, message), coder.n - 1)
  {
    hide EncodePoly, Generator, Coeff;
    var c := EncodePoly(coder, message);
    forall i: nat | i > coder.n - 1
      ensures Coeff(c, i) == F.ZERO
    {
      EncodePolyUpper(coder, message, i);
    }
  }

  // The first k bytes of a codeword are the message, padded to k bytes.
  lemma {:induction false} Systematic(coder: RSCoder, message: seq<Elem>, c: seq<Elem>)
    requires coder.Valid() && |message| <= coder.k && |c| == coder.n
    requires forall i: nat :: At(c, i) == Coeff(EncodePoly(coder, message), i)
    ensures c[..coder.k] == Rjust(message, coder.k)
  {
    var k, d := coder.k, coder.n - coder.k;
    hide EncodePoly, Generator, Coeff, Rjust, At;
    RjustLength(message, k);
    forall i: nat | i < k
      ensures At(c[..k], i) == At(Rjust(message, k), i)
    {
      AtPrefix(c, k, i);
      EncodePolyUpper(coder, message, i + d);
      RjustAt(message, k, i);
    }
    AtExt(c[..k], Rjust(message, k));
  }

  lemma RjustLength(c: seq<Elem>, n: nat)
    ensures |c| <= n ==> |Rjust(c, n)| == n
  {}

  lemma AtPrefix(c: seq<Elem>, k: nat, i: nat)
    requires k <= |c| && i < k
    ensures At(c[..k], i) == At(c, i + (|c| - k))
  {}

  // Exactly the messages of at most k bytes have a codeword: n bytes that start with the message
  // padded to k bytes, are a multiple of g, and verify.
  lemma {:induction false} EncodeShape(coder: RSCoder, message: seq<Elem>) returns (q: Poly)
    requires coder.Valid()
    ensures Encode(coder, message).Ok? <==> |message| <= coder.k
    ensures Encode(coder, message).Ok? ==>
              var c := Encode(coder, message).value;
              && |c| == coder.n
              && c[..coder.k] == Rjust(message, coder.k)
              && Make(c) == EncodePoly(coder, message)
              && Make(c) == Mul(q, coder.g)
              && Verify(coder, c)
  {
    hide EncodePoly, Mul, Generator, Make, Verify, DegLe, NoSyndrome, Coeff, Rjust, At;
    q := ZERO;
    if |message| <= coder.k {
      var p, c := EncodePoly(coder, message), Encode(coder, message).value;
      EncodePolyDegree(coder, message);
      BytesOf(p, coder.n);
      Systematic(coder, message, c);
      q := EncodePolyMultiple(coder, message);
      VerifyIffNoSyndrome(coder, c);
    }
  }
}
