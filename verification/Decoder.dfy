/**
 RSCoder.decode and its stages: _syndromes, _chien_search and _forney, each as a loop and as
 the function it computes.
 */
module Decoder {
  import F = GF256
  import opened Polynomials
  import opened PolynomialRing
  import opened PolynomialLoops
  import opened RSCode
  import BerlekampMassey

  // ----- syndromes

  // The syndrome polynomial: coefficient l is r(alpha^l) for 1 <= l <= d, coefficient 0 is 0.
  function Syndromes(r: Poly, d: nat): Poly {
    Make(seq(d + 1, i requires 0 <= i <= d => if i == d then F.ZERO else Eval(r, F.Pow(F.ALPHA, d - i))))
  }

  lemma {:induction false} SyndromesCoeff(r: Poly, d: nat, l: nat)
    ensures Coeff(Syndromes(r, d), l) == if 1 <= l <= d then Eval(r, F.Pow(F.ALPHA, l)) else F.ZERO
  {
    hide Make, Eval, F.Pow;
    MakeAt(seq(d + 1, i requires 0 <= i <= d => if i == d then F.ZERO else Eval(r, F.Pow(F.ALPHA, d - i))), l);
  }

  method ComputeSyndromes(r: Poly, d: nat) returns (sz: Poly)
    ensures sz == Syndromes(r, d)
  {
    hide Make, Eval, F.Pow;
    var s := [F.ZERO];
    for l := 1 to d + 1
      invariant |s| == l && s[0] == F.ZERO
      invariant forall i | 1 <= i < l :: s[i] == Eval(r, F.Pow(F.ALPHA, i))
    {
      var y := Evaluate(r, F.Pow(F.ALPHA, l));
      s := s + [y];
    }
    var reversed := seq(d + 1, i requires 0 <= i <= d => s[d - i]);
    assert reversed == seq(d + 1, i requires 0 <= i <= d => if i == d then F.ZERO else Eval(r, F.Pow(F.ALPHA, d - i)));
    sz := Construct(reversed);
  }

  // ----- root search

  // The positions 255 - i, for i from 1 to l, at which sigma has the root alpha^i.
  function RootPositions(sigma: Poly, l: nat): seq<int> {
    if l == 0 then []
    else RootPositions(sigma, l - 1) + (if Eval(sigma, F.Pow(F.ALPHA, l)) == F.ZERO then [255 - l] else [])
  }

  // Positions below 255 and not below lo, in decreasing order
  ghost predicate Descending(js: seq<int>, lo: int) {
    && (forall i | 0 <= i < |js| :: lo <= js[i] < 255)
    && (forall i, j | 0 <= i < j < |js| :: js[i] > js[j])
  }

  lemma {:induction false} RootPositionsRange(sigma: Poly, l: nat)
    requires l <= 255
    ensures Descending(RootPositions(sigma, l), 255 - l)
  {
    hide Eval, F.Pow;
    if l > 0 {
      RootPositionsRange(sigma, l - 1);
    }
  }

  // p is listed exactly when sigma has the root alpha^(255 - p).
  lemma {:induction false} RootPositionsComplete(sigma: Poly, l: nat, p: nat)
    requires l <= 255 && p < 255
    ensures p in RootPositions(sigma, l) <==> 255 - l <= p && Eval(sigma, F.Pow(F.ALPHA, 255 - p)) == F.ZERO
  {
    hide Eval, F.Pow;
    if l > 0 {
      RootPositionsComplete(sigma, l - 1, p);
    }
  }

  function PowersAt(js: seq<int>): seq<Elem> {
    seq(|js|, i requires 0 <= i < |js| => F.Pow(F.ALPHA, js[i]))
  }

  // _chien_search
  method ChienSearch(sigma: Poly) returns (X: seq<Elem>, j: seq<int>)
    ensures j == RootPositions(sigma, 255)
    ensures X == PowersAt(j)
  {
    hide Eval, F.Pow;
    X, j := [], [];
    var p := F.ALPHA;
    for l := 1 to 256
      invariant j == RootPositions(sigma, l - 1)
      invariant X == PowersAt(j)
    {
      var y := Evaluate(sigma, F.Pow(p, l));
      if y == F.ZERO {
        F.AlphaPowers(-l, 255 - l);
        X := X + [F.Pow(p, -l)];
        j := j + [255 - l];
      }
    }
  }

  // ----- Forney's formula

  ghost predicate Usable(X: seq<Elem>) {
    Distinct(X) && forall i | 0 <= i < |X| :: X[i] != F.ZERO
  }

  // The product of X_l - X_j over j < t other than l, a missing X_j being 0
  function DifferenceProduct(X: seq<Elem>, l: nat, t: nat): Elem
    requires l < |X|
  {
    if t == 0 then F.ONE
    else if t - 1 == l then DifferenceProduct(X, l, t - 1)
    else F.Mul(DifferenceProduct(X, l, t - 1), F.Add(X[l], F.Neg(if t - 1 < |X| then X[t - 1] else F.ZERO)))
  }

  lemma {:induction false} DifferenceProductNonzero(X: seq<Elem>, l: nat, t: nat)
    requires Usable(X) && l < |X|
    ensures DifferenceProduct(X, l, t) != F.ZERO
  {
    assert F.ONE != F.ZERO;
    if t > 0 {
      DifferenceProductNonzero(X, l, t - 1);
      hide F.Add, F.Mul;
      var y := if t - 1 < |X| then X[t - 1] else F.ZERO;
      F.AddIsZero(X[l], y);
      F.MulNonzero(DifferenceProduct(X, l, t - 1), F.Add(X[l], y));
    }
  }

  // The error magnitude at location X_l
  function Magnitude(omega: Poly, X: seq<Elem>, s: nat, l: nat): Elem
    requires Usable(X) && l < |X|
  {
    DifferenceProductNonzero(X, l, s);
    F.Mul(F.Mul(F.Mul(F.Pow(X[l], s), Eval(omega, F.Inverse(X[l]))), F.Inverse(X[l])),
          F.Inverse(DifferenceProduct(X, l, s)))
  }

  function Magnitudes(omega: Poly, X: seq<Elem>, s: nat): seq<Elem>
    requires Usable(X)
  {
    seq(|X|, l requires 0 <= l < |X| => Magnitude(omega, X, s, l))
  }

  // _forney, with s the error correcting power
  method Forney(omega: Poly, X: seq<Elem>, s: nat) returns (Y: seq<Elem>)
    requires Usable(X)
    ensures Y == Magnitudes(omega, X, s)
  {
    hide Eval, F.Pow, F.Mul, F.Add, F.Inverse;
    Y := [];
    for l := 0 to |X|
      invariant |Y| == l
      invariant forall i | 0 <= i < l :: Y[i] == Magnitude(omega, X, s, i)
    {
      var Xl := X[l];
      var Yl := F.Pow(Xl, s);
      var value := Evaluate(omega, F.Inverse(Xl));
      Yl := F.Mul(Yl, value);
      Yl := F.Mul(Yl, F.Inverse(Xl));
      var prod := F.ONE;
      for ji := 0 to s
        invariant prod == DifferenceProduct(X, l, ji)
      {
        if ji != l {
          var Xj := if ji < |X| then X[ji] else F.ZERO;
          prod := F.Mul(prod, F.Add(Xl, F.Neg(Xj)));
        }
      }
      DifferenceProductNonzero(X, l, s);
      Yl := F.Mul(Yl, F.Inverse(prod));
      Y := Y + [Yl];
    }
  }

  // ----- decode

  // list.index, for an entry that occurs
  function IndexOf(js: seq<int>, p: int): (i: nat)
    requires p in js
    ensures i < |js| && js[i] == p && p !in js[..i]
  {
    if js[0] == p then 0
    else
      assert p in js[1..];
      var i := 1 + IndexOf(js[1..], p);
      assert js[..i] == [js[0]] + js[1..][..i - 1];
      i
  }

  // The error value at position p: 0 where no error was located
  function ErrorAt(js: seq<int>, Y: seq<Elem>, p: int): Elem
    requires |js| == |Y|
  {
    if p in js then Y[IndexOf(js, p)] else F.ZERO
  }

  function ErrorPoly(js: seq<int>, Y: seq<Elem>): Poly
    requires |js| == |Y|
  {
    Make(seq(255, i requires 0 <= i < 255 => ErrorAt(js, Y, 254 - i)))
  }

  lemma RootsUsable(sigma: Poly)
    ensures Usable(PowersAt(RootPositions(sigma, 255)))
  {
    hide Eval, F.Pow, RootPositions;
    var js := RootPositions(sigma, 255);
    RootPositionsRange(sigma, 255);
    forall i | 0 <= i < |js|
      ensures F.Pow(F.ALPHA, js[i]) != F.ZERO
    {
      F.PowAdd(F.ALPHA, js[i], 0);
    }
    forall i, j | 0 <= i < j < |js|
      ensures PowersAt(js)[i] != PowersAt(js)[j]
    {
      F.AlphaPowers(js[i], js[j]);
      assert 0 <= js[j] < js[i] < 255;
    }
  }

  // The correction that decode subtracts from the received polynomial
  function Correction(coder: RSCoder, r: Poly): Poly
    requires coder.Valid()
  {
    var st := BerlekampMassey.Iterate(Syndromes(r, coder.n - coder.k), coder.n - coder.k);
    var js := RootPositions(st.sigma, 255);
    RootsUsable(st.sigma);
    ErrorPoly(js, Magnitudes(st.omega, PowersAt(js), (coder.n - coder.k) / 2))
  }

  // What decode returns; the received string may have any length.
  function Decoded(coder: RSCoder, r: seq<Elem>, nostrip: bool): seq<Elem>
    requires coder.Valid()
  {
    var d := coder.n - coder.k;
    if Verify(coder, r) then
      if nostrip then DropLast(r, d) else LStrip(DropLast(r, d))
    else
      var p := Make(r);
      var c := Sub(p, Correction(coder, p));
      var ret := DropLast(c.coefficients, d);
      if nostrip then Rjust(ret, coder.k) else ret
  }

  method Decode(coder: RSCoder, received: seq<Elem>, nostrip: bool) returns (message: seq<Elem>)
    requires coder.Valid()
    ensures message == Decoded(coder, received, nostrip)
  {
    hide Verify, Generator, Syndromes, BerlekampMassey.Iterate, RootPositions, Magnitudes, PowersAt, Usable, Make;
    hide Sub, Rjust, LStrip;
    var n, k := coder.n, coder.k;
    if Verify(coder, received) {
      if nostrip {
        return DropLast(received, n - k);
      } else {
        return LStrip(DropLast(received, n - k));
      }
    }
    var r := Construct(received);
    var sz := ComputeSyndromes(r, n - k);
    var sigma, omega := BerlekampMassey.Run(sz, n - k);
    var X, j := ChienSearch(sigma);
    RootsUsable(sigma);
    var Y := Forney(omega, X, (n - k) / 2);
    assert |Y| == |j| by { MagnitudesLength(omega, X, (n - k) / 2); PowersAtLength(j); }
    var Elist := [];
    for i := 0 to 255
      invariant |Elist| == i
      invariant forall p | 0 <= p < i :: Elist[p] == ErrorAt(j, Y, p)
    {
      if i in j {
        Elist := Elist + [Y[IndexOf(j, i)]];
      } else {
        Elist := Elist + [F.ZERO];
      }
    }
    var reversed := seq(255, i requires 0 <= i < 255 => Elist[254 - i]);
    assert reversed == seq(255, i requires 0 <= i < 255 => ErrorAt(j, Y, 254 - i));
    var E := Construct(reversed);
    var c := Sub(r, E);
    var ret := DropLast(c.coefficients, n - k);
    if nostrip {
      return Rjust(ret, k);
    } else {
      return ret;
    }
  }

  lemma MagnitudesLength(omega: Poly, X: seq<Elem>, s: nat)
    requires Usable(X)
    ensures |Magnitudes(omega, X, s)| == |X|
  {}

  lemma PowersAtLength(js: seq<int>)
    ensures |PowersAt(js)| == |js|
  {}
}
