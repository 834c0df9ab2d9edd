/** Exactly when the decoder corrects every word with few enough erasures and errors. */
module Completeness {
  import opened Bits
  import opened Galois
  import opened Polynomial
  import opened Code
  import opened Decoding
  import BerlekampMassey
  import Forney

  /** The first root's exponent times the code length is a multiple of the field order. */
  predicate Aligned(c: Params)
    requires c.field.Order() > 0
  {
    (c.first * c.length) % c.field.Order() == 0
  }

  /** The primitive root is the primitive element itself. */
  predicate PlainRoot(c: Params)
    requires c.field.Order() > 0
  {
    c.root % c.field.Order() == 1 % c.field.Order()
  }

  // ---------------------------------------------------------------- inverse locators

  lemma PowWrap(F: GF, a: nat, b: nat, r: nat)
    requires F.Primitive() && a + b == r * F.Order()
    ensures F.Mul(F.Pow(a), F.Pow(b)) == 1
  {
    hide GF.Mul, GF.Pow, GF.Order, GF.Primitive;
    F.MulPow(a, b);
    F.PowPeriod(0, r);
    PowZero(F);
  }

  lemma MulSum(r: nat, a: nat, b: nat, n: nat)
    requires a + b == n
    ensures r * a + r * b == r * n
  {
  }

  /** Powers of the primitive root whose exponents add up to the order are inverses. */
  lemma RootInverse(c: Params, a: nat, b: nat)
    requires c.field.Primitive() && a + b == c.field.Order()
    ensures c.field.Mul(c.RootPow(a), c.RootPow(b)) == 1 && c.field.InField(c.RootPow(b))
  {
    hide GF.Mul, GF.Pow, GF.Order, GF.Primitive;
    MulSum(c.root, a, b, c.field.Order());
    PowWrap(c.field, c.root * a, c.root * b, c.root);
    c.field.PowNonzero(c.root * b);
  }

  lemma TrialInverse(c: Params, i: nat)
    requires c.field.Primitive() && i <= c.field.Order()
    ensures c.field.Mul(c.field.Pow(c.root * i), TrialPoint(c, i)) == 1
    ensures c.field.InField(TrialPoint(c, i))
  {
    hide GF.Mul, GF.Pow, GF.Order, GF.Primitive;
    RootInverse(c, i, c.field.Order() - i);
  }

  lemma LocatorInverse(c: Params, p: nat)
    requires c.field.Primitive() && p < c.length <= c.field.Order()
    ensures c.field.Mul(c.Locator(p), InverseLocator(c, p)) == 1
    ensures c.field.InField(InverseLocator(c, p))
  {
    hide GF.Mul, GF.Pow, GF.Order, GF.Primitive;
    RootInverse(c, c.length - 1 - p, p + c.field.Order() + 1 - c.length);
  }

  // ---------------------------------------------------------------- the search

  /** A trial point is a root exactly when its inverse is a root read the other way. */
  lemma TrialRoot(c: Params, err: seq<nat>, i: nat)
    requires c.field.Primitive() && i <= c.field.Order() && err != [] && Word(c.field, err)
    ensures Eval(c.field, err, TrialPoint(c, i)) == 0 <==> EvalLow(c.field, err, c.field.Pow(c.root * i)) == 0
  {
    hide GF.Mul, GF.Pow, GF.Order, GF.Primitive, TrialPoint, Eval, EvalLow;
    var F, x, y := c.field, c.field.Pow(c.root * i), TrialPoint(c, i);
    TrialInverse(c, i);
    EvalReversed(F, err, x, y);
    F.PowNonzero(c.root * i);
    PowerNonzero(F, x, |err| - 1);
    PowerInField(F, x, |err| - 1);
    EvalInField(F, err, y);
    F.MulZero(Power(F, x, |err| - 1));
    if Eval(F, err, y) != 0 { F.MulNonzero(Power(F, x, |err| - 1), Eval(F, err, y)); }
  }

  lemma LocatorOf(c: Params, ps: seq<nat>, p: nat)
    requires c.Proper() && c.Positions(ps) && p < c.length
    ensures c.Locator(p) in c.Locators(ps) <==> p in ps
  {
    hide GF.Primitive, GF.Order, Params.Proper, Params.Locator;
    var xs := c.Locators(ps);
    if c.Locator(p) in xs {
      var i :| 0 <= i < |xs| && xs[i] == c.Locator(p);
      if ps[i] < p { LocatorsDiffer(c, ps[i], p); }
      if p < ps[i] { LocatorsDiffer(c, p, ps[i]); }
    }
    if p in ps {
      var i :| 0 <= i < |ps| && ps[i] == p;
      assert xs[i] == c.Locator(p);
    }
  }

  lemma TrialRootAt(c: Params, err: seq<nat>, p: nat)
    requires c.field.Primitive() && p < c.length <= c.field.Order() && err != [] && Word(c.field, err)
    ensures Eval(c.field, err, TrialPoint(c, c.length - 1 - p)) == 0 <==> EvalLow(c.field, err, c.Locator(p)) == 0
  {
    hide GF.Pow, GF.Order, GF.Primitive, TrialPoint, Eval, EvalLow;
    TrialRoot(c, err, c.length - 1 - p);
  }

  lemma {:induction false} RootsExact(c: Params, err: seq<nat>, ps: seq<nat>, m: nat)
    requires c.field.Primitive() && m <= c.length <= c.field.Order() && err != [] && Word(c.field, err)
    requires forall p: nat :: p < c.length ==> (EvalLow(c.field, err, c.Locator(p)) == 0 <==> p in ps)
    ensures forall p :: p in Roots(c, err, m) <==> c.length - m <= p < c.length && p in ps
  {
    hide GF.Primitive, GF.Order, Params.Locator, Eval, EvalLow, TrialPoint;
    if m > 0 {
      RootsExact(c, err, ps, m - 1);
      TrialRootAt(c, err, c.length - m);
    }
  }

  lemma SameElementsCount(a: seq<nat>, b: seq<nat>)
    requires Distinct(a) && Distinct(b) && forall x :: x in a <==> x in b
    ensures |a| == |b|
  {
    DistinctCount(a);
    DistinctCount(b);
    forall x ensures x in Elements(a) <==> x in Elements(b) {
      if x in Elements(a) || x in Elements(b) {
        var y: nat := x;
        ElementsIn(a, y);
        ElementsIn(b, y);
      }
    }
    assert Elements(a) == Elements(b);
  }

  /** With at least two syndromes per error, the search finds exactly the error positions. */
  lemma FindsErrors(c: Params, s: seq<nat>, ys: seq<nat>, ps: seq<nat>)
    requires c.Proper() && c.Positions(ps) && 2 * |ps| <= |s|
    requires BerlekampMassey.Pattern(c.field, s, ys, c.Locators(ps))
    ensures var r := FindErrors(c, s);
      r.Ok? && |r.value| == |ps| && Distinct(r.value) && forall p :: p in r.value <==> p in ps
  {
    ProperPrimitive(c);
    hide GF.Primitive, GF.Order, Params.Proper, Params.Locator, EvalLow, BerlekampMassey.Pattern, Roots, BerlekampMassey.Run;
    var F, err := c.field, BerlekampMassey.Run(c.field, s, |s|).err;
    forall p: nat | p < c.length ensures EvalLow(F, err, c.Locator(p)) == 0 <==> p in ps {
      LocatorInField(c, p);
      LocatorOf(c, ps, p);
      BerlekampMassey.Locates(F, s, ys, c.Locators(ps), c.Locator(p));
    }
    F.OrderPositive();
    BerlekampMassey.Locates(F, s, ys, c.Locators(ps), 1);
    BerlekampMassey.RunConsistent(F, s, |s|);
    RootsExact(c, err, ps, c.length);
    SameElementsCount(Roots(c, err, c.length), ps);
  }

  // ---------------------------------------------------------------- the locator polynomial

  lemma LinearFactor(F: GF, x: nat, y: nat)
    requires F.Primitive() && F.InField(x) && F.Mul(x, y) == 1
    ensures Eval(F, [x, 1], y) == 0
  {
    hide Xor, GF.Mul, GF.Primitive;
    F.MulZero(y);
    XorZero(x);
    XorSelf(1);
    assert [x][..0] == [] && Eval(F, [x], y) == x;
    assert [x, 1][..1] == [x];
  }

  lemma {:induction false} LocatorPolyShape(c: Params, ps: seq<nat>, m: nat)
    requires c.field.Primitive() && m <= |ps| && forall i :: 0 <= i < |ps| ==> ps[i] < c.length
    ensures Word(c.field, LocatorPoly(c, ps, m)) && LocatorPoly(c, ps, m)[m] == 1
  {
    c.field.OrderPositive();
    hide Xor, GF.Mul, GF.Primitive, GF.Order, Params.Locator;
    var F := c.field;
    if m > 0 {
      LocatorPolyShape(c, ps, m - 1);
      var q, a := LocatorPoly(c, ps, m - 1), [c.Locator(ps[m - 1]), 1];
      ProductInField(F, q, a);
      F.MulZero(a[0]);
      XorZero(0);
      F.MulOne(1);
      XorZero(1);
      assert Convolution(F, q, a, m, 0) == 0;
      assert Convolution(F, q, a, m, 1) == 0;
      assert Convolution(F, q, a, m, 2) == 1;
    }
  }

  lemma {:induction false} LocatorPolyRoot(c: Params, ps: seq<nat>, m: nat, i: nat)
    requires c.field.Primitive() && i < m <= |ps| && forall i :: 0 <= i < |ps| ==> ps[i] < c.length <= c.field.Order()
    ensures Eval(c.field, LocatorPoly(c, ps, m), InverseLocator(c, ps[i])) == 0
  {
    hide Xor, GF.Mul, GF.Primitive, GF.Order, Params.Locator, InverseLocator, Eval, Product;
    var F, y := c.field, InverseLocator(c, ps[i]);
    var q, x := LocatorPoly(c, ps, m - 1), c.Locator(ps[m - 1]);
    LocatorPolyShape(c, ps, m - 1);
    LocatorInField(c, ps[m - 1]);
    F.OrderPositive();
    EvalProduct(F, q, [x, 1], y);
    if i == m - 1 {
      LocatorInverse(c, ps[i]);
      LinearFactor(F, x, y);
      F.MulZero(Eval(F, q, y));
    } else {
      LocatorPolyRoot(c, ps, m - 1, i);
      F.MulZero(Eval(F, [x, 1], y));
    }
  }

  lemma LocatorPolyIsLocator(c: Params, ps: seq<nat>)
    requires c.Proper() && c.Positions(ps)
    ensures Forney.Locator(c.field, LocatorPoly(c, ps, |ps|), c.Locators(ps))
  {
    ProperPrimitive(c);
    hide Xor, GF.Mul, GF.Primitive, GF.Order, Params.Locator, InverseLocator, Eval, EvalLow, Params.Proper, LocatorPoly;
    var F, q, xs := c.field, LocatorPoly(c, ps, |ps|), c.Locators(ps);
    LocatorPolyShape(c, ps, |ps|);
    LocatorsDistinct(c, ps);
    forall i | 0 <= i < |ps| ensures EvalLow(F, q, xs[i]) == 0 {
      LocatorPolyRoot(c, ps, |ps|, i);
      LocatorInverse(c, ps[i]);
      EvalReversed(F, q, xs[i], InverseLocator(c, ps[i]));
      F.MulZero(Power(F, xs[i], |q| - 1));
    }
  }

  // ---------------------------------------------------------------- the corrections

  /** The factor by which every correction differs from the error. */
  ghost function Factor(c: Params): nat { c.field.Pow(c.root * c.first * c.length) }

  /** The numerator and the derivative the decoder computes from the positions. */
  ghost function Numerator(c: Params, w: seq<nat>, ps: seq<nat>): seq<nat>
    requires c.Positions(ps) && 0 < |ps| <= c.parity
  {
    Forney.Evaluator(c.field, LocatorPoly(c, ps, |ps|), c.Syndromes(w)[..|ps|])
  }

  ghost function Derivative(c: Params, ps: seq<nat>): seq<nat>
    requires c.Positions(ps)
  {
    Forney.OddTerms(LocatorPoly(c, ps, |ps|))
  }

  lemma Ratio(c: Params, w: seq<nat>, v: seq<nat>, ps: seq<nat>, i: nat)
    requires c.Proper() && c.Positions(ps) && AgreeOff(w, v, ps) && Word(c.field, w) && c.IsCodeword(v)
    requires i < |ps| <= c.parity
    ensures var p, y := ps[i], InverseLocator(c, ps[i]);
      var den := Denominator(c.field, Derivative(c, ps), y);
      && den != 0
      && Forney.Div(c.field, Eval(c.field, Numerator(c, w, ps), y), den) == c.Weight(Xor(w[p], v[p]), p)
  {
    ProperPrimitive(c);
    CodewordLength(c, v);
    hide Xor, GF.Mul, GF.Primitive, GF.Order, GF.Pow, Params.Proper, Params.Locator, Params.Weight, Params.Syndromes, InverseLocator, Eval,
      Forney.Div, Forney.Evaluator, Forney.OddTerms, LocatorPoly, PowerSum, Forney.Locator, Params.IsCodeword;
    var F, q := c.field, LocatorPoly(c, ps, |ps|);
    var s, ys, xs := c.Syndromes(w)[..|ps|], c.Weights(w, v, ps), c.Locators(ps);
    LocatorPolyIsLocator(c, ps);
    WeightsInField(c, w, v, ps);
    SyndromesArePowerSums(c, w, v, ps);
    LocatorInverse(c, ps[i]);
    Forney.ErrorWeight(F, q, s, ys, xs, i, InverseLocator(c, ps[i]));
  }

  lemma CorrectionValue(c: Params, w: seq<nat>, v: seq<nat>, ps: seq<nat>, i: nat)
    requires c.Proper() && c.Positions(ps) && AgreeOff(w, v, ps) && Word(c.field, w) && c.IsCodeword(v)
    requires i < |ps| <= c.parity
    ensures Denominator(c.field, Derivative(c, ps), InverseLocator(c, ps[i])) != 0
    ensures Correction(c, Numerator(c, w, ps), Derivative(c, ps), ps[i]) == c.field.Mul(Xor(w[ps[i]], v[ps[i]]), Factor(c))
  {
    ProperPrimitive(c);
    hide Xor, GF.Mul, GF.Primitive, GF.Order, GF.Pow, Params.Proper, Params.Weight, Numerator, Derivative, InverseLocator, Eval,
      Forney.Div, Denominator, Params.IsCodeword, Factor, CorrectionFactor;
    Ratio(c, w, v, ps, i);
    FactorTerm(c, Xor(w[ps[i]], v[ps[i]]), ps[i]);
  }

  lemma FactorTerm(c: Params, e: nat, p: nat)
    requires c.field.Primitive() && p < c.length
    ensures c.field.Mul(CorrectionFactor(c, p), c.Weight(e, p)) == c.field.Mul(e, Factor(c))
  {
    hide GF.Mul, GF.Primitive, GF.Pow;
    var k: nat := c.root * c.first;
    MulSum(k, p + 1, c.length - 1 - p, c.length);
    PowerTerm(c.field, e, k * (p + 1), k * (c.length - 1 - p), k * c.length);
  }

  lemma PowerTerm(F: GF, e: nat, i: nat, j: nat, n: nat)
    requires F.Primitive() && i + j == n
    ensures F.Mul(F.Pow(i), F.Mul(e, F.Pow(j))) == F.Mul(e, F.Pow(n))
  {
    hide GF.Mul, GF.Primitive, GF.Pow;
    MulExchange(F, F.Pow(i), e, F.Pow(j));
    F.MulPow(i, j);
  }

  /** What the correction leaves at position p. */
  ghost function Scaled(c: Params, w: seq<nat>, v: seq<nat>, p: nat): nat
    requires p < |w| == |v|
  {
    Xor(w[p], c.field.Mul(Xor(w[p], v[p]), Factor(c)))
  }

  lemma {:induction false} CorrectedAt(c: Params, w: seq<nat>, num: seq<nat>, d: seq<nat>, ps: seq<nat>, m: nat)
    requires |w| == c.length <= c.field.Order() && c.Positions(ps) && m <= |ps|
    requires forall i :: 0 <= i < |ps| ==> Denominator(c.field, d, InverseLocator(c, ps[i])) != 0
    ensures var r := Corrected(c, w, num, d, ps, m);
      && r.Ok?
      && (forall i :: 0 <= i < |w| && i !in ps[..m] ==> r.value[i] == w[i])
      && (forall i :: 0 <= i < m ==> r.value[ps[i]] == Xor(w[ps[i]], Correction(c, num, d, ps[i])))
  {
    hide Xor, GF.Order, InverseLocator, Correction, Denominator;
    if m > 0 {
      CorrectedAt(c, w, num, d, ps, m - 1);
      assert ps[..m] == ps[..m - 1] + [ps[m - 1]];
      assert ps[m - 1] !in ps[..m - 1];
    }
  }

  lemma CorrectedValue(c: Params, w: seq<nat>, v: seq<nat>, ps: seq<nat>)
    requires c.Proper() && c.Positions(ps) && AgreeOff(w, v, ps) && Word(c.field, w) && c.IsCodeword(v)
    requires 0 < |ps| <= c.parity
    ensures var r := Corrected(c, w, Numerator(c, w, ps), Derivative(c, ps), ps, |ps|);
      && r.Ok?
      && (forall i :: 0 <= i < |w| && i !in ps ==> r.value[i] == w[i])
      && (forall i :: 0 <= i < |ps| ==> r.value[ps[i]] == Scaled(c, w, v, ps[i]))
  {
    ProperPrimitive(c);
    CodewordLength(c, v);
    hide Xor, GF.Mul, GF.Primitive, GF.Order, GF.Pow, Params.Proper, InverseLocator, Factor,
      Numerator, Derivative, Params.IsCodeword, Correction, Denominator, Corrected;
    forall i | 0 <= i < |ps|
      ensures Denominator(c.field, Derivative(c, ps), InverseLocator(c, ps[i])) != 0
      ensures Xor(w[ps[i]], Correction(c, Numerator(c, w, ps), Derivative(c, ps), ps[i])) == Scaled(c, w, v, ps[i])
    {
      CorrectionValue(c, w, v, ps, i);
    }
    CorrectedAt(c, w, Numerator(c, w, ps), Derivative(c, ps), ps, |ps|);
    assert ps[..|ps|] == ps;
  }

  /** Correcting the given positions leaves w plus Factor times the error at each of them. */
  lemma CorrectErrataValue(c: Params, w: seq<nat>, v: seq<nat>, ps: seq<nat>)
    requires c.Proper() && c.Positions(ps) && AgreeOff(w, v, ps) && Word(c.field, w) && c.IsCodeword(v)
    requires 0 < |ps| <= c.parity
    ensures var r := CorrectErrata(c, w, c.Syndromes(w), ps);
      r.Ok? && forall i :: 0 <= i < |w| ==> r.value[i] == Scaled(c, w, v, i)
  {
    ProperPrimitive(c);
    CodewordLength(c, v);
    hide Xor, GF.Mul, GF.Primitive, GF.Order, GF.Pow, Params.Proper, Params.Syndromes, Factor,
      Forney.Evaluator, Forney.OddTerms, LocatorPoly, Params.IsCodeword, Corrected, Scaled;
    CorrectedValue(c, w, v, ps);
    var r := CorrectErrata(c, w, c.Syndromes(w), ps).value;
    forall i | 0 <= i < |w| ensures r[i] == Scaled(c, w, v, i) {
      if i in ps {
        var k :| 0 <= k < |ps| && ps[k] == i;
      } else {
        ScaledSame(c, w, v, i);
      }
    }
  }

  lemma ScaledSame(c: Params, w: seq<nat>, v: seq<nat>, p: nat)
    requires p < |w| == |v| && w[p] == v[p]
    ensures Scaled(c, w, v, p) == w[p]
  {
    hide Xor, GF.Mul, Factor;
    XorSelf(w[p]);
    c.field.MulZero(Factor(c));
    XorZero(w[p]);
  }

  /** The correction reaches v[p] exactly when there is no error there or the factor is one. */
  lemma ScaledIsRight(c: Params, w: seq<nat>, v: seq<nat>, p: nat)
    requires c.field.Primitive() && p < |w| == |v| && Word(c.field, w) && Word(c.field, v)
    ensures Scaled(c, w, v, p) == v[p] <==> w[p] == v[p] || Factor(c) == 1
  {
    hide Xor, GF.Mul, Factor, GF.Primitive;
    var F, e, g := c.field, Xor(w[p], v[p]), Factor(c);
    ScaledSame'(c, w, v, p);
    XorBelow(w[p], v[p], F.bits);
    XorIsZero(w[p], v[p]);
    XorCancel(w[p], v[p]);
    XorCancel(w[p], F.Mul(e, g));
    F.MulOne(e);
    F.OrderPositive();
    FactorInField(c);
    if w[p] != v[p] && Scaled(c, w, v, p) == v[p] {
      Forney.MulCancel(F, e, g, 1);
    }
  }

  lemma ScaledSame'(c: Params, w: seq<nat>, v: seq<nat>, p: nat)
    requires p < |w| == |v|
    ensures w[p] == v[p] ==> Scaled(c, w, v, p) == v[p]
  {
    hide Xor, GF.Mul, Factor;
    if w[p] == v[p] { ScaledSame(c, w, v, p); }
  }

  lemma FactorInField(c: Params)
    requires c.field.Primitive()
    ensures c.field.InField(Factor(c))
  {
    hide GF.Pow, GF.Primitive;
    c.field.PowNonzero(c.root * c.first * c.length);
  }

  lemma RootMultiple(c: Params, k: nat)
    requires c.Proper()
    ensures c.field.Pow(c.root * k) == 1 <==> k % c.field.Order() == 0
  {
    ProperPrimitive(c);
    hide GF.Pow, GF.Primitive, GF.Order;
    var n := c.field.Order();
    DivMod(k, n);
    var t, q := k % n, k / n;
    if t != 0 { assert c.RootExponent(t) != 0; }
    hide Params.Proper;
    RootReduced(c, k, t, q);
    RootOne(c, t);
  }

  lemma RootReduced(c: Params, k: nat, t: nat, q: nat)
    requires c.field.Primitive() && k == t + q * c.field.Order()
    ensures c.field.Pow(c.root * k) == c.field.Pow(c.root * t)
  {
    hide GF.Pow, GF.Primitive, GF.Order;
    Distribute(c.root, t, q, c.field.Order());
    c.field.PowPeriod(c.root * t, c.root * q);
  }

  lemma RootOne(c: Params, t: nat)
    requires c.field.Primitive() && c.field.Order() > 0 && (t != 0 ==> c.RootExponent(t) != 0)
    ensures c.field.Pow(c.root * t) == 1 <==> t == 0
  {
    hide GF.Pow, GF.Primitive, GF.Order;
    PowZero(c.field);
    if t != 0 {
      c.field.PowMod(c.root * t);
      c.field.PowInjective(0, c.RootExponent(t));
    }
  }

  lemma Distribute(r: nat, t: nat, q: nat, n: nat)
    ensures r * (t + q * n) == r * t + (r * q) * n
  {
  }

  lemma FactorIsOne(c: Params)
    requires c.Proper()
    ensures Factor(c) == 1 <==> Aligned(c)
  {
    hide GF.Pow, GF.Primitive, GF.Order;
    RootMultiple(c, c.first * c.length);
    assert c.root * c.first * c.length == c.root * (c.first * c.length);
  }

  // ---------------------------------------------------------------- erasures

  /** With primitive root index one the decoder's power for a position is its locator. */
  lemma PlainLocator(c: Params, p: nat)
    requires c.field.Primitive() && p < c.length && c.field.Order() > 0
    requires PlainRoot(c)
    ensures c.field.Pow(c.length - 1 - p) == c.Locator(p)
  {
    hide GF.Pow, GF.Primitive, GF.Order;
    var F, n, k := c.field, c.field.Order(), c.length - 1 - p;
    if n == 1 {
      F.PowMod(k);
      F.PowMod(c.root * k);
    } else {
      var q := c.root / n;
      DivMod(c.root, n);
      assert c.root == 1 + q * n;
      assert c.root * k == k + (q * k) * n;
      F.PowPeriod(k, q * k);
    }
  }

  /** The decoder's powers for the positions are their locators. */
  ghost predicate Plain(c: Params, ps: seq<nat>) {
    forall p :: p in ps && p < c.length ==> c.field.Pow(c.length - 1 - p) == c.Locator(p)
  }

  /** The erasures leave the errors to be found: the right locators are removed, or no syndrome is left. */
  ghost predicate Removable(c: Params, erased: seq<nat>) {
    Plain(c, erased) || |erased| == c.parity
  }

  lemma PlainRootRemoves(c: Params, ps: seq<nat>)
    requires c.field.Primitive() && c.field.Order() > 0 && (ps == [] || PlainRoot(c))
    ensures Removable(c, ps)
  {
    hide GF.Pow, GF.Primitive, GF.Order, PlainRoot, Params.Locator;
    forall p | p in ps && p < c.length ensures c.field.Pow(c.length - 1 - p) == c.Locator(p) { PlainLocator(c, p); }
  }

  lemma PlainAt(c: Params, er: seq<nat>, i: nat)
    requires Plain(c, er) && c.Positions(er) && i < |er|
    ensures c.field.Pow(c.length - 1 - er[i]) == c.Locator(er[i])
  {
  }

  /** The weights after eliminating the first m locators. */
  ghost function EliminatedAll(F: GF, ys: seq<nat>, xs: seq<nat>, m: nat): (zs: seq<nat>)
    requires |ys| == |xs| && m <= |xs|
    ensures |zs| == |ys|
  {
    if m == 0 then ys else Eliminated(F, EliminatedAll(F, ys, xs, m - 1), xs, xs[m - 1])
  }

  /** Elimination clears the first m weights and keeps the others nonzero. */
  lemma {:induction false} EliminatedAllAt(F: GF, ys: seq<nat>, xs: seq<nat>, m: nat, i: nat)
    requires F.Primitive() && |ys| == |xs| && m <= |xs| && i < |xs|
    requires Word(F, ys) && Word(F, xs) && Distinct(xs)
    ensures var z := EliminatedAll(F, ys, xs, m)[i];
      F.InField(z) && (z == 0 <==> i < m || ys[i] == 0)
  {
    hide Xor, GF.Mul, GF.Primitive;
    if m > 0 {
      EliminatedAllAt(F, ys, xs, m - 1, i);
      var z, d := EliminatedAll(F, ys, xs, m - 1)[i], Xor(xs[i], xs[m - 1]);
      F.MulInField(z, d);
      XorIsZero(xs[i], xs[m - 1]);
      XorBelow(xs[i], xs[m - 1], F.bits);
      F.MulZero(d);
      F.MulZero(z);
      if z != 0 && d != 0 { F.MulNonzero(z, d); }
    }
  }

  lemma {:induction false} ForneyPowerSums(c: Params, s: seq<nat>, ys: seq<nat>, xs: seq<nat>, er: seq<nat>, m: nat)
    requires c.field.Primitive() && c.field.Order() > 0 && c.Positions(er)
    requires m <= |er| <= |xs| == |ys| && m <= |s|
    requires forall i :: 0 <= i < |er| ==> xs[i] == c.Locator(er[i])
    requires Plain(c, er)
    requires IsPowerSums(c.field, s, ys, xs, 0)
    ensures IsPowerSums(c.field, ForneySyndromes(c, s, er, m), EliminatedAll(c.field, ys, xs, m), xs, 0)
  {
    hide Xor, GF.Mul, GF.Primitive, GF.Order, GF.Pow, PowerSum, Eliminated, Params.Locator, Plain, Distinct;
    if m > 0 {
      ForneyPowerSums(c, s, ys, xs, er, m - 1);
      var F := c.field;
      var t, zs := ForneySyndromes(c, s, er, m - 1), EliminatedAll(F, ys, xs, m - 1);
      PlainAt(c, er, m - 1);
      hide ForneyStep, IsPowerSums;
      StepPowerSums(F, t, zs, xs, xs[m - 1]);
    }
  }

  /** Removing a locator from syndromes eliminates it from their power sums. */
  lemma StepPowerSums(F: GF, t: seq<nat>, zs: seq<nat>, xs: seq<nat>, x: nat)
    requires F.Primitive() && t != [] && |zs| == |xs| && IsPowerSums(F, t, zs, xs, 0)
    ensures IsPowerSums(F, ForneyStep(F, t, x), Eliminated(F, zs, xs, x), xs, 0)
  {
    hide Xor, GF.Mul, GF.Primitive, PowerSum, Eliminated;
    forall j | 0 <= j < |t| - 1 ensures ForneyStep(F, t, x)[j] == PowerSum(F, Eliminated(F, zs, xs, x), xs, 0 + j) {
      EliminateStep(F, zs, xs, x, j);
      assert t[j] == PowerSum(F, zs, xs, 0 + j);
      assert t[j + 1] == PowerSum(F, zs, xs, 0 + (j + 1));
      F.MulComm(t[j], x);
      XorComm(F.Mul(x, t[j]), t[j + 1]);
    }
  }

  /** Leading zero weights do not contribute. */
  lemma {:induction false} PowerSumDrop(F: GF, ys: seq<nat>, xs: seq<nat>, m: nat, n: nat)
    requires |ys| == |xs| && m <= |ys| && AllZero(ys[..m])
    ensures PowerSum(F, ys, xs, n) == PowerSum(F, ys[m..], xs[m..], n)
  {
    hide Xor, GF.Mul, Power;
    if |ys| == m {
      assert ys[..m] == ys;
      PowerSumZero(F, ys, xs, n);
    } else {
      var w := |ys| - 1;
      assert ys[..w][..m] == ys[..m];
      PowerSumDrop(F, ys[..w], xs[..w], m, n);
      assert ys[..w][m..] == ys[m..][..w - m] && xs[..w][m..] == xs[m..][..w - m];
    }
  }

  lemma TailLocators(c: Params, er: seq<nat>, wrong: seq<nat>)
    requires c.Positions(er + wrong) && c.Positions(wrong)
    ensures c.Locators(wrong) == c.Locators(er + wrong)[|er|..]
  {
    hide GF.Pow, Params.Locator;
    forall i | 0 <= i < |wrong| ensures c.Locators(wrong)[i] == c.Locators(er + wrong)[|er|..][i] {
      assert wrong[i] == (er + wrong)[|er| + i];
    }
  }

  /** Dropping locators of weight zero keeps the power sums. */
  lemma DropZeroWeights(F: GF, t: seq<nat>, zs: seq<nat>, xs: seq<nat>, e: nat)
    requires |zs| == |xs| && e <= |zs| && AllZero(zs[..e])
    requires IsPowerSums(F, t, zs, xs, 0)
    ensures IsPowerSums(F, t, zs[e..], xs[e..], 0)
  {
    hide Xor, GF.Mul, PowerSum;
    forall j | 0 <= j < |t| ensures t[j] == PowerSum(F, zs[e..], xs[e..], 0 + j) {
      PowerSumDrop(F, zs, xs, e, j);
      assert t[j] == PowerSum(F, zs, xs, 0 + j);
    }
  }

  lemma EliminatedWeights(F: GF, ys: seq<nat>, xs: seq<nat>, e: nat, zs: seq<nat>)
    requires F.Primitive() && |ys| == |xs| && e <= |xs| && zs == EliminatedAll(F, ys, xs, e)
    requires Word(F, ys) && Word(F, xs) && Distinct(xs)
    requires forall i :: e <= i < |ys| ==> ys[i] != 0
    ensures AllZero(zs[..e]) && Word(F, zs[e..]) && forall i :: 0 <= i < |zs[e..]| ==> zs[e..][i] != 0
  {
    hide Xor, GF.Mul, GF.Primitive, EliminatedAll;
    forall i | 0 <= i < |zs| ensures F.InField(zs[i]) && (zs[i] == 0 <==> i < e) { EliminatedAllAt(F, ys, xs, e, i); }
  }

  /** After removing the erasures the syndromes are the pattern of the errors alone. */
  lemma ForneyPattern(c: Params, s: seq<nat>, ys: seq<nat>, er: seq<nat>, wrong: seq<nat>, fs: seq<nat>) returns (zs: seq<nat>)
    requires c.Proper() && c.Positions(er) && c.Positions(wrong) && c.Positions(er + wrong)
    requires |er| <= |s| && fs == ForneySyndromes(c, s, er, |er|)
    requires |ys| == |er| + |wrong| && Word(c.field, ys) && forall i :: |er| <= i < |ys| ==> ys[i] != 0
    requires Plain(c, er)
    requires IsPowerSums(c.field, s, ys, c.Locators(er + wrong), 0)
    ensures BerlekampMassey.Pattern(c.field, fs, zs, c.Locators(wrong))
  {
    ProperPrimitive(c);
    LocatorsDistinct(c, wrong);
    LocatorsDistinct(c, er + wrong);
    TailLocators(c, er, wrong);
    hide GF.Primitive, GF.Order, GF.Pow, Params.Locator, Params.Proper, ForneySyndromes, IsPowerSums, Distinct, Plain;
    var xs := c.Locators(er + wrong);
    forall i | 0 <= i < |er| ensures xs[i] == c.Locator(er[i]) { assert (er + wrong)[i] == er[i]; }
    zs := ErrorPattern(c, s, ys, er, fs, xs, c.Locators(wrong));
  }

  lemma ErrorPattern(c: Params, s: seq<nat>, ys: seq<nat>, er: seq<nat>, fs: seq<nat>, xs: seq<nat>, tail: seq<nat>)
      returns (zs: seq<nat>)
    requires c.field.Primitive() && c.field.Order() > 0
    requires c.Positions(er) && |er| <= |xs| && forall i :: 0 <= i < |er| ==> xs[i] == c.Locator(er[i])
    requires |er| <= |s| && fs == ForneySyndromes(c, s, er, |er|)
    requires |ys| == |xs| && Word(c.field, ys) && forall i :: |er| <= i < |ys| ==> ys[i] != 0
    requires Word(c.field, xs) && Distinct(xs) && Word(c.field, tail) && Distinct(tail) && tail == xs[|er|..]
    requires Plain(c, er)
    requires IsPowerSums(c.field, s, ys, xs, 0)
    ensures BerlekampMassey.Pattern(c.field, fs, zs, tail)
  {
    hide Xor, GF.Mul, GF.Primitive, GF.Order, Params.Positions, Params.Locator, ForneySyndromes, IsPowerSums, EliminatedAll, Distinct, Plain;
    var all := EliminatedAll(c.field, ys, xs, |er|);
    ForneyPowerSums(c, s, ys, xs, er, |er|);
    EliminatedWeights(c.field, ys, xs, |er|, all);
    DropZeroWeights(c.field, fs, all, xs, |er|);
    zs := all[|er|..];
  }

  /** The pattern of the errors in the syndromes that the erasures leave. */
  lemma ErrorsLeft(c: Params, s: seq<nat>, ys: seq<nat>, er: seq<nat>, wrong: seq<nat>, fs: seq<nat>) returns (zs: seq<nat>)
    requires c.Proper() && c.Positions(er) && c.Positions(wrong) && c.Positions(er + wrong)
    requires |s| == c.parity && |er| + 2 * |wrong| <= |s| && fs == ForneySyndromes(c, s, er, |er|)
    requires |ys| == |er| + |wrong| && Word(c.field, ys) && forall i :: |er| <= i < |ys| ==> ys[i] != 0
    requires Removable(c, er)
    requires IsPowerSums(c.field, s, ys, c.Locators(er + wrong), 0)
    ensures BerlekampMassey.Pattern(c.field, fs, zs, c.Locators(wrong)) && 2 * |wrong| <= |fs|
  {
    hide GF.Primitive, GF.Order, GF.Pow, Params.Locator, Params.Proper, ForneySyndromes, IsPowerSums, Distinct, Plain, BerlekampMassey.Pattern;
    if Plain(c, er) {
      zs := ForneyPattern(c, s, ys, er, wrong, fs);
    } else {
      zs := [];
      NothingLeft(c, fs, wrong);
    }
  }

  lemma NothingLeft(c: Params, fs: seq<nat>, wrong: seq<nat>)
    requires fs == [] == wrong
    ensures BerlekampMassey.Pattern(c.field, fs, [], c.Locators(wrong))
  {
  }

  // ---------------------------------------------------------------- one word

  /** Erased and wrong positions as lists, and the word with zeros at the erased positions. */
  lemma ErrorPositions(c: Params, w: seq<nat>, v: seq<nat>) returns (er: seq<nat>, msg: seq<nat>, wrong: seq<nat>)
    requires |w| == |v| == c.length && Word(c.field, v)
    ensures er == Erasures(c, w, |w|) && msg == Zeroed(c, w)
    ensures |wrong| == |Wrong(c, w, v)| && forall p :: p in wrong <==> p in Wrong(c, w, v)
    ensures c.Positions(er) && c.Positions(wrong) && c.Positions(er + wrong) && AgreeOff(msg, v, er + wrong)
    ensures forall i :: 0 <= i < |wrong| ==> wrong[i] < |w| && msg[wrong[i]] != v[wrong[i]]
  {
    er, msg := Erasures(c, w, |w|), Zeroed(c, w);
    wrong := ListOf(Wrong(c, w, v));
    hide Erasures, GF.InField;
    forall i | 0 <= i < |wrong| ensures wrong[i] < c.length && c.field.InField(w[wrong[i]]) && w[wrong[i]] != v[wrong[i]] {
      assert wrong[i] in wrong;
    }
    var ps := er + wrong;
    forall i, j | 0 <= i < j < |ps| ensures ps[i] != ps[j] {
      if i < |er| <= j { assert er[i] in er; }
    }
    forall i | 0 <= i < |w| && msg[i] != v[i] ensures i in ps {
      if i !in er { assert i in Wrong(c, w, v); assert i in wrong; }
    }
  }

  /** Correcting at the erased and the wrong positions, in any order of the wrong ones. */
  lemma RepairAtValue(c: Params, w: seq<nat>, v: seq<nat>, ps: seq<nat>)
    requires c.Proper() && c.Positions(ps) && AgreeOff(w, v, ps) && Word(c.field, w) && c.IsCodeword(v)
    requires 0 < |ps| <= c.parity && w != v
    ensures RepairAt(c, w, c.Syndromes(w), ps)
         == if Aligned(c) then Ok(Repaired(v, |ps|)) else LogicError
  {
    ProperPrimitive(c);
    CodewordLength(c, v);
    FactorIsOne(c);
    hide Xor, GF.Mul, GF.Primitive, GF.Order, GF.Pow, Params.Proper, Params.Syndromes, Factor, CorrectErrata, Scaled, Aligned;
    CorrectErrataValue(c, w, v, ps);
    var r := CorrectErrata(c, w, c.Syndromes(w), ps).value;
    forall i | 0 <= i < |w| ensures r[i] == v[i] <==> w[i] == v[i] || Factor(c) == 1 { ScaledIsRight(c, w, v, i); }
    if Factor(c) == 1 {
      assert r == v;
    } else {
      var i :| 0 <= i < |w| && w[i] != v[i];
      assert r[i] != v[i];
      ScaledWord(c, w, v, r);
      if AllZero(c.Syndromes(r)) {
        Distance(c, r, v, ps);
        assert false;
      }
    }
  }

  lemma ScaledWord(c: Params, w: seq<nat>, v: seq<nat>, r: seq<nat>)
    requires c.field.Primitive() && |r| == |w| == |v| && Word(c.field, w)
    requires forall i :: 0 <= i < |w| ==> r[i] == Scaled(c, w, v, i)
    ensures Word(c.field, r)
  {
    hide Xor, GF.Mul, GF.Primitive, Factor;
    forall i | 0 <= i < |r| ensures c.field.InField(r[i]) {
      c.field.MulInField(Xor(w[i], v[i]), Factor(c));
      XorBelow(w[i], c.field.Mul(Xor(w[i], v[i]), Factor(c)), c.field.bits);
    }
  }

  /** The weights of the erased and the wrong positions in the syndromes. */
  lemma WordWeights(c: Params, w: seq<nat>, v: seq<nat>, er: seq<nat>, wrong: seq<nat>, s: seq<nat>) returns (ys: seq<nat>)
    requires c.Proper() && c.Positions(er + wrong) && s == c.Syndromes(w)
    requires AgreeOff(w, v, er + wrong) && Word(c.field, w) && c.IsCodeword(v)
    requires forall i :: 0 <= i < |wrong| ==> wrong[i] < |w| && w[wrong[i]] != v[wrong[i]]
    ensures |ys| == |er| + |wrong| && Word(c.field, ys)
    ensures forall i :: |er| <= i < |ys| ==> ys[i] != 0
    ensures IsPowerSums(c.field, s, ys, c.Locators(er + wrong), 0)
  {
    CodewordLength(c, v);
    var ps := er + wrong;
    SyndromesArePowerSums(c, w, v, ps);
    WeightsInField(c, w, v, ps);
    hide Params.Weights, Params.Locators, Params.Proper, Params.Syndromes, IsPowerSums, Distinct;
    ys := c.Weights(w, v, ps);
    forall i | |er| <= i < |ys| ensures ys[i] != 0 { assert ps[i] == wrong[i - |er|]; }
  }

  lemma RepairValue(c: Params, w: seq<nat>, v: seq<nat>, er: seq<nat>, wrong: seq<nat>, s: seq<nat>)
    requires c.Proper() && c.Positions(er) && c.Positions(wrong) && c.Positions(er + wrong)
    requires AgreeOff(w, v, er + wrong) && Word(c.field, w) && c.IsCodeword(v) && w != v && |w| == c.length
    requires |er| + 2 * |wrong| <= c.parity && s == c.Syndromes(w)
    requires forall i :: 0 <= i < |wrong| ==> wrong[i] < |w| && w[wrong[i]] != v[wrong[i]]
    requires Removable(c, er)
    ensures Repair(c, w, s, er)
         == if Aligned(c) then Ok(Repaired(v, |er| + |wrong|)) else LogicError
  {
    ProperPrimitive(c);
    var ys := WordWeights(c, w, v, er, wrong, s);
    hide *;
    var fs := ForneySyndromes(c, s, er, |er|);
    var zs := ErrorsLeft(c, s, ys, er, wrong, fs);
    FindsErrors(c, fs, zs, wrong);
    var found := FindErrors(c, fs).value;
    RepairFound(c, w, v, er, wrong, found);
    RepairUnfold(c, w, s, er, fs, found);
  }

  lemma RepairFound(c: Params, w: seq<nat>, v: seq<nat>, er: seq<nat>, wrong: seq<nat>, found: seq<nat>)
    requires c.Proper() && c.Positions(er + wrong) && AgreeOff(w, v, er + wrong)
    requires Word(c.field, w) && c.IsCodeword(v) && w != v
    requires |er| + |wrong| <= c.parity && |found| == |wrong| && Distinct(found)
    requires forall p :: p in found <==> p in wrong
    ensures c.Positions(er + found) && c.length <= c.field.Order() && |w| == c.length
    ensures RepairAt(c, w, c.Syndromes(w), er + found)
         == if Aligned(c) then Ok(Repaired(v, |er| + |wrong|)) else LogicError
  {
    ProperPrimitive(c);
    CodewordLength(c, v);
    SamePositions(c, w, v, er, wrong, found);
    NotEmpty(w, v, er + found);
    hide *;
    RepairAtValue(c, w, v, er + found);
  }

  lemma RepairUnfold(c: Params, w: seq<nat>, s: seq<nat>, er: seq<nat>, fs: seq<nat>, found: seq<nat>)
    requires |w| == c.length <= c.field.Order() && |er| <= |s| && c.Positions(er) && fs == ForneySyndromes(c, s, er, |er|)
    requires FindErrors(c, fs).Ok? && FindErrors(c, fs).value == found
    ensures Repair(c, w, s, er) == RepairAt(c, w, s, er + found)
  {
    hide FindErrors, ForneySyndromes, RepairAt, GF.Order;
  }

  lemma NotEmpty(w: seq<nat>, v: seq<nat>, ps: seq<nat>)
    requires AgreeOff(w, v, ps) && w != v
    ensures ps != []
  {
    var i :| 0 <= i < |w| && w[i] != v[i];
  }

  lemma DecodesAt(c: Params, w: seq<nat>, v: seq<nat>, er: seq<nat>, msg: seq<nat>, wrong: seq<nat>)
    requires c.Proper() && |w| == c.length && c.IsCodeword(v)
    requires er == Erasures(c, w, |w|) && msg == Zeroed(c, w) && |er| + 2 * |wrong| <= c.parity
    requires c.Positions(er) && c.Positions(wrong) && c.Positions(er + wrong) && AgreeOff(msg, v, er + wrong)
    requires forall i :: 0 <= i < |wrong| ==> wrong[i] < |w| && msg[wrong[i]] != v[wrong[i]]
    requires msg == v || Removable(c, er)
    ensures CorrectOneWord(c, w)
         == if msg == v then Ok(Repaired(v, 0)) else if Aligned(c) then Ok(Repaired(v, |er| + |wrong|)) else LogicError
  {
    ProperPrimitive(c);
    CodewordLength(c, v);
    if AllZero(c.Syndromes(msg)) {
      Distance(c, msg, v, er + wrong);
    } else {
      RepairValue(c, msg, v, er, wrong, c.Syndromes(msg));
    }
    hide GF.Primitive, GF.Order, Params.Proper, Params.Syndromes, Repair, Erasures, Zeroed, Removable, Aligned, Distinct,
      Params.IsCodeword, AgreeOff, Params.Positions;
  }

  /** Decoding a word with few enough errors, unless erasures with a wrong locator leave syndromes to search:
      it returns the codeword exactly when the word was right already or the exponent of the first root
      times the code length is a multiple of the field order, and otherwise always reports failure. */
  lemma Decodes(c: Params, w: seq<nat>, v: seq<nat>)
    requires c.Proper() && Correctable(c, w, v)
    requires Zeroed(c, w) == v || Removable(c, Erasures(c, w, |w|))
    ensures CorrectOneWord(c, w)
         == if Zeroed(c, w) == v then Ok(Repaired(v, 0))
            else if Aligned(c) then Ok(Repaired(v, |Erasures(c, w, |w|)| + |Wrong(c, w, v)|))
            else LogicError
  {
    hide *;
    CorrectableIs(c, w, v);
    CodewordLength(c, v);
    var er, msg, wrong := ErrorPositions(c, w, v);
    DecodesAt(c, w, v, er, msg, wrong);
  }

  lemma CorrectableIs(c: Params, w: seq<nat>, v: seq<nat>)
    requires Correctable(c, w, v)
    ensures |w| == c.length && c.IsCodeword(v) && |v| == c.length
    ensures |Erasures(c, w, |w|)| + 2 * |Wrong(c, w, v)| <= c.parity
  {
    hide Erasures, Wrong, Params.Syndromes;
  }

  lemma SamePositions(c: Params, w: seq<nat>, v: seq<nat>, er: seq<nat>, wrong: seq<nat>, found: seq<nat>)
    requires c.Positions(er + wrong) && AgreeOff(w, v, er + wrong) && Distinct(found)
    requires forall p :: p in found <==> p in wrong
    ensures c.Positions(er + found) && AgreeOff(w, v, er + found)
  {
    var ps := er + found;
    forall i | 0 <= i < |ps| ensures ps[i] < c.length {
      if i < |er| { assert (er + wrong)[i] == ps[i]; } else { InTail(er, wrong, c, ps[i]); }
    }
    forall i, j | 0 <= i < j < |ps| ensures ps[i] != ps[j] {
      if j < |er| {
        assert (er + wrong)[i] == ps[i] && (er + wrong)[j] == ps[j];
      } else if i < |er| {
        assert ps[j] in wrong;
        var k :| 0 <= k < |wrong| && wrong[k] == ps[j];
        assert (er + wrong)[i] != (er + wrong)[|er| + k];
      }
    }
  }

  lemma InTail(er: seq<nat>, wrong: seq<nat>, c: Params, p: nat)
    requires c.Positions(er + wrong) && p in wrong
    ensures p < c.length
  {
    var k :| 0 <= k < |wrong| && wrong[k] == p;
    assert (er + wrong)[|er| + k] == p;
  }
}
