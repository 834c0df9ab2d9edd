/** Error values from the error evaluator and the derivative of the error locator. */
module Forney {
  import opened Bits
  import opened Galois
  import opened Polynomial

  function Reversed(s: seq<nat>): (r: seq<nat>)
    ensures |r| == |s|
    ensures forall i :: 0 <= i < |s| ==> r[|s| - 1 - i] == s[i]
  {
    seq(|s|, i requires 0 <= i < |s| => s[|s| - 1 - i])
  }

  /** The low |s| coefficients of the syndrome polynomial times the locator. */
  ghost function Evaluator(F: GF, q: seq<nat>, s: seq<nat>): (r: seq<nat>)
    requires s != [] && |q| == |s| + 1
    ensures |r| == |s|
  {
    Product(F, Reversed(s), q)[|s|..]
  }

  lemma {:induction false} DotAppend(F: GF, p: seq<nat>, a: nat, s: seq<nat>, b: nat)
    requires |p| == |s|
    ensures Dot(F, p + [a], s + [b]) == Xor(Dot(F, p, s), F.Mul(a, b))
  {
    hide Xor, GF.Mul;
    if p == [] {
      assert (p + [a])[1..] == [] && (s + [b])[1..] == [];
      XorComm(F.Mul(a, b), 0);
    } else {
      assert (p + [a])[1..] == p[1..] + [a] && (s + [b])[1..] == s[1..] + [b];
      DotAppend(F, p[1..], a, s[1..], b);
      XorAssoc(F.Mul(p[0], s[0]), Dot(F, p[1..], s[1..]), F.Mul(a, b));
    }
  }

  lemma {:induction false} EvaluatorColumn(F: GF, q: seq<nat>, s: seq<nat>, k: nat, m: nat)
    requires s != [] && |q| == |s| + 1 && k < |s| && m <= |q|
    ensures Convolution(F, Reversed(s), q, |s| + k, m)
         == if m <= k + 1 then 0 else Dot(F, q[k + 1..m], s[..m - k - 1])
  {
    hide Xor, GF.Mul;
    if m > 0 {
      EvaluatorColumn(F, q, s, k, m - 1);
      if m <= k + 1 {
        F.MulZero(q[m - 1]);
        XorZero(0);
      } else {
        var i := m - 1 - (k + 1);
        F.MulComm(s[i], q[m - 1]);
        assert |s| + k - (m - 1) == |s| - 1 - i;
        assert q[k + 1..m] == q[k + 1..m - 1] + [q[m - 1]];
        assert s[..m - k - 1] == s[..i] + [s[i]];
        DotAppend(F, q[k + 1..m - 1], q[m - 1], s[..i], s[i]);
        if i == 0 { assert q[k + 1..m - 1] == [] && s[..i] == []; }
      }
    }
  }

  lemma EvaluatorCoefficient(F: GF, q: seq<nat>, s: seq<nat>, k: nat)
    requires s != [] && |q| == |s| + 1 && k < |s|
    ensures Evaluator(F, q, s)[k] == Dot(F, q[k + 1..], s[..|s| - k])
  {
    hide Xor, GF.Mul, Convolution, Dot;
    EvaluatorColumn(F, q, s, k, |q|);
    assert q[k + 1..|q|] == q[k + 1..];
  }

  // ---------------------------------------------------------------- the numerator

  lemma {:induction false} EvalLowXor(F: GF, p: seq<nat>, q: seq<nat>, r: seq<nat>, x: nat)
    requires F.Primitive() && |p| == |q| == |r|
    requires forall i :: 0 <= i < |r| ==> r[i] == Xor(p[i], q[i])
    ensures EvalLow(F, r, x) == Xor(EvalLow(F, p, x), EvalLow(F, q, x))
  {
    hide Xor, GF.Mul;
    if r == [] {
      XorZero(0);
    } else {
      EvalLowXor(F, p[1..], q[1..], r[1..], x);
      var ep, eq := EvalLow(F, p[1..], x), EvalLow(F, q[1..], x);
      F.MulXor(x, ep, eq);
      XorSwap(p[0], q[0], F.Mul(x, ep), F.Mul(x, eq));
    }
  }

  lemma {:induction false} EvalLowScale(F: GF, p: seq<nat>, c: nat, x: nat)
    requires F.Primitive()
    ensures EvalLow(F, Scale(F, p, c), x) == F.Mul(c, EvalLow(F, p, x))
  {
    hide Xor, GF.Mul;
    if p == [] {
      F.MulZero(c);
    } else {
      EvalLowScale(F, p[1..], c, x);
      assert Scale(F, p, c)[1..] == Scale(F, p[1..], c);
      F.MulXor(c, p[0], F.Mul(x, EvalLow(F, p[1..], x)));
      MulExchange(F, c, x, EvalLow(F, p[1..], x));
      F.MulComm(c, p[0]);
    }
  }

  lemma {:induction false} EvalLowZero(F: GF, p: seq<nat>, x: nat)
    requires AllZero(p)
    ensures EvalLow(F, p, x) == 0
  {
    hide Xor, GF.Mul;
    if p != [] {
      EvalLowZero(F, p[1..], x);
      F.MulZero(x);
      XorZero(0);
    }
  }

  /** The evaluator in terms of the error weights ys at locators xs. */
  ghost function Mix(F: GF, q: seq<nat>, ys: seq<nat>, xs: seq<nat>): (r: seq<nat>)
    requires q != [] && |ys| == |xs|
    ensures |r| == |q| - 1
  {
    seq(|q| - 1, k requires 0 <= k < |q| - 1 => PowerSum(F, Weighted(F, q[k + 1..], ys, xs), xs, 0))
  }

  lemma EvaluatorIsMix(F: GF, q: seq<nat>, s: seq<nat>, ys: seq<nat>, xs: seq<nat>)
    requires F.Primitive() && s != [] && |q| == |s| + 1 && |ys| == |xs| && IsPowerSums(F, s, ys, xs, 0)
    ensures Evaluator(F, q, s) == Mix(F, q, ys, xs)
  {
    hide Xor, GF.Mul, PowerSum, Weighted, Dot, Evaluator;
    forall k | 0 <= k < |s| ensures Evaluator(F, q, s)[k] == Mix(F, q, ys, xs)[k] {
      EvaluatorCoefficient(F, q, s, k);
      var t := s[..|s| - k];
      DotPowerSums(F, q[k + 1..], t, ys, xs, 0);
    }
  }

  /** The sum of the quotients of q by its factors, weighted by ys, at z. */
  ghost function QuotientSum(F: GF, q: seq<nat>, ys: seq<nat>, xs: seq<nat>, z: nat): nat
    requires q != [] && |ys| == |xs|
  {
    if ys == [] then 0
    else
      var w := |ys| - 1;
      Xor(QuotientSum(F, q, ys[..w], xs[..w], z), F.Mul(ys[w], EvalLow(F, Quotient(F, q, xs[w]), z)))
  }

  lemma {:induction false} MixValue(F: GF, q: seq<nat>, ys: seq<nat>, xs: seq<nat>, z: nat)
    requires F.Primitive() && q != [] && |ys| == |xs|
    ensures EvalLow(F, Mix(F, q, ys, xs), z) == QuotientSum(F, q, ys, xs, z)
  {
    hide Xor, GF.Mul, EvalLow;
    var m := Mix(F, q, ys, xs);
    if ys == [] {
      EvalLowZero(F, m, z);
    } else {
      var w := |ys| - 1;
      var m' := Mix(F, q, ys[..w], xs[..w]);
      MixValue(F, q, ys[..w], xs[..w], z);
      var column := Scale(F, Quotient(F, q, xs[w]), ys[w]);
      forall k | 0 <= k < |m| ensures m[k] == Xor(m'[k], column[k]) {
        assert Weighted(F, q[k + 1..], ys, xs)[..w] == Weighted(F, q[k + 1..], ys[..w], xs[..w]);
        MixEntry(F, q[k + 1..], ys[w], xs[w]);
      }
      EvalLowXor(F, m', column, m, z);
      EvalLowScale(F, Quotient(F, q, xs[w]), ys[w], z);
    }
  }

  lemma MixEntry(F: GF, t: seq<nat>, y: nat, x: nat)
    requires F.Primitive()
    ensures F.Mul(F.Mul(y, EvalLow(F, t, x)), Power(F, x, 0)) == F.Mul(EvalLow(F, t, x), y)
  {
    hide Xor, GF.Mul, EvalLow;
    F.MulInField(y, EvalLow(F, t, x));
    F.MulOne(F.Mul(y, EvalLow(F, t, x)));
    F.MulComm(y, EvalLow(F, t, x));
  }

  /** The locators are distinct roots of q, read lowest coefficient first, and q ends in one. */
  ghost predicate Locator(F: GF, q: seq<nat>, xs: seq<nat>) {
    && |q| == |xs| + 1
    && Word(F, q) && Word(F, xs) && Distinct(xs)
    && q[|xs|] == 1
    && forall i :: 0 <= i < |xs| ==> EvalLow(F, q, xs[i]) == 0
  }

  lemma OtherQuotient(F: GF, q: seq<nat>, xs: seq<nat>, k: nat, i: nat)
    requires F.Primitive() && Locator(F, q, xs) && k < |xs| && i < |xs| && k != i
    ensures EvalLow(F, Quotient(F, q, xs[k]), xs[i]) == 0
  {
    hide Xor, GF.Mul, EvalLow, Quotient;
    var e := EvalLow(F, Quotient(F, q, xs[k]), xs[i]);
    Division(F, q, xs[k], xs[i]);
    XorSelf(0);
    XorIsZero(xs[i], xs[k]);
    XorBelow(xs[i], xs[k], F.bits);
    QuotientInField(F, q, xs[k]);
    EvalLowInField(F, Quotient(F, q, xs[k]), xs[i]);
    if e != 0 { F.MulNonzero(Xor(xs[i], xs[k]), e); }
  }

  lemma LocatorIs(F: GF, q: seq<nat>, xs: seq<nat>)
    requires Locator(F, q, xs)
    ensures |q| == |xs| + 1 && Word(F, q) && Word(F, xs) && Distinct(xs)
  {
  }

  /** The quotient has the leading coefficient of the locator. */
  lemma LeadingQuotient(F: GF, q: seq<nat>, xs: seq<nat>, i: nat)
    requires F.Primitive() && Locator(F, q, xs) && i < |xs|
    ensures |Quotient(F, q, xs[i])| == |xs| && !AllZero(Quotient(F, q, xs[i]))
  {
    hide Xor, GF.Mul;
    var w := |xs| - 1;
    assert q[w + 1..] == [1] && q[w + 1..][1..] == [];
    F.MulZero(xs[i]);
    XorZero(1);
    assert Quotient(F, q, xs[i])[w] == EvalLow(F, q[w + 1..], xs[i]) == 1;
  }

  /** The quotient by a root does not vanish there: the roots are simple. */
  lemma OwnQuotient(F: GF, q: seq<nat>, xs: seq<nat>, i: nat)
    requires F.Primitive() && Locator(F, q, xs) && i < |xs|
    ensures EvalLow(F, Quotient(F, q, xs[i]), xs[i]) != 0
    ensures F.InField(EvalLow(F, Quotient(F, q, xs[i]), xs[i]))
  {
    var p := Quotient(F, q, xs[i]);
    LocatorIs(F, q, xs);
    hide *;
    LeadingQuotient(F, q, xs, i);
    QuotientInField(F, q, xs[i]);
    EvalLowInField(F, p, xs[i]);
    if EvalLow(F, p, xs[i]) == 0 {
      forall k | 0 <= k < |xs| ensures EvalLow(F, p, xs[k]) == 0 {
        if k != i { OtherQuotient(F, q, xs, i, k); }
      }
      RootCount(F, p, xs);
      assert false;
    }
  }

  lemma {:induction false} QuotientSumAt(F: GF, q: seq<nat>, ys: seq<nat>, xs: seq<nat>, m: nat, i: nat)
    requires F.Primitive() && Locator(F, q, xs) && |ys| == |xs| && m <= |xs| && i < |xs|
    ensures QuotientSum(F, q, ys[..m], xs[..m], xs[i])
         == if i < m then F.Mul(ys[i], EvalLow(F, Quotient(F, q, xs[i]), xs[i])) else 0
  {
    hide Xor, GF.Mul, EvalLow, Quotient;
    if m > 0 {
      QuotientSumAt(F, q, ys, xs, m - 1, i);
      assert ys[..m][..m - 1] == ys[..m - 1] && xs[..m][..m - 1] == xs[..m - 1];
      if i != m - 1 {
        OtherQuotient(F, q, xs, m - 1, i);
        F.MulZero(ys[m - 1]);
      }
      XorZero(QuotientSum(F, q, ys[..m - 1], xs[..m - 1], xs[i]));
      XorZero(F.Mul(ys[i], EvalLow(F, Quotient(F, q, xs[i]), xs[i])));
    }
  }

  /** At each locator the evaluator is the weight there times the quotient of q there. */
  lemma EvaluatorValue(F: GF, q: seq<nat>, s: seq<nat>, ys: seq<nat>, xs: seq<nat>, i: nat)
    requires F.Primitive() && Locator(F, q, xs) && |ys| == |xs| == |s| && i < |xs|
    requires IsPowerSums(F, s, ys, xs, 0)
    ensures EvalLow(F, Evaluator(F, q, s), xs[i]) == F.Mul(ys[i], EvalLow(F, Quotient(F, q, xs[i]), xs[i]))
  {
    hide Xor, GF.Mul, EvalLow, Quotient, QuotientSum, Evaluator, Mix;
    EvaluatorIsMix(F, q, s, ys, xs);
    MixValue(F, q, ys, xs, xs[i]);
    QuotientSumAt(F, q, ys, xs, |xs|, i);
    assert ys[..|xs|] == ys && xs[..|xs|] == xs;
  }

  // ---------------------------------------------------------------- the denominator

  /** Every second coefficient, ending one before the last: the formal derivative in powers of x^2. */
  function OddTerms(p: seq<nat>): (r: seq<nat>) {
    if |p| < 2 then [] else OddTerms(p[..|p| - 2]) + [p[|p| - 2]]
  }

  /** The terms of even and of odd exponent when the lowest coefficient comes first. */
  ghost function EvenPart(F: GF, p: seq<nat>, x: nat): nat {
    if p == [] then 0 else Xor(p[0], F.Mul(x, OddPart(F, p[1..], x)))
  }

  ghost function OddPart(F: GF, p: seq<nat>, x: nat): nat {
    if p == [] then 0 else F.Mul(x, EvenPart(F, p[1..], x))
  }

  lemma {:induction false} EvenPlusOdd(F: GF, p: seq<nat>, x: nat)
    requires F.Primitive()
    ensures Xor(EvenPart(F, p, x), OddPart(F, p, x)) == EvalLow(F, p, x)
  {
    hide Xor, GF.Mul;
    if p == [] {
      XorZero(0);
    } else {
      EvenPlusOdd(F, p[1..], x);
      var e, o := EvenPart(F, p[1..], x), OddPart(F, p[1..], x);
      F.MulXor(x, e, o);
      XorComm(e, o);
      XorComm(F.Mul(x, e), F.Mul(x, o));
      XorAssoc(p[0], F.Mul(x, o), F.Mul(x, e));
    }
  }

  /** x times the quotient by x, evaluated at x, collects the terms of odd exponent. */
  lemma {:induction false} QuotientOddPart(F: GF, p: seq<nat>, x: nat)
    requires F.Primitive() && p != []
    ensures F.Mul(x, EvalLow(F, Quotient(F, p, x), x)) == OddPart(F, p, x)
  {
    hide Xor, GF.Mul;
    var t := p[1..];
    F.MulZero(x);
    if t != [] {
      QuotientOddPart(F, t, x);
      var q := Quotient(F, p, x);
      assert q[0] == EvalLow(F, t, x);
      assert q[1..] == Quotient(F, t, x);
      EvenPlusOdd(F, t, x);
      XorCancel(OddPart(F, t, x), EvenPart(F, t, x));
    }
  }

  lemma {:induction false} PartsAppend(F: GF, p: seq<nat>, c: nat, x: nat)
    requires F.Primitive() && F.InField(c)
    ensures EvenPart(F, p + [c], x) == if |p| % 2 == 0 then Xor(EvenPart(F, p, x), F.Mul(c, Power(F, x, |p|))) else EvenPart(F, p, x)
    ensures OddPart(F, p + [c], x) == if |p| % 2 == 1 then Xor(OddPart(F, p, x), F.Mul(c, Power(F, x, |p|))) else OddPart(F, p, x)
  {
    hide Xor, GF.Mul;
    if p == [] {
      assert (p + [c])[1..] == [];
      F.MulZero(x);
      F.MulOne(c);
      XorComm(c, 0);
    } else {
      assert (p + [c])[1..] == p[1..] + [c];
      PartsAppend(F, p[1..], c, x);
      var r := Power(F, x, |p| - 1);
      MulExchange(F, x, c, r);
      F.MulXor(x, OddPart(F, p[1..], x), F.Mul(c, r));
      F.MulXor(x, EvenPart(F, p[1..], x), F.Mul(c, r));
      XorAssoc(p[0], F.Mul(x, OddPart(F, p[1..], x)), F.Mul(c, F.Mul(x, r)));
    }
  }

  lemma {:induction false} OddTermsInField(F: GF, p: seq<nat>)
    requires Word(F, p)
    ensures Word(F, OddTerms(p))
  {
    if |p| >= 2 { OddTermsInField(F, p[..|p| - 2]); }
  }

  /** The derivative, read highest coefficient first at y = 1/x. */
  lemma {:induction false} OddTermsValue(F: GF, p: seq<nat>, x: nat, y: nat)
    requires F.Primitive() && |p| >= 2 && Word(F, p) && F.Mul(x, y) == 1
    ensures F.Mul(Power(F, x, |p| - 2), Eval(F, OddTerms(p), F.Mul(y, y)))
         == if |p| % 2 == 0 then EvenPart(F, p, x) else OddPart(F, p, x)
  {
    hide Xor, GF.Mul, EvenPart, OddPart, Eval, Power;
    var n := |p|;
    var t, c := p[..n - 2], p[n - 2];
    assert p == (t + [c]) + [p[n - 1]];
    PartsAppend(F, t + [c], p[n - 1], x);
    PartsAppend(F, t, c, x);
    EvalAppend(F, OddTerms(t), c, F.Mul(y, y));
    var r, e := Power(F, x, n - 2), Eval(F, OddTerms(t), F.Mul(y, y));
    F.MulXor(r, F.Mul(e, F.Mul(y, y)), c);
    F.MulComm(r, c);
    if n >= 4 {
      OddTermsValue(F, t, x, y);
      Unsquare(F, Power(F, x, n - 4), x, y, e);
      PowerNext(F, x, n - 4);
      PowerNext(F, x, n - 3);
    } else {
      ShortParts(F, t, x, F.Mul(y, y));
      F.MulZero(F.Mul(y, y));
      F.MulZero(r);
    }
  }

  lemma ShortParts(F: GF, t: seq<nat>, x: nat, z: nat)
    requires |t| < 2
    ensures Eval(F, OddTerms(t), z) == 0
    ensures if |t| == 0 then EvenPart(F, t, x) == 0 else OddPart(F, t, x) == 0
  {
    hide Xor, GF.Mul;
    if |t| == 1 {
      assert t[1..] == [];
      F.MulZero(x);
    }
  }

  lemma Unsquare(F: GF, r: nat, x: nat, y: nat, e: nat)
    requires F.Primitive() && F.Mul(x, y) == 1
    ensures F.Mul(F.Mul(x, F.Mul(x, r)), F.Mul(e, F.Mul(y, y))) == F.Mul(r, e)
  {
    hide Xor, GF.Mul;
    F.MulComm(e, F.Mul(y, y));
    F.MulAssoc(y, y, e);
    var v := F.Mul(y, F.Mul(y, e));
    F.MulAssoc(x, F.Mul(x, r), v);
    F.MulAssoc(x, r, v);
    MulExchange(F, r, y, F.Mul(y, e));
    MulExchange(F, r, y, e);
    F.MulInField(r, e);
    F.MulInField(y, F.Mul(r, e));
    UnMul(F, x, y, F.Mul(y, F.Mul(r, e)));
    UnMul(F, x, y, F.Mul(r, e));
  }

  lemma UnMul(F: GF, x: nat, y: nat, v: nat)
    requires F.Primitive() && F.Mul(x, y) == 1
    ensures F.InField(v) ==> F.Mul(x, F.Mul(y, v)) == v
  {
    hide Xor, GF.Mul;
    F.MulAssoc(x, y, v);
    if F.InField(v) { F.MulOne(v); }
  }

  /** Cancel a common nonzero factor. */
  lemma MulCancel(F: GF, a: nat, b: nat, c: nat)
    requires F.Primitive() && F.InField(a) && a != 0 && F.InField(b) && F.InField(c)
    requires F.Mul(a, b) == F.Mul(a, c)
    ensures b == c
  {
    hide Xor, GF.Mul;
    F.MulXor(a, b, c);
    XorSelf(F.Mul(a, b));
    XorIsZero(b, c);
    XorBelow(b, c, F.bits);
    if b != c { F.MulNonzero(a, Xor(b, c)); }
  }

  ghost function Div(F: GF, x: nat, y: nat): nat { F.Mul(x, F.Inv(y)) }

  lemma DivOfProduct(F: GF, a: nat, b: nat)
    requires F.Primitive() && F.InField(a) && F.InField(b) && b != 0
    ensures Div(F, F.Mul(a, b), b) == a
  {
    hide Xor, GF.Mul, GF.Inv;
    F.MulInv(b);
    F.MulAssoc(a, b, F.Inv(b));
    F.MulOne(a);
  }

  /** The ratio the decoder computes at y = 1/x is exactly the weight of the error at locator x. */
  lemma ErrorWeight(F: GF, q: seq<nat>, s: seq<nat>, ys: seq<nat>, xs: seq<nat>, i: nat, y: nat)
    requires F.Primitive() && Locator(F, q, xs) && |ys| == |xs| == |s| && i < |xs|
    requires Word(F, ys) && IsPowerSums(F, s, ys, xs, 0)
    requires F.InField(y) && F.Mul(xs[i], y) == 1
    ensures var d := F.Mul(y, Eval(F, OddTerms(q), F.Mul(y, y)));
      d != 0 && Div(F, Eval(F, Evaluator(F, q, s), y), d) == ys[i]
  {
    hide Xor, GF.Mul, GF.Inv, EvalLow, Eval, Quotient, Evaluator, OddTerms, Div, EvenPart, OddPart, Power;
    var x, n := xs[i], |xs|;
    var num, den := Eval(F, Evaluator(F, q, s), y), Eval(F, OddTerms(q), F.Mul(y, y));
    var d, r := F.Mul(y, den), Power(F, x, n - 1);
    var dq := EvalLow(F, Quotient(F, q, x), x);
    OwnQuotient(F, q, xs, i);
    DenominatorValue(F, q, xs, i, y);
    EvaluatorInField(F, q, s);
    EvaluatorValue(F, q, s, ys, xs, i);
    EvalReversed(F, Evaluator(F, q, s), x, y);
    F.MulInField(y, den);
    F.MulInField(ys[i], d);
    EvalInField(F, Evaluator(F, q, s), y);
    PowerInField(F, x, n - 1);
    LocatorNonzero(F, x, y);
    PowerNonzero(F, x, n - 1);
    MulExchange(F, r, ys[i], d);
    MulCancel(F, r, num, F.Mul(ys[i], d));
    F.MulZero(r);
    DivOfProduct(F, ys[i], d);
  }

  lemma LocatorNonzero(F: GF, x: nat, y: nat)
    requires F.Mul(x, y) == 1
    ensures x != 0
  {
    hide GF.Mul;
    F.MulZero(y);
  }

  lemma EvaluatorInField(F: GF, q: seq<nat>, s: seq<nat>)
    requires F.Primitive() && s != [] && |q| == |s| + 1
    ensures Word(F, Evaluator(F, q, s))
  {
    hide Xor, GF.Mul, Product;
    ProductInField(F, Reversed(s), q);
  }

  /** x^(n-1) times the denominator y * q'(y) is the quotient of q at x. */
  lemma DenominatorValue(F: GF, q: seq<nat>, xs: seq<nat>, i: nat, y: nat)
    requires F.Primitive() && Locator(F, q, xs) && i < |xs| && F.Mul(xs[i], y) == 1
    ensures F.Mul(Power(F, xs[i], |xs| - 1), F.Mul(y, Eval(F, OddTerms(q), F.Mul(y, y))))
         == EvalLow(F, Quotient(F, q, xs[i]), xs[i])
  {
    hide Xor, GF.Mul, EvalLow, Eval, Quotient, OddTerms, EvenPart, OddPart, Power;
    var x, n := xs[i], |xs|;
    var den, r, dq := Eval(F, OddTerms(q), F.Mul(y, y)), Power(F, x, n - 1), EvalLow(F, Quotient(F, q, x), x);
    OddTermsValue(F, q, x, y);
    EvenPlusOdd(F, q, x);
    XorIsZero(EvenPart(F, q, x), OddPart(F, q, x));
    QuotientOddPart(F, q, x);
    assert F.Mul(r, den) == F.Mul(x, dq);
    MulExchange(F, r, y, den);
    MulExchange(F, y, x, dq);
    QuotientInField(F, q, x);
    EvalLowInField(F, Quotient(F, q, x), x);
    UnMul(F, x, y, dq);
  }
}
