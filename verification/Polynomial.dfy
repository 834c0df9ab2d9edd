/** Polynomials over a Galois field as sequences of coefficients, and sums of powers. */
module Polynomial {
  import opened Bits
  import opened Galois

  predicate Word(F: GF, p: seq<nat>) {
    forall i :: 0 <= i < |p| ==> F.InField(p[i])
  }

  predicate AllZero(p: seq<nat>) {
    forall i :: 0 <= i < |p| ==> p[i] == 0
  }

  /** The value at x of the polynomial whose highest coefficient comes first. */
  ghost function Eval(F: GF, p: seq<nat>, x: nat): nat {
    if p == [] then 0 else Xor(F.Mul(Eval(F, p[..|p| - 1], x), x), p[|p| - 1])
  }

  /** The value at x of the polynomial whose lowest coefficient comes first. */
  ghost function EvalLow(F: GF, p: seq<nat>, x: nat): nat {
    if p == [] then 0 else Xor(p[0], F.Mul(x, EvalLow(F, p[1..], x)))
  }

  ghost function Power(F: GF, x: nat, n: nat): nat {
    if n == 0 then 1 else F.Mul(x, Power(F, x, n - 1))
  }

  ghost function Dot(F: GF, p: seq<nat>, q: seq<nat>): nat
    requires |p| == |q|
  {
    if p == [] then 0 else Xor(F.Mul(p[0], q[0]), Dot(F, p[1..], q[1..]))
  }

  /** The sum of ys[i] * xs[i]^n. */
  ghost function PowerSum(F: GF, ys: seq<nat>, xs: seq<nat>, n: nat): nat
    requires |ys| == |xs|
  {
    if ys == [] then 0
    else
      var w := |ys| - 1;
      Xor(PowerSum(F, ys[..w], xs[..w], n), F.Mul(ys[w], Power(F, xs[w], n)))
  }

  lemma {:induction false} EvalInField(F: GF, p: seq<nat>, x: nat)
    requires F.Primitive() && Word(F, p)
    ensures F.InField(Eval(F, p, x))
  {
    hide Xor, GF.Mul;
    if p != [] {
      F.MulInField(Eval(F, p[..|p| - 1], x), x);
      XorBelow(F.Mul(Eval(F, p[..|p| - 1], x), x), p[|p| - 1], F.bits);
    }
  }

  lemma {:induction false} EvalLowInField(F: GF, p: seq<nat>, x: nat)
    requires F.Primitive() && Word(F, p)
    ensures F.InField(EvalLow(F, p, x))
  {
    hide Xor, GF.Mul;
    if p != [] {
      F.MulInField(x, EvalLow(F, p[1..], x));
      XorBelow(p[0], F.Mul(x, EvalLow(F, p[1..], x)), F.bits);
    }
  }

  lemma {:induction false} PowerInField(F: GF, x: nat, n: nat)
    requires F.Primitive()
    ensures F.InField(Power(F, x, n))
  {
    hide GF.Mul;
    F.OrderPositive();
    if n > 0 { F.MulInField(x, Power(F, x, n - 1)); }
  }

  lemma {:induction false} PowerNonzero(F: GF, x: nat, n: nat)
    requires F.Primitive() && F.InField(x) && x != 0
    ensures Power(F, x, n) != 0
  {
    hide GF.Mul;
    if n > 0 {
      PowerNonzero(F, x, n - 1);
      PowerInField(F, x, n - 1);
      F.MulNonzero(x, Power(F, x, n - 1));
    }
  }

  /** x * (y + z) with the scalar taken out: a * (c * x) == c * (a * x). */
  lemma MulExchange(F: GF, a: nat, b: nat, c: nat)
    requires F.Primitive()
    ensures F.Mul(a, F.Mul(b, c)) == F.Mul(b, F.Mul(a, c))
  {
    hide GF.Mul;
    F.MulAssoc(a, b, c);
    F.MulComm(a, b);
    F.MulAssoc(b, a, c);
  }

  // ---------------------------------------------------------------- elimination

  /** ys with every entry multiplied by the difference between its locator and x. */
  ghost function Eliminated(F: GF, ys: seq<nat>, xs: seq<nat>, x: nat): (zs: seq<nat>)
    requires |ys| == |xs|
    ensures |zs| == |ys|
  {
    seq(|ys|, i requires 0 <= i < |ys| => F.Mul(ys[i], Xor(xs[i], x)))
  }

  lemma {:induction false} EliminateStep(F: GF, ys: seq<nat>, xs: seq<nat>, x: nat, n: nat)
    requires F.Primitive() && |ys| == |xs|
    ensures PowerSum(F, Eliminated(F, ys, xs, x), xs, n)
         == Xor(PowerSum(F, ys, xs, n + 1), F.Mul(x, PowerSum(F, ys, xs, n)))
  {
    hide Xor, GF.Mul;
    if ys == [] {
      F.MulZero(x);
      XorZero(0);
    } else {
      var w := |ys| - 1;
      var ys', xs' := ys[..w], xs[..w];
      EliminateStep(F, ys', xs', x, n);
      assert Eliminated(F, ys, xs, x)[..w] == Eliminated(F, ys', xs', x);
      var s1, s0, p, y := PowerSum(F, ys', xs', n + 1), PowerSum(F, ys', xs', n), Power(F, xs[w], n), ys[w];
      EliminateTerm(F, y, xs[w], x, p);
      F.MulXor(x, s0, F.Mul(y, p));
      XorSwap(s1, F.Mul(x, s0), F.Mul(y, F.Mul(xs[w], p)), F.Mul(x, F.Mul(y, p)));
    }
  }

  lemma EliminateTerm(F: GF, y: nat, z: nat, x: nat, p: nat)
    requires F.Primitive()
    ensures F.Mul(F.Mul(y, Xor(z, x)), p) == Xor(F.Mul(y, F.Mul(z, p)), F.Mul(x, F.Mul(y, p)))
  {
    hide Xor, GF.Mul;
    F.MulAssoc(y, Xor(z, x), p);
    F.MulXor(p, z, x);
    F.MulXor(y, F.Mul(z, p), F.Mul(x, p));
    MulExchange(F, y, x, p);
  }

  /** If the first n power sums of at most n distinct locators vanish, all weights are zero. */
  lemma {:induction false} Elimination(F: GF, ys: seq<nat>, xs: seq<nat>, n: nat)
    requires F.Primitive() && |ys| == |xs| <= n
    requires Word(F, ys) && Word(F, xs) && Distinct(xs)
    requires forall j :: 0 <= j < n ==> PowerSum(F, ys, xs, j) == 0
    ensures AllZero(ys)
    decreases |ys|
  {
    hide Xor, GF.Mul;
    if ys != [] {
      var w := |ys| - 1;
      var ys', xs', x := ys[..w], xs[..w], xs[w];
      var zs := Eliminated(F, ys', xs', x);
      forall i | 0 <= i < w ensures F.InField(zs[i]) { F.MulInField(ys[i], Xor(xs[i], x)); }
      forall j | 0 <= j < n - 1 ensures PowerSum(F, zs, xs', j) == 0 {
        EliminateLast(F, ys, xs, j);
      }
      Elimination(F, zs, xs', n - 1);
      forall i | 0 <= i < w ensures ys[i] == 0 {
        XorIsZero(xs[i], x);
        XorBelow(xs[i], x, F.bits);
        assert zs[i] == 0;
        if ys[i] != 0 { F.MulNonzero(ys[i], Xor(xs[i], x)); }
      }
      PowerSumZero(F, ys', xs', 0);
      XorZero(F.Mul(ys[w], 1));
      F.MulOne(ys[w]);
      assert PowerSum(F, ys, xs, 0) == 0;
    }
  }

  lemma EliminateLast(F: GF, ys: seq<nat>, xs: seq<nat>, n: nat)
    requires F.Primitive() && |ys| == |xs| > 0
    requires PowerSum(F, ys, xs, n) == 0 && PowerSum(F, ys, xs, n + 1) == 0
    ensures var w := |ys| - 1; PowerSum(F, Eliminated(F, ys[..w], xs[..w], xs[w]), xs[..w], n) == 0
  {
    hide Xor, GF.Mul;
    var w := |ys| - 1;
    EliminateStep(F, ys[..w], xs[..w], xs[w], n);
    var y, x, p := ys[w], xs[w], Power(F, xs[w], n);
    var s1, s0 := PowerSum(F, ys[..w], xs[..w], n + 1), PowerSum(F, ys[..w], xs[..w], n);
    XorIsZero(s0, F.Mul(y, p));
    XorIsZero(s1, F.Mul(y, F.Mul(x, p)));
    MulExchange(F, x, y, p);
    XorSelf(s1);
  }

  lemma {:induction false} PowerSumZero(F: GF, ys: seq<nat>, xs: seq<nat>, n: nat)
    requires |ys| == |xs| && AllZero(ys)
    ensures PowerSum(F, ys, xs, n) == 0
  {
    hide Xor, GF.Mul;
    if ys != [] {
      var w := |ys| - 1;
      PowerSumZero(F, ys[..w], xs[..w], n);
      F.MulZero(Power(F, xs[w], n));
      XorZero(0);
    }
  }

  // ---------------------------------------------------------------- roots

  /** The quotient of p, lowest coefficient first, by (z + a). */
  ghost function Quotient(F: GF, p: seq<nat>, a: nat): (q: seq<nat>)
    requires p != []
    ensures |q| == |p| - 1
  {
    seq(|p| - 1, s requires 0 <= s < |p| - 1 => EvalLow(F, p[s + 1..], a))
  }

  lemma {:induction false} Division(F: GF, p: seq<nat>, a: nat, z: nat)
    requires F.Primitive() && p != []
    ensures Xor(EvalLow(F, p, z), EvalLow(F, p, a)) == F.Mul(Xor(z, a), EvalLow(F, Quotient(F, p, a), z))
  {
    hide Xor, GF.Mul;
    var t := p[1..];
    var ez, ea := EvalLow(F, t, z), EvalLow(F, t, a);
    XorSwap(p[0], F.Mul(z, ez), p[0], F.Mul(a, ea));
    XorSelf(p[0]);
    XorZero(Xor(F.Mul(z, ez), F.Mul(a, ea)));
    var q := Quotient(F, p, a);
    if t == [] {
      F.MulZero(z);
      F.MulZero(a);
      XorSelf(0);
      F.MulZero(Xor(z, a));
    } else {
      var q' := Quotient(F, t, a);
      Division(F, t, a, z);
      assert q[0] == ea;
      assert q[1..] == q';
      var v := EvalLow(F, q', z);
      F.MulXor(Xor(z, a), ea, F.Mul(z, v));
      MulExchange(F, Xor(z, a), z, v);
      F.MulXor(z, ez, ea);
      F.MulXor(ea, z, a);
      F.MulComm(ea, Xor(z, a));
      F.MulComm(ea, z);
      F.MulComm(ea, a);
      DivisionTerms(F.Mul(z, ea), F.Mul(a, ea), F.Mul(z, ez));
    }
  }

  lemma DivisionTerms(a: nat, b: nat, c: nat)
    ensures Xor(Xor(a, b), Xor(c, a)) == Xor(c, b)
  {
    hide Xor;
    XorComm(a, b);
    XorComm(c, a);
    XorAssoc(b, a, Xor(a, c));
    XorCancel(a, c);
    XorComm(b, c);
  }

  lemma {:induction false} QuotientInField(F: GF, p: seq<nat>, a: nat)
    requires F.Primitive() && p != [] && Word(F, p)
    ensures Word(F, Quotient(F, p, a))
  {
    hide Xor, GF.Mul;
    forall s | 0 <= s < |p| - 1 ensures F.InField(Quotient(F, p, a)[s]) { EvalLowInField(F, p[s + 1..], a); }
  }

  /** Coefficients from the partial values of the division. */
  lemma QuotientCoefficients(F: GF, p: seq<nat>, a: nat, s: nat)
    requires F.Primitive() && p != [] && s < |p|
    ensures EvalLow(F, p[s..], a) == Xor(p[s], F.Mul(a, EvalLow(F, p[s + 1..], a)))
  {
    hide Xor, GF.Mul;
    assert p[s..][1..] == p[s + 1..];
  }

  /** A polynomial with as many distinct roots as coefficients is zero. */
  lemma {:induction false} RootCount(F: GF, p: seq<nat>, xs: seq<nat>)
    requires F.Primitive() && Word(F, p) && Word(F, xs) && Distinct(xs)
    requires |p| <= |xs|
    requires forall i :: 0 <= i < |xs| ==> EvalLow(F, p, xs[i]) == 0
    ensures AllZero(p)
    decreases |xs|
  {
    hide Xor, GF.Mul;
    if p != [] {
      var w := |xs| - 1;
      var a := xs[w];
      var q := Quotient(F, p, a);
      QuotientInField(F, p, a);
      forall i | 0 <= i < w ensures EvalLow(F, q, xs[i]) == 0 {
        Division(F, p, a, xs[i]);
        XorSelf(0);
        XorIsZero(xs[i], a);
        XorBelow(xs[i], a, F.bits);
        EvalLowInField(F, q, xs[i]);
        if EvalLow(F, q, xs[i]) != 0 { F.MulNonzero(Xor(xs[i], a), EvalLow(F, q, xs[i])); }
      }
      RootCount(F, q, xs[..w]);
      forall s | 0 <= s < |p| ensures p[s] == 0 {
        QuotientCoefficients(F, p, a, s);
        assert s + 1 < |p| ==> q[s] == EvalLow(F, p[s + 1..], a);
        assert s > 0 ==> q[s - 1] == EvalLow(F, p[s..], a);
        assert p[0..] == p;
        F.MulZero(a);
        XorZero(p[s]);
      }
    }
  }

  // ---------------------------------------------------------------- power sums as sequences

  /** The power sums from exponent k on. */
  ghost predicate IsPowerSums(F: GF, s: seq<nat>, ys: seq<nat>, xs: seq<nat>, k: nat)
    requires |ys| == |xs|
  {
    forall m :: 0 <= m < |s| ==> s[m] == PowerSum(F, ys, xs, k + m)
  }

  /** The weights ys multiplied by the values of p at the locators. */
  ghost function Weighted(F: GF, p: seq<nat>, ys: seq<nat>, xs: seq<nat>): (zs: seq<nat>)
    requires |ys| == |xs|
    ensures |zs| == |ys|
  {
    seq(|ys|, i requires 0 <= i < |ys| => F.Mul(ys[i], EvalLow(F, p, xs[i])))
  }

  lemma {:induction false} WeightedStep(F: GF, p: seq<nat>, ys: seq<nat>, xs: seq<nat>, k: nat)
    requires F.Primitive() && |ys| == |xs| && p != []
    ensures PowerSum(F, Weighted(F, p, ys, xs), xs, k)
         == Xor(F.Mul(p[0], PowerSum(F, ys, xs, k)), PowerSum(F, Weighted(F, p[1..], ys, xs), xs, k + 1))
  {
    hide Xor, GF.Mul;
    if ys == [] {
      F.MulZero(p[0]);
      XorZero(0);
    } else {
      var w := |ys| - 1;
      var ys', xs' := ys[..w], xs[..w];
      WeightedStep(F, p, ys', xs', k);
      assert Weighted(F, p, ys, xs)[..w] == Weighted(F, p, ys', xs');
      assert Weighted(F, p[1..], ys, xs)[..w] == Weighted(F, p[1..], ys', xs');
      var c, y, x, r, e := p[0], ys[w], xs[w], Power(F, xs[w], k), EvalLow(F, p[1..], xs[w]);
      F.MulXor(y, c, F.Mul(x, e));
      F.MulXor(r, F.Mul(y, c), F.Mul(y, F.Mul(x, e)));
      WeightedTerm(F, c, y, x, r, e);
      F.MulXor(c, PowerSum(F, ys', xs', k), F.Mul(y, r));
      XorSwap(F.Mul(c, PowerSum(F, ys', xs', k)), PowerSum(F, Weighted(F, p[1..], ys', xs'), xs', k + 1),
              F.Mul(c, F.Mul(y, r)), F.Mul(F.Mul(y, e), F.Mul(x, r)));
    }
  }

  lemma WeightedTerm(F: GF, c: nat, y: nat, x: nat, r: nat, e: nat)
    requires F.Primitive()
    ensures F.Mul(F.Mul(y, c), r) == F.Mul(c, F.Mul(y, r))
    ensures F.Mul(F.Mul(y, F.Mul(x, e)), r) == F.Mul(F.Mul(y, e), F.Mul(x, r))
  {
    hide Xor, GF.Mul;
    F.MulAssoc(y, c, r);
    MulExchange(F, y, c, r);
    F.MulComm(x, e);
    F.MulAssoc(y, F.Mul(e, x), r);
    F.MulAssoc(e, x, r);
    F.MulAssoc(y, e, F.Mul(x, r));
  }

  /** Applying p to a window of power sums gives a power sum with weighted locators. */
  lemma {:induction false} DotPowerSums(F: GF, p: seq<nat>, s: seq<nat>, ys: seq<nat>, xs: seq<nat>, k: nat)
    requires F.Primitive() && |ys| == |xs| && |p| == |s| && IsPowerSums(F, s, ys, xs, k)
    ensures Dot(F, p, s) == PowerSum(F, Weighted(F, p, ys, xs), xs, k)
  {
    hide Xor, GF.Mul;
    if p == [] {
      forall i | 0 <= i < |ys| ensures Weighted(F, p, ys, xs)[i] == 0 { F.MulZero(ys[i]); }
      PowerSumZero(F, Weighted(F, p, ys, xs), xs, k);
    } else {
      WeightedStep(F, p, ys, xs, k);
      DotPowerSums(F, p[1..], s[1..], ys, xs, k + 1);
      assert s[0] == PowerSum(F, ys, xs, k + 0);
    }
  }

  lemma WeightedInField(F: GF, p: seq<nat>, ys: seq<nat>, xs: seq<nat>)
    requires F.Primitive() && |ys| == |xs|
    ensures Word(F, Weighted(F, p, ys, xs))
  {
    hide Xor, GF.Mul;
    forall i | 0 <= i < |ys| ensures F.InField(Weighted(F, p, ys, xs)[i]) { F.MulInField(ys[i], EvalLow(F, p, xs[i])); }
  }

  // ---------------------------------------------------------------- scaling and adding

  ghost function Scale(F: GF, p: seq<nat>, c: nat): (r: seq<nat>)
    ensures |r| == |p|
  {
    seq(|p|, i requires 0 <= i < |p| => F.Mul(p[i], c))
  }

  /** The i-th of n coefficients when p is padded with leading zeros to length n. */
  function PadAt(p: seq<nat>, n: nat, i: nat): nat
    requires |p| <= n && i < n
  {
    if i < n - |p| then 0 else p[i - (n - |p|)]
  }

  function Longer(p: seq<nat>, q: seq<nat>): nat {
    if |p| < |q| then |q| else |p|
  }

  /** The sum of two polynomials, highest coefficient first. */
  function Add(p: seq<nat>, q: seq<nat>): (r: seq<nat>)
    ensures |r| == Longer(p, q)
  {
    var n := Longer(p, q);
    seq(n, i requires 0 <= i < n => Xor(PadAt(p, n, i), PadAt(q, n, i)))
  }

  lemma ScaleInField(F: GF, p: seq<nat>, c: nat)
    requires F.Primitive()
    ensures Word(F, Scale(F, p, c))
  {
    hide Xor, GF.Mul;
    forall i | 0 <= i < |p| ensures F.InField(Scale(F, p, c)[i]) { F.MulInField(p[i], c); }
  }

  lemma AddInField(F: GF, p: seq<nat>, q: seq<nat>)
    requires Word(F, p) && Word(F, q)
    ensures Word(F, Add(p, q))
  {
    hide Xor;
    var n := Longer(p, q);
    forall i | 0 <= i < n ensures F.InField(Add(p, q)[i]) { XorBelow(PadAt(p, n, i), PadAt(q, n, i), F.bits); }
  }

  lemma {:induction false} DotScale(F: GF, p: seq<nat>, c: nat, s: seq<nat>)
    requires F.Primitive() && |p| == |s|
    ensures Dot(F, Scale(F, p, c), s) == F.Mul(c, Dot(F, p, s))
  {
    hide Xor, GF.Mul;
    if p == [] {
      F.MulZero(c);
    } else {
      DotScale(F, p[1..], c, s[1..]);
      assert Scale(F, p, c)[1..] == Scale(F, p[1..], c);
      F.MulXor(c, F.Mul(p[0], s[0]), Dot(F, p[1..], s[1..]));
      F.MulComm(p[0], c);
      F.MulAssoc(c, p[0], s[0]);
    }
  }

  lemma {:induction false} DotAppendZero(F: GF, p: seq<nat>, s: seq<nat>)
    requires |s| == |p| + 1
    ensures Dot(F, p + [0], s) == Dot(F, p, s[..|p|])
  {
    hide Xor, GF.Mul;
    if p == [] {
      F.MulZero(s[0]);
      XorZero(0);
    } else {
      assert (p + [0])[1..] == p[1..] + [0];
      assert s[..|p|][1..] == s[1..][..|p| - 1];
      DotAppendZero(F, p[1..], s[1..]);
    }
  }

  lemma AddLonger(p: seq<nat>, q: seq<nat>)
    requires |p| > |q|
    ensures Add(p, q) == [p[0]] + Add(p[1..], q)
  {
    hide Xor;
    XorZero(p[0]);
  }

  lemma AddComm(p: seq<nat>, q: seq<nat>)
    ensures Add(p, q) == Add(q, p)
  {
    hide Xor;
    var n := Longer(p, q);
    forall i | 0 <= i < n ensures Add(p, q)[i] == Add(q, p)[i] { XorComm(PadAt(p, n, i), PadAt(q, n, i)); }
  }

  lemma AddSame(p: seq<nat>, q: seq<nat>)
    requires |p| == |q| > 0
    ensures Add(p, q) == [Xor(p[0], q[0])] + Add(p[1..], q[1..])
  {
    hide Xor;
  }

  lemma {:induction false} DotAdd(F: GF, p: seq<nat>, q: seq<nat>, s: seq<nat>)
    requires F.Primitive() && |s| == Longer(p, q)
    ensures Dot(F, Add(p, q), s) == Xor(Dot(F, p, s[|s| - |p|..]), Dot(F, q, s[|s| - |q|..]))
    decreases |s|, if |q| > |p| then 1 else 0
  {
    hide Xor, GF.Mul, Add;
    var sp, sq := s[|s| - |p|..], s[|s| - |q|..];
    if |q| > |p| {
      DotAdd(F, q, p, s);
      AddComm(p, q);
      XorComm(Dot(F, p, sp), Dot(F, q, sq));
    } else if s == [] {
      XorZero(0);
    } else if |p| > |q| {
      var t := s[1..];
      AddLonger(p, q);
      DotAdd(F, p[1..], q, t);
      assert sp == s && sq == t[|t| - |q|..];
      assert t[|t| - |p[1..]|..] == t;
      XorAssoc(F.Mul(p[0], s[0]), Dot(F, p[1..], t), Dot(F, q, sq));
    } else {
      var t := s[1..];
      AddSame(p, q);
      DotAdd(F, p[1..], q[1..], t);
      assert sp == s && sq == s;
      assert t[|t| - |p[1..]|..] == t;
      F.MulXor(s[0], p[0], q[0]);
      XorSwap(F.Mul(p[0], s[0]), F.Mul(q[0], s[0]), Dot(F, p[1..], t), Dot(F, q[1..], t));
    }
  }

  // ---------------------------------------------------------------- evaluation

  function Zeros(n: nat): (z: seq<nat>)
    ensures |z| == n && AllZero(z)
  {
    seq(n, i => 0)
  }

  lemma {:induction false} EvalXor(F: GF, p: seq<nat>, q: seq<nat>, r: seq<nat>, x: nat)
    requires F.Primitive() && |p| == |q| == |r|
    requires forall i :: 0 <= i < |r| ==> r[i] == Xor(p[i], q[i])
    ensures Eval(F, r, x) == Xor(Eval(F, p, x), Eval(F, q, x))
  {
    hide Xor, GF.Mul;
    if r == [] {
      XorZero(0);
    } else {
      var w := |r| - 1;
      EvalXor(F, p[..w], q[..w], r[..w], x);
      var ep, eq := Eval(F, p[..w], x), Eval(F, q[..w], x);
      F.MulXor(x, ep, eq);
      XorSwap(F.Mul(ep, x), F.Mul(eq, x), p[w], q[w]);
    }
  }

  lemma {:induction false} EvalScale(F: GF, p: seq<nat>, c: nat, x: nat)
    requires F.Primitive()
    ensures Eval(F, Scale(F, p, c), x) == F.Mul(c, Eval(F, p, x))
  {
    hide Xor, GF.Mul;
    if p == [] {
      F.MulZero(c);
    } else {
      var w := |p| - 1;
      EvalScale(F, p[..w], c, x);
      assert Scale(F, p, c)[..w] == Scale(F, p[..w], c);
      F.MulXor(c, F.Mul(Eval(F, p[..w], x), x), p[w]);
      F.MulAssoc(c, Eval(F, p[..w], x), x);
      F.MulComm(c, p[w]);
    }
  }

  lemma EvalAppend(F: GF, p: seq<nat>, c: nat, x: nat)
    ensures Eval(F, p + [c], x) == Xor(F.Mul(Eval(F, p, x), x), c)
  {
    hide Xor, GF.Mul;
    assert (p + [c])[..|p|] == p;
  }

  lemma {:induction false} EvalTrailingZeros(F: GF, p: seq<nat>, b: nat, x: nat)
    requires F.Primitive() && Word(F, p)
    ensures Eval(F, p + Zeros(b), x) == F.Mul(Eval(F, p, x), Power(F, x, b))
  {
    hide Xor, GF.Mul;
    EvalInField(F, p, x);
    if b == 0 {
      assert p + Zeros(0) == p;
      F.MulOne(Eval(F, p, x));
    } else {
      assert p + Zeros(b) == (p + Zeros(b - 1)) + [0];
      EvalAppend(F, p + Zeros(b - 1), 0, x);
      EvalTrailingZeros(F, p, b - 1, x);
      F.MulAssoc(Eval(F, p, x), Power(F, x, b - 1), x);
      F.MulComm(x, Power(F, x, b - 1));
      XorZero(F.Mul(Eval(F, p + Zeros(b - 1), x), x));
    }
  }

  lemma {:induction false} EvalLeadingZeros(F: GF, a: nat, p: seq<nat>, x: nat)
    ensures Eval(F, Zeros(a) + p, x) == Eval(F, p, x)
    decreases |p|, a
  {
    hide Xor, GF.Mul;
    if p != [] {
      EvalLeadingZeros(F, a, p[..|p| - 1], x);
      assert (Zeros(a) + p)[..a + |p| - 1] == Zeros(a) + p[..|p| - 1];
    } else if a > 0 {
      EvalLeadingZeros(F, a - 1, [], x);
      assert Zeros(a) + p == Zeros(a - 1) + [0];
      assert Zeros(a - 1) + [] == Zeros(a - 1);
      EvalAppend(F, Zeros(a - 1), 0, x);
      F.MulZero(x);
      XorZero(0);
    }
  }

  /** Reading the same coefficients in the other order: x^(n-1) * p(1/x). */
  lemma {:induction false} EvalReversed(F: GF, p: seq<nat>, x: nat, y: nat)
    requires F.Primitive() && p != [] && Word(F, p) && F.Mul(x, y) == 1
    ensures F.Mul(Power(F, x, |p| - 1), Eval(F, p, y)) == EvalLow(F, p, x)
  {
    hide Xor, GF.Mul;
    var w := |p| - 1;
    var t, c := p[..w], p[w];
    assert p == t + [c];
    EvalLowAppend(F, t, c, x);
    if w == 0 {
      F.MulZero(y);
      XorZero(c);
      F.MulOne(c);
      F.MulZero(x);
      assert p[1..] == [];
    } else {
      EvalReversed(F, t, x, y);
      var e, r := Eval(F, t, y), Power(F, x, w - 1);
      EvalInField(F, t, y);
      F.MulXor(Power(F, x, w), F.Mul(e, y), c);
      F.MulComm(x, r);
      F.MulComm(e, y);
      F.MulAssoc(r, x, F.Mul(y, e));
      F.MulAssoc(x, y, e);
      F.MulOne(e);
      F.MulComm(Power(F, x, w), c);
    }
  }

  lemma {:induction false} EvalLowAppend(F: GF, p: seq<nat>, c: nat, x: nat)
    requires F.Primitive() && F.InField(c)
    ensures EvalLow(F, p + [c], x) == Xor(EvalLow(F, p, x), F.Mul(c, Power(F, x, |p|)))
  {
    hide Xor, GF.Mul;
    if p == [] {
      assert (p + [c])[1..] == [];
      F.MulZero(x);
      F.MulOne(c);
      XorComm(c, 0);
    } else {
      assert (p + [c])[1..] == p[1..] + [c];
      EvalLowAppend(F, p[1..], c, x);
      var r := Power(F, x, |p| - 1);
      F.MulXor(x, EvalLow(F, p[1..], x), F.Mul(c, r));
      MulExchange(F, x, c, r);
      XorAssoc(p[0], F.Mul(x, EvalLow(F, p[1..], x)), F.Mul(c, F.Mul(x, r)));
    }
  }

  // ---------------------------------------------------------------- products

  function CoefficientAt(p: seq<nat>, i: int): nat {
    if 0 <= i < |p| then p[i] else 0
  }

  /** The sum of p[r - j] * q[j] over j < k. */
  ghost function Convolution(F: GF, p: seq<nat>, q: seq<nat>, r: nat, k: nat): nat
    requires k <= |q|
  {
    if k == 0 then 0
    else Xor(Convolution(F, p, q, r, k - 1), F.Mul(CoefficientAt(p, r - (k - 1)), q[k - 1]))
  }

  /** The first k columns of the product. */
  ghost function PartialProduct(F: GF, p: seq<nat>, q: seq<nat>, k: nat): (r: seq<nat>)
    requires p != [] && q != [] && k <= |q|
    ensures |r| == |p| + |q| - 1
  {
    seq(|p| + |q| - 1, r requires 0 <= r < |p| + |q| - 1 => Convolution(F, p, q, r, k))
  }

  /** The product of two polynomials. */
  ghost function Product(F: GF, p: seq<nat>, q: seq<nat>): (r: seq<nat>)
    requires p != [] && q != []
    ensures |r| == |p| + |q| - 1
  {
    PartialProduct(F, p, q, |q|)
  }

  lemma {:induction false} ConvolutionInField(F: GF, p: seq<nat>, q: seq<nat>, r: nat, k: nat)
    requires F.Primitive() && k <= |q|
    ensures F.InField(Convolution(F, p, q, r, k))
  {
    hide Xor, GF.Mul;
    if k > 0 {
      ConvolutionInField(F, p, q, r, k - 1);
      F.MulInField(CoefficientAt(p, r - (k - 1)), q[k - 1]);
      XorBelow(Convolution(F, p, q, r, k - 1), F.Mul(CoefficientAt(p, r - (k - 1)), q[k - 1]), F.bits);
    }
  }

  lemma ProductInField(F: GF, p: seq<nat>, q: seq<nat>)
    requires F.Primitive() && p != [] && q != []
    ensures Word(F, Product(F, p, q))
  {
    hide Xor, GF.Mul, Convolution;
    forall r: nat | r < |p| + |q| - 1 ensures F.InField(Product(F, p, q)[r]) { ConvolutionInField(F, p, q, r, |q|); }
  }

  lemma {:induction false} EvalPartialProduct(F: GF, p: seq<nat>, q: seq<nat>, k: nat, x: nat)
    requires F.Primitive() && p != [] && q != [] && k <= |q| && Word(F, p)
    ensures Eval(F, PartialProduct(F, p, q, k), x)
         == F.Mul(Eval(F, p, x), F.Mul(Eval(F, q[..k], x), Power(F, x, |q| - k)))
  {
    hide Xor, GF.Mul, Power;
    var ep := Eval(F, p, x);
    if k == 0 {
      assert PartialProduct(F, p, q, 0) == Zeros(|p| + |q| - 1) + [];
      EvalLeadingZeros(F, |p| + |q| - 1, [], x);
      F.MulZero(Power(F, x, |q|));
      F.MulZero(ep);
    } else {
      var c, e, m := q[k - 1], Eval(F, q[..k - 1], x), Power(F, x, |q| - k);
      EvalPartialProduct(F, p, q, k - 1, x);
      ProductColumn(F, p, q, k, x);
      assert q[..k][..k - 1] == q[..k - 1];
      PowerNext(F, x, |q| - k);
      F.MulAssoc(e, x, m);
      F.MulXor(m, F.Mul(e, x), c);
      F.MulXor(ep, F.Mul(F.Mul(e, x), m), F.Mul(c, m));
      MulExchange(F, c, ep, m);
    }
  }

  lemma PowerNext(F: GF, x: nat, n: nat)
    ensures Power(F, x, n + 1) == F.Mul(x, Power(F, x, n))
  {
    hide GF.Mul;
  }

  /** The k-th column adds q[k - 1] * p, shifted. */
  lemma ProductColumn(F: GF, p: seq<nat>, q: seq<nat>, k: nat, x: nat)
    requires F.Primitive() && p != [] && q != [] && 1 <= k <= |q| && Word(F, p)
    ensures Eval(F, PartialProduct(F, p, q, k), x)
         == Xor(Eval(F, PartialProduct(F, p, q, k - 1), x),
                F.Mul(q[k - 1], F.Mul(Eval(F, p, x), Power(F, x, |q| - k))))
  {
    hide Xor, GF.Mul, Power, Eval;
    var padded := Zeros(k - 1) + (p + Zeros(|q| - k));
    var column := Scale(F, padded, q[k - 1]);
    var whole := PartialProduct(F, p, q, k);
    forall r | 0 <= r < |whole| ensures whole[r] == Xor(PartialProduct(F, p, q, k - 1)[r], column[r]) {
      assert padded[r] == CoefficientAt(p, r - (k - 1));
    }
    EvalXor(F, PartialProduct(F, p, q, k - 1), column, whole, x);
    EvalScale(F, padded, q[k - 1], x);
    EvalLeadingZeros(F, k - 1, p + Zeros(|q| - k), x);
    EvalTrailingZeros(F, p, |q| - k, x);
  }

  /** Evaluation of a product is the product of the values. */
  lemma EvalProduct(F: GF, p: seq<nat>, q: seq<nat>, x: nat)
    requires F.Primitive() && p != [] && q != [] && Word(F, p) && Word(F, q)
    ensures Eval(F, Product(F, p, q), x) == F.Mul(Eval(F, p, x), Eval(F, q, x))
  {
    hide Xor, GF.Mul, Eval;
    EvalPartialProduct(F, p, q, |q|, x);
    assert q[..|q|] == q;
    EvalInField(F, q, x);
    F.MulOne(Eval(F, q, x));
  }
}
