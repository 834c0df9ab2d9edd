/** The Berlekamp-Massey recurrence as the decoder runs it, and why its result locates the errors. */
module BerlekampMassey {
  import opened Bits
  import opened Galois
  import opened Polynomial

  /** The error locator so far, and the previous one shifted and scaled to discrepancy one. */
  datatype State = State(err: seq<nat>, prev: seq<nat>)

  /** p applied to the window of s that starts at k. */
  ghost function At(F: GF, p: seq<nat>, s: seq<nat>, k: nat): nat
    requires k + |p| <= |s|
  {
    Dot(F, p, s[k..k + |p|])
  }

  /** The discrepancy of err at syndrome i. */
  ghost function Delta(F: GF, s: seq<nat>, i: nat, err: seq<nat>): nat
    requires 1 <= |err| <= i + 1 <= |s|
  {
    At(F, err, s, i + 1 - |err|)
  }

  ghost function Step(F: GF, s: seq<nat>, i: nat, st: State): (r: State)
    requires 1 <= |st.err| <= i + 1 <= |s|
    ensures |r.err| >= |st.err| && |r.err| + |r.prev| == |st.err| + |st.prev| + 1
  {
    var prev := st.prev + [0];
    var d := Delta(F, s, i, st.err);
    if d == 0 then
      State(st.err, prev)
    else if |prev| > |st.err| then
      var next := Scale(F, st.err, F.Inv(d));
      State(Add(Scale(F, prev, d), Scale(F, next, d)), next)
    else
      State(Add(st.err, Scale(F, prev, d)), prev)
  }

  /** The state after the first i syndromes. */
  ghost function Run(F: GF, s: seq<nat>, i: nat): (st: State)
    requires i <= |s|
    ensures 1 <= |st.err| && 1 <= |st.prev| && |st.err| + |st.prev| == i + 2
  {
    if i == 0 then State([1], [1]) else Step(F, s, i - 1, Run(F, s, i - 1))
  }

  /** err annihilates every window of syndromes that ends before i. */
  ghost predicate Annihilates(F: GF, s: seq<nat>, i: nat, err: seq<nat>)
    requires i <= |s|
  {
    forall k: nat :: k + |err| <= i ==> At(F, err, s, k) == 0
  }

  /** prev annihilates every window that ends before i - 1 and gives one on the window that ends there. */
  ghost predicate UnitAt(F: GF, s: seq<nat>, i: nat, prev: seq<nat>)
    requires i <= |s|
  {
    && |prev| <= i
    && At(F, prev, s, i - |prev|) == 1
    && forall k: nat :: k + |prev| < i ==> At(F, prev, s, k) == 0
  }

  ghost predicate Consistent(F: GF, s: seq<nat>, i: nat, st: State)
    requires i <= |s|
  {
    && 1 <= |st.err| && 1 <= |st.prev| && |st.err| + |st.prev| == i + 2
    && Word(F, st.err) && Word(F, st.prev)
    && st.err[|st.err| - 1] == 1
    && Annihilates(F, s, i, st.err)
    && (|st.err| > 1 ==> UnitAt(F, s, i, st.prev))
  }

  lemma DotInField(F: GF, p: seq<nat>, s: seq<nat>)
    requires F.Primitive() && |p| == |s|
    ensures F.InField(Dot(F, p, s))
  {
    hide Xor, GF.Mul;
    if p != [] {
      DotInField(F, p[1..], s[1..]);
      F.MulInField(p[0], s[0]);
      XorBelow(F.Mul(p[0], s[0]), Dot(F, p[1..], s[1..]), F.bits);
    }
  }

  lemma AddLast(p: seq<nat>, q: seq<nat>)
    requires p != [] && q != []
    ensures Add(p, q)[Longer(p, q) - 1] == Xor(p[|p| - 1], q[|q| - 1])
  {
    hide Xor;
  }

  /** Scaling by the inverse of d and back by d changes nothing. */
  lemma ScaleBack(F: GF, p: seq<nat>, d: nat)
    requires F.Primitive() && Word(F, p) && F.InField(d) && d != 0
    ensures Scale(F, Scale(F, p, F.Inv(d)), d) == p
  {
    hide Xor, GF.Mul, GF.Inv;
    F.MulInv(d);
    F.MulComm(d, F.Inv(d));
    forall i | 0 <= i < |p| ensures F.Mul(F.Mul(p[i], F.Inv(d)), d) == p[i] {
      F.MulAssoc(p[i], F.Inv(d), d);
      F.MulOne(p[i]);
    }
  }

  /** The last coefficient of err plus a scaled shift of prev is that of err. */
  lemma LastStaysOne(F: GF, err: seq<nat>, prev: seq<nat>, d: nat)
    requires F.Primitive() && err != [] && Word(F, err)
    ensures var r := Add(Scale(F, prev + [0], d), err); r[|r| - 1] == err[|err| - 1]
  {
    hide Xor, GF.Mul, Add;
    AddLast(Scale(F, prev + [0], d), err);
    F.MulZero(d);
    XorZero(err[|err| - 1]);
  }

  lemma ShiftedWindow(F: GF, s: seq<nat>, prev: seq<nat>, d: nat)
    requires F.Primitive() && |s| == |prev| + 1
    ensures Dot(F, Scale(F, prev + [0], d), s) == F.Mul(d, Dot(F, prev, s[..|prev|]))
  {
    hide Xor, GF.Mul, Dot, Scale;
    DotScale(F, prev + [0], d, s);
    DotAppendZero(F, prev, s);
  }

  /** A window of the updated locator: the shifted part and the current part. */
  lemma UpdateWindow(F: GF, s: seq<nat>, err: seq<nat>, prev: seq<nat>, d: nat, k: nat)
    requires F.Primitive() && err != []
    requires k + Longer(prev + [0], err) <= |s|
    ensures var e := k + Longer(prev + [0], err);
      At(F, Add(Scale(F, prev + [0], d), err), s, k)
        == Xor(F.Mul(d, At(F, prev, s, e - 1 - |prev|)), At(F, err, s, e - |err|))
  {
    hide Xor, GF.Mul, GF.Primitive, Add, Dot, Scale;
    var o := Scale(F, prev + [0], d);
    var e := k + Longer(o, err);
    hide At;
    ShiftedSuffix(F, s, prev, d, k, e);
    AtSuffix(F, err, s, k, e);
    DotAdd(F, o, err, s[k..e]);
    AtIs(F, Add(o, err), s, k, e);
  }

  lemma AtIs(F: GF, p: seq<nat>, s: seq<nat>, k: nat, e: nat)
    requires k + |p| == e <= |s|
    ensures At(F, p, s, k) == Dot(F, p, s[k..e])
  {
  }

  /** The end of a window is a window. */
  lemma AtSuffix(F: GF, p: seq<nat>, s: seq<nat>, k: nat, e: nat)
    requires k + |p| <= e <= |s|
    ensures var t := s[k..e]; Dot(F, p, t[|t| - |p|..]) == At(F, p, s, e - |p|)
  {
    hide Dot;
    var t := s[k..e];
    assert t[|t| - |p|..] == s[e - |p|..e - |p| + |p|];
  }

  lemma ShiftedSuffix(F: GF, s: seq<nat>, prev: seq<nat>, d: nat, k: nat, e: nat)
    requires F.Primitive() && k + |prev| + 1 <= e <= |s|
    ensures var t, o := s[k..e], Scale(F, prev + [0], d);
      |o| == |prev| + 1 && Dot(F, o, t[|t| - |o|..]) == F.Mul(d, At(F, prev, s, e - 1 - |prev|))
  {
    var o := Scale(F, prev + [0], d);
    hide GF.Mul, GF.Primitive, Dot, Scale;
    var t := s[k..e];
    var u := t[|t| - |o|..];
    ShiftedWindow(F, u, prev, d);
    assert u[..|prev|] == s[e - 1 - |prev|..e - 1 - |prev| + |prev|];
  }

  /** The updated locator annihilates every window up to and including i. */
  lemma UpdateAnnihilates(F: GF, s: seq<nat>, i: nat, st: State)
    requires F.Primitive() && i < |s| && Consistent(F, s, i, st)
    ensures var d := Delta(F, s, i, st.err);
      Annihilates(F, s, i + 1, Add(Scale(F, st.prev + [0], d), st.err))
  {
    hide Xor, GF.Mul, Add, At;
    var err, prev := st.err, st.prev;
    var d := Delta(F, s, i, err);
    var n := Longer(prev + [0], err);
    DeltaInField(F, s, i, err);
    F.MulZero(d);
    F.MulOne(d);
    forall k: nat | k + n <= i + 1
      ensures At(F, Add(Scale(F, prev + [0], d), err), s, k) == 0
    {
      UpdateWindow(F, s, err, prev, d, k);
      XorZero(0);
      XorSelf(d);
    }
  }

  lemma DeltaInField(F: GF, s: seq<nat>, i: nat, err: seq<nat>)
    requires F.Primitive() && 1 <= |err| <= i + 1 <= |s|
    ensures F.InField(Delta(F, s, i, err))
  {
    hide Xor, GF.Mul, Dot;
    DotInField(F, err, s[i + 1 - |err|..i + 1]);
  }

  /** After a jump, the scaled old locator gives one at i and zero before. */
  lemma ScaledUnit(F: GF, s: seq<nat>, i: nat, err: seq<nat>)
    requires F.Primitive() && 1 <= |err| <= i + 1 <= |s| && Annihilates(F, s, i, err)
    requires Delta(F, s, i, err) != 0
    ensures UnitAt(F, s, i + 1, Scale(F, err, F.Inv(Delta(F, s, i, err))))
  {
    hide Xor, GF.Mul, GF.Inv, Scale, Dot;
    var d := Delta(F, s, i, err);
    DeltaInField(F, s, i, err);
    F.MulInv(d);
    F.MulComm(d, F.Inv(d));
    F.MulZero(F.Inv(d));
    forall k: nat | k + |err| <= i + 1
      ensures At(F, Scale(F, err, F.Inv(d)), s, k) == F.Mul(F.Inv(d), At(F, err, s, k))
    {
      DotScale(F, err, F.Inv(d), s[k..k + |err|]);
    }
  }

  /** Without a jump, shifting the old locator keeps its window values one step later. */
  lemma ShiftedUnit(F: GF, s: seq<nat>, i: nat, prev: seq<nat>)
    requires i < |s| && UnitAt(F, s, i, prev)
    ensures UnitAt(F, s, i + 1, prev + [0])
  {
    hide Xor, GF.Mul, Dot;
    forall k: nat | k + |prev| + 1 <= i + 1
      ensures At(F, prev + [0], s, k) == At(F, prev, s, k)
    {
      var t := s[k..k + |prev| + 1];
      DotAppendZero(F, prev, t);
      assert t[..|prev|] == s[k..k + |prev|];
    }
  }

  /** One step in the form the proofs use: the updated locator is the shifted part plus the current part. */
  lemma StepForm(F: GF, s: seq<nat>, i: nat, st: State)
    requires F.Primitive() && i < |s| && Consistent(F, s, i, st)
    ensures var d, r := Delta(F, s, i, st.err), Step(F, s, i, st);
      && (d == 0 ==> r == State(st.err, st.prev + [0]))
      && (d != 0 ==> r.err == Add(Scale(F, st.prev + [0], d), st.err))
      && (d != 0 ==> r.prev == if |st.prev| + 1 > |st.err| then Scale(F, st.err, F.Inv(d)) else st.prev + [0])
  {
    hide Xor, GF.Mul, GF.Inv, Add, Dot, Scale;
    var d := Delta(F, s, i, st.err);
    if d != 0 {
      DeltaInField(F, s, i, st.err);
      ScaleBack(F, st.err, d);
      AddComm(st.err, Scale(F, st.prev + [0], d));
    }
  }

  lemma ZeroDelta(F: GF, s: seq<nat>, i: nat, err: seq<nat>)
    requires 1 <= |err| <= i + 1 <= |s| && Annihilates(F, s, i, err) && Delta(F, s, i, err) == 0
    ensures Annihilates(F, s, i + 1, err)
  {
    hide At;
  }

  /** One iteration keeps the loop invariant. */
  lemma {:induction false} StepConsistent(F: GF, s: seq<nat>, i: nat, st: State)
    requires F.Primitive() && i < |s| && Consistent(F, s, i, st)
    ensures Consistent(F, s, i + 1, Step(F, s, i, st))
  {
    hide Xor, GF.Mul, GF.Inv, Add, Dot, Scale, At, Annihilates, UnitAt;
    StepForm(F, s, i, st);
    var err, prev, d, r := st.err, st.prev, Delta(F, s, i, st.err), Step(F, s, i, st);
    hide Step, Delta;
    if |err| > 1 { ShiftedUnit(F, s, i, prev); }
    F.OrderPositive();
    assert Word(F, prev + [0]);
    if d == 0 {
      ZeroDelta(F, s, i, err);
    } else {
      UpdateAnnihilates(F, s, i, st);
      LastStaysOne(F, err, prev, d);
      ScaleInField(F, prev + [0], d);
      AddInField(F, Scale(F, prev + [0], d), err);
      if |prev| + 1 > |err| {
        ScaledUnit(F, s, i, err);
        ScaleInField(F, err, F.Inv(d));
      }
    }
  }

  /** The loop invariant holds before every iteration. */
  lemma {:induction false} RunConsistent(F: GF, s: seq<nat>, i: nat)
    requires F.Primitive() && i <= |s|
    ensures Consistent(F, s, i, Run(F, s, i))
  {
    hide Xor, GF.Mul, Step, At;
    F.OrderPositive();
    if i > 0 {
      RunConsistent(F, s, i - 1);
      StepConsistent(F, s, i - 1, Run(F, s, i - 1));
    }
  }

  // ---------------------------------------------------------------- the locator found

  /** s holds the power sums of weights ys, none of them zero, at distinct locators xs. */
  ghost predicate Pattern(F: GF, s: seq<nat>, ys: seq<nat>, xs: seq<nat>) {
    && |ys| == |xs|
    && Word(F, ys) && Word(F, xs) && Distinct(xs)
    && IsPowerSums(F, s, ys, xs, 0)
    && forall i :: 0 <= i < |ys| ==> ys[i] != 0
  }

  /** A window value is the power sum of the weights multiplied by the values of err. */
  lemma WindowPowerSum(F: GF, s: seq<nat>, ys: seq<nat>, xs: seq<nat>, err: seq<nat>, k: nat)
    requires F.Primitive() && |ys| == |xs| && IsPowerSums(F, s, ys, xs, 0) && k + |err| <= |s|
    ensures At(F, err, s, k) == PowerSum(F, Weighted(F, err, ys, xs), xs, k)
  {
    hide Xor, GF.Mul, Dot, PowerSum, Weighted;
    var t := s[k..k + |err|];
    forall m | 0 <= m < |t| ensures t[m] == PowerSum(F, ys, xs, k + m) {
      assert s[k + m] == PowerSum(F, ys, xs, 0 + (k + m));
    }
    DotPowerSums(F, err, t, ys, xs, k);
  }

  /** A locator that annihilates as many windows as there are errors vanishes at every error. */
  lemma AnnihilatorVanishes(F: GF, s: seq<nat>, ys: seq<nat>, xs: seq<nat>, i: nat, err: seq<nat>)
    requires F.Primitive() && Pattern(F, s, ys, xs) && 1 <= |err| && i <= |s|
    requires Annihilates(F, s, i, err) && |err| + |xs| <= i + 1
    ensures AllZero(Weighted(F, err, ys, xs))
  {
    hide Xor, GF.Mul, PowerSum, Weighted, At;
    var zs := Weighted(F, err, ys, xs);
    forall j | 0 <= j < |xs| ensures PowerSum(F, zs, xs, j) == 0 {
      WindowPowerSum(F, s, ys, xs, err, j);
    }
    WeightedInField(F, err, ys, xs);
    Elimination(F, zs, xs, |xs|);
  }

  /** The locator never gets longer than the number of errors allows. */
  lemma {:induction false} LengthBound(F: GF, s: seq<nat>, ys: seq<nat>, xs: seq<nat>, i: nat)
    requires F.Primitive() && Pattern(F, s, ys, xs) && i <= |s|
    ensures |Run(F, s, i).err| <= |xs| + 1
  {
    hide Xor, GF.Mul, GF.Inv, At, PowerSum, Add, Scale, Annihilates, UnitAt, Weighted;
    if i > 0 {
      LengthBound(F, s, ys, xs, i - 1);
      RunConsistent(F, s, i - 1);
      var st := Run(F, s, i - 1);
      if |Run(F, s, i).err| > |xs| + 1 {
        assert |Run(F, s, i).err| == |st.prev| + 1;
        AnnihilatorVanishes(F, s, ys, xs, i - 1, st.err);
        WindowPowerSum(F, s, ys, xs, st.err, i - |st.err|);
        PowerSumZero(F, Weighted(F, st.err, ys, xs), xs, i - |st.err|);
        assert false;
      }
    }
  }

  /** With at least twice as many syndromes as errors, the roots of the locator are exactly the errors. */
  lemma Locates(F: GF, s: seq<nat>, ys: seq<nat>, xs: seq<nat>, x: nat)
    requires F.Primitive() && Pattern(F, s, ys, xs) && 2 * |xs| <= |s| && F.InField(x)
    ensures |Run(F, s, |s|).err| == |xs| + 1
    ensures EvalLow(F, Run(F, s, |s|).err, x) == 0 <==> x in xs
  {
    hide Xor, GF.Mul, At, PowerSum, EvalLow, Annihilates, UnitAt, Run;
    LengthBound(F, s, ys, xs, |s|);
    RunConsistent(F, s, |s|);
    var err := Run(F, s, |s|).err;
    AnnihilatorVanishes(F, s, ys, xs, |s|, err);
    forall i | 0 <= i < |xs| ensures EvalLow(F, err, xs[i]) == 0 {
      assert Weighted(F, err, ys, xs)[i] == 0;
      EvalLowInField(F, err, xs[i]);
      if EvalLow(F, err, xs[i]) != 0 { F.MulNonzero(ys[i], EvalLow(F, err, xs[i])); }
    }
    if |err| <= |xs| {
      RootCount(F, err, xs);
      assert false;
    }
    if x !in xs && EvalLow(F, err, x) == 0 {
      RootCount(F, err, xs + [x]);
      assert false;
    }
  }

  /** Syndromes that are not all zero give a locator of positive degree. */
  lemma NonzeroLength(F: GF, s: seq<nat>)
    requires F.Primitive() && Word(F, s) && !AllZero(s)
    ensures |Run(F, s, |s|).err| > 1
  {
    hide Xor, GF.Mul, Run;
    RunConsistent(F, s, |s|);
    var err := Run(F, s, |s|).err;
    if |err| == 1 {
      forall k: nat | k < |s| ensures s[k] == 0 {
        assert At(F, err, s, k) == 0;
        assert err == [1] && err[1..] == [] && s[k..k + 1] == [s[k]] && s[k..k + 1][1..] == [];
        assert Dot(F, err, s[k..k + 1]) == Xor(F.Mul(1, s[k]), 0);
        F.MulOne(s[k]);
        XorZero(s[k]);
      }
      assert false;
    }
  }
}
