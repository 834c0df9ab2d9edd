/** The locator that the recurrence ends with is a shortest one, so that its degree is what the syndromes alone
    determine: the number of errors that the decoder reports. */
module Massey {
  import opened Bits
  import opened Galois
  import opened Polynomial
  import opened BerlekampMassey

  /** The values of the first n windows of s. */
  ghost function Windows(F: GF, p: seq<nat>, s: seq<nat>, n: nat): (r: seq<nat>)
    requires n + |p| <= |s| + 1
    ensures |r| == n
  {
    seq(n, k requires 0 <= k < n => At(F, p, s, k))
  }

  lemma {:induction false} DotZeros(F: GF, p: seq<nat>, z: seq<nat>)
    requires F.Primitive() && |p| == |z| && forall k :: 0 <= k < |z| ==> z[k] == 0
    ensures Dot(F, p, z) == 0
  {
    hide Xor, GF.Mul, GF.Primitive;
    if p != [] {
      DotZeros(F, p[1..], z[1..]);
      F.MulZero(p[0]);
      XorZero(0);
    }
  }

  /** A product of coefficient sequences is linear in the second one too. */
  lemma {:induction false} DotLinear(F: GF, p: seq<nat>, c: nat, u: seq<nat>, v: seq<nat>, w: seq<nat>)
    requires F.Primitive() && |p| == |u| == |v| == |w|
    requires forall k :: 0 <= k < |w| ==> w[k] == Xor(F.Mul(c, u[k]), v[k])
    ensures Dot(F, p, w) == Xor(F.Mul(c, Dot(F, p, u)), Dot(F, p, v))
  {
    hide Xor, GF.Mul, GF.Primitive;
    if p == [] {
      F.MulZero(c);
      XorZero(0);
    } else {
      DotLinear(F, p[1..], c, u[1..], v[1..], w[1..]);
      LinearTerm(F, p[0], c, u[0], v[0], w[0]);
      F.MulXor(c, F.Mul(p[0], u[0]), Dot(F, p[1..], u[1..]));
      XorSwap(F.Mul(c, F.Mul(p[0], u[0])), F.Mul(p[0], v[0]), F.Mul(c, Dot(F, p[1..], u[1..])), Dot(F, p[1..], v[1..]));
    }
  }

  lemma LinearTerm(F: GF, a: nat, c: nat, u: nat, v: nat, w: nat)
    requires F.Primitive() && w == Xor(F.Mul(c, u), v)
    ensures F.Mul(a, w) == Xor(F.Mul(c, F.Mul(a, u)), F.Mul(a, v))
  {
    hide Xor, GF.Mul, GF.Primitive;
    F.MulXor(a, F.Mul(c, u), v);
    F.MulAssoc(a, c, u);
    F.MulComm(a, c);
    F.MulAssoc(c, a, u);
  }

  /** Applying p to the windows of q is applying q to the windows of p. */
  lemma {:induction false} Swap(F: GF, p: seq<nat>, q: seq<nat>, s: seq<nat>)
    requires F.Primitive() && q != [] && |p| + |q| <= |s| + 1
    ensures Dot(F, p, Windows(F, q, s, |p|)) == Dot(F, q, Windows(F, p, s, |q|))
    decreases |p|
  {
    hide *;
    if p == [] {
      NoWindows(F, q, s);
    } else {
      Swap(F, p[1..], q, s[1..]);
      FirstWindow(F, p, q, s);
      DotLinear(F, q, p[0], s[..|q|], Windows(F, p[1..], s[1..], |q|), Windows(F, p, s, |q|));
    }
  }

  lemma NoWindows(F: GF, q: seq<nat>, s: seq<nat>)
    requires F.Primitive() && q != [] && |q| <= |s| + 1
    ensures Dot(F, [], Windows(F, q, s, 0)) == 0 == Dot(F, q, Windows(F, [], s, |q|))
  {
    hide Xor, GF.Mul, GF.Primitive;
    var z := Windows(F, [], s, |q|);
    forall k: nat | k < |q| ensures z[k] == 0 {}
    DotZeros(F, q, z);
  }

  lemma FirstWindow(F: GF, p: seq<nat>, q: seq<nat>, s: seq<nat>)
    requires F.Primitive() && p != [] && q != [] && |p| + |q| <= |s| + 1
    ensures Dot(F, p, Windows(F, q, s, |p|))
         == Xor(F.Mul(p[0], Dot(F, q, s[..|q|])), Dot(F, p[1..], Windows(F, q, s[1..], |p| - 1)))
    ensures forall k :: 0 <= k < |q| ==> Windows(F, p, s, |q|)[k] == Xor(F.Mul(p[0], s[..|q|][k]), Windows(F, p[1..], s[1..], |q|)[k])
  {
    hide *;
    var t := s[1..];
    LaterWindows(F, q, s, t, |p|);
    DotFirst(F, p, Windows(F, q, s, |p|));
    forall k: nat | k < |q|
      ensures Windows(F, p, s, |q|)[k] == Xor(F.Mul(p[0], s[k]), Windows(F, p[1..], t, |q|)[k])
    {
      WindowsAt(F, p, s, |q|, k);
      WindowsAt(F, p[1..], t, |q|, k);
      AtFirst(F, p, s, t, k);
    }
  }

  lemma WindowsAt(F: GF, p: seq<nat>, s: seq<nat>, n: nat, k: nat)
    requires n + |p| <= |s| + 1 && k < n
    ensures Windows(F, p, s, n)[k] == At(F, p, s, k)
  {
    hide At;
  }

  lemma LaterWindows(F: GF, q: seq<nat>, s: seq<nat>, t: seq<nat>, n: nat)
    requires n >= 1 && q != [] && n + |q| <= |s| + 1 && t == s[1..]
    ensures Windows(F, q, s, n)[1..] == Windows(F, q, t, n - 1)
    ensures Windows(F, q, s, n)[0] == Dot(F, q, s[..|q|])
  {
    hide Dot;
    assert s[1..|s|] == t;
    forall k: nat | k < n - 1 ensures Windows(F, q, s, n)[1..][k] == Windows(F, q, t, n - 1)[k] {
      Slice(s, 1, |s|, k, |q|);
      WindowsAt(F, q, s, n, k + 1);
      WindowsAt(F, q, t, n - 1, k);
    }
    assert s[0..0 + |q|] == s[..|q|];
  }

  lemma DotFirst(F: GF, p: seq<nat>, v: seq<nat>)
    requires |p| == |v| > 0
    ensures Dot(F, p, v) == Xor(F.Mul(p[0], v[0]), Dot(F, p[1..], v[1..]))
  {
    hide Xor, GF.Mul;
  }

  lemma AtFirst(F: GF, p: seq<nat>, s: seq<nat>, t: seq<nat>, k: nat)
    requires p != [] && k + |p| <= |s| && t == s[1..]
    ensures At(F, p, s, k) == Xor(F.Mul(p[0], s[k]), At(F, p[1..], t, k))
  {
    hide Xor, GF.Mul, Dot;
    DotFirst(F, p, s[k..k + |p|]);
    Slice(s, k, k + |p|, 1, |p| - 1);
    Slice(s, 1, |s|, k, |p| - 1);
    assert s[1..|s|] == t && s[k..k + |p|][1..] == s[k..k + |p|][1..1 + (|p| - 1)];
  }

  /** A window of a window. */
  lemma Slice(s: seq<nat>, a: nat, e: nat, k: nat, m: nat)
    requires a <= e <= |s| && k + m <= e - a
    ensures s[a..e][k..k + m] == s[a + k..a + k + m]
  {
    var left, right := s[a..e][k..k + m], s[a + k..a + k + m];
    forall j | 0 <= j < m ensures left[j] == right[j] {}
  }

  /** p is a recurrence for the first i syndromes: its last coefficient is one and it annihilates every window. */
  ghost predicate Recurs(F: GF, s: seq<nat>, i: nat, p: seq<nat>)
    requires i <= |s|
  {
    p != [] && p[|p| - 1] == 1 && Word(F, p) && Annihilates(F, s, i, p)
  }

  lemma {:induction false} DotLast(F: GF, p: seq<nat>, v: seq<nat>)
    requires F.Primitive() && |p| == |v| > 0 && p[|p| - 1] == 1 && F.InField(v[|v| - 1]) && forall k :: 0 <= k < |v| - 1 ==> v[k] == 0
    ensures Dot(F, p, v) == v[|v| - 1]
  {
    hide Xor, GF.Mul, GF.Primitive;
    if |p| == 1 {
      assert p[1..] == [] && v[1..] == [];
      F.MulOne(v[0]);
      F.MulComm(1, v[0]);
      XorZero(v[0]);
    } else {
      DotLast(F, p[1..], v[1..]);
      F.MulZero(p[0]);
      XorZero(v[|v| - 1]);
    }
  }

  /** When a recurrence for i syndromes fails at the next one, one that does not fail is long. */
  lemma LongEnough(F: GF, s: seq<nat>, i: nat, err: seq<nat>, p: seq<nat>)
    requires F.Primitive() && i < |s| && |err| <= i + 1 && Recurs(F, s, i, err) && Delta(F, s, i, err) != 0
    requires Recurs(F, s, i + 1, p)
    ensures |p| + |err| > i + 2
  {
    hide *;
    RecursNot(F, s, i, err);
    RecursNot(F, s, i + 1, p);
    if |p| + |err| <= i + 2 {
      var a: nat := i + 2 - |p| - |err|;
      var t := s[a..i + 1];
      var u, v := Windows(F, err, t, |p|), Windows(F, p, t, |err|);
      forall k: nat | k < |p| ensures u[k] == At(F, err, s, a + k) {
        WindowsAt(F, err, t, |p|, k);
        AtInside(F, err, s, a, i + 1, k);
      }
      forall k: nat | k < |err| ensures v[k] == 0 {
        WindowsAt(F, p, t, |err|, k);
        AtInside(F, p, s, a, i + 1, k);
        AnnihilatesAt(F, s, i + 1, p, a + k);
      }
      forall k: nat | k < |p| - 1 ensures u[k] == 0 { AnnihilatesAt(F, s, i, err, a + k); }
      Swap(F, p, err, t);
      DotZeros(F, err, v);
      DeltaIs(F, s, i, err);
      DotLast(F, p, u);
    }
  }

  lemma RecursNot(F: GF, s: seq<nat>, i: nat, p: seq<nat>)
    requires i <= |s| && Recurs(F, s, i, p)
    ensures p != [] && p[|p| - 1] == 1 && Annihilates(F, s, i, p)
  {
    hide Annihilates;
  }

  lemma AnnihilatesAt(F: GF, s: seq<nat>, i: nat, p: seq<nat>, k: nat)
    requires i <= |s| && Annihilates(F, s, i, p) && k + |p| <= i
    ensures At(F, p, s, k) == 0
  {
    hide At;
  }

  lemma DeltaIs(F: GF, s: seq<nat>, i: nat, err: seq<nat>)
    requires F.Primitive() && 1 <= |err| <= i + 1 <= |s|
    ensures Delta(F, s, i, err) == At(F, err, s, i + 1 - |err|) && F.InField(Delta(F, s, i, err))
  {
    hide At;
    DeltaInField(F, s, i, err);
  }

  lemma AtInside(F: GF, p: seq<nat>, s: seq<nat>, a: nat, e: nat, k: nat)
    requires a <= e <= |s| && k + |p| <= e - a
    ensures At(F, p, s[a..e], k) == At(F, p, s, a + k)
  {
    hide Dot;
    Slice(s, a, e, k, |p|);
  }

  /** No recurrence is shorter than the locator. */
  lemma {:induction false} Shortest(F: GF, s: seq<nat>, i: nat, p: seq<nat>)
    requires F.Primitive() && i <= |s| && Recurs(F, s, i, p)
    ensures |p| >= |Run(F, s, i).err|
  {
    hide Xor, GF.Mul, GF.Inv, At, Add, Scale, Dot, UnitAt, Delta, GF.Primitive;
    if i > 0 {
      RunConsistent(F, s, i - 1);
      Earlier(F, s, i, p);
      Shortest(F, s, i - 1, p);
      var st := Run(F, s, i - 1);
      if |Run(F, s, i).err| > |st.err| { LongEnough(F, s, i - 1, st.err, p); }
    }
  }

  lemma Earlier(F: GF, s: seq<nat>, i: nat, p: seq<nat>)
    requires 0 < i <= |s| && Recurs(F, s, i, p)
    ensures Recurs(F, s, i - 1, p)
  {
    hide At;
  }

  /** n is the degree of the shortest recurrences for s. */
  ghost predicate Complexity(F: GF, s: seq<nat>, n: nat) {
    && (exists p :: |p| == n + 1 && Recurs(F, s, |s|, p))
    && (forall p :: Recurs(F, s, |s|, p) ==> |p| > n)
  }

  /** The degree of the locator is the degree of the shortest recurrences. */
  lemma ComplexityIff(F: GF, s: seq<nat>, n: nat)
    requires F.Primitive()
    ensures Complexity(F, s, n) <==> n == |Run(F, s, |s|).err| - 1
  {
    hide Xor, GF.Mul, GF.Inv, Annihilates, UnitAt, Run, GF.Primitive;
    RunConsistent(F, s, |s|);
    var err := Run(F, s, |s|).err;
    assert Recurs(F, s, |s|, err);
    forall p | Recurs(F, s, |s|, p) ensures |p| >= |err| { Shortest(F, s, |s|, p); }
  }
}
