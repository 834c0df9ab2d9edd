/** Cyclic redundancy checks as division of bit strings, and what they detect. Bits are the coefficients
    of a polynomial, highest exponent first. */
module Cyclic {

  /** The coefficients below the leading one; the constant coefficient is one. */
  predicate Generator(g: seq<bool>): (r: bool)
    ensures r ==> |g| > 0
  {
    g != [] && g[|g| - 1]
  }

  function Plus(a: seq<bool>, b: seq<bool>): (r: seq<bool>)
    requires |a| == |b|
    ensures |r| == |a|
  {
    seq(|a|, i requires 0 <= i < |a| => a[i] != b[i])
  }

  function None(n: nat): (r: seq<bool>)
    ensures |r| == n && forall i :: 0 <= i < n ==> !r[i]
  {
    seq(n, i => false)
  }

  function When(t: bool, g: seq<bool>): (r: seq<bool>)
    ensures |r| == |g|
  {
    if t then g else None(|g|)
  }

  /** Shift one message bit into the register. */
  function Step(g: seq<bool>, c: seq<bool>, b: bool): (r: seq<bool>)
    requires |c| == |g| > 0
    ensures |r| == |g|
  {
    Plus(c[1..] + [false], When(c[0] != b, g))
  }

  /** The register after a message. */
  function Remainder(g: seq<bool>, c: seq<bool>, bits: seq<bool>): (r: seq<bool>)
    requires |c| == |g| > 0
    ensures |r| == |g|
    decreases |bits|
  {
    if bits == [] then c else Step(g, Remainder(g, c, bits[..|bits| - 1]), bits[|bits| - 1])
  }

  lemma {:induction false} RemainderConcat(g: seq<bool>, c: seq<bool>, a: seq<bool>, b: seq<bool>)
    requires |c| == |g| > 0
    ensures Remainder(g, c, a + b) == Remainder(g, Remainder(g, c, a), b)
    decreases |b|
  {
    hide Step;
    if b == [] {
      assert a + b == a;
    } else {
      assert (a + b)[..|a + b| - 1] == a + b[..|b| - 1];
      RemainderConcat(g, c, a, b[..|b| - 1]);
    }
  }

  // ---------------------------------------------------------------- long division

  /** The quotient's bits: where the generator is subtracted. */
  function Quotient(g: seq<bool>, bits: seq<bool>): (q: seq<bool>)
    requires g != []
    ensures |q| == |bits|
    decreases |bits|
  {
    if bits == [] then []
    else
      var w := |bits| - 1;
      Quotient(g, bits[..w]) + [Remainder(g, None(|g|), bits[..w])[0] != bits[w]]
  }

  /** The product of q and the generator [true] + g. */
  function Times(q: seq<bool>, g: seq<bool>): (p: seq<bool>)
    ensures |p| == |q| + |g|
    decreases |q|
  {
    if q == [] then None(|g|)
    else
      var w := |q| - 1;
      Plus(Times(q[..w], g) + [false], None(w) + When(q[w], [true] + g))
  }

  /** The register started at zero is the remainder of the message, shifted by the register's width,
      divided by the generator. */
  lemma {:induction false} IsDivision(g: seq<bool>, bits: seq<bool>)
    requires g != []
    ensures bits + None(|g|)
         == Plus(Times(Quotient(g, bits), g), None(|bits|) + Remainder(g, None(|g|), bits))
    decreases |bits|
  {
    hide Remainder, Quotient, Times;
    if bits == [] {
      DivisionStart(g);
    } else {
      var w := |bits| - 1;
      IsDivision(g, bits[..w]);
      DivisionStep(g, bits);
      DivisionSum(Times(Quotient(g, bits[..w]), g), Remainder(g, None(|g|), bits[..w]), g, bits);
    }
  }

  /** One more bit of the message on both sides of the division. */
  lemma DivisionSum(p: seq<bool>, c: seq<bool>, g: seq<bool>, bits: seq<bool>)
    requires g != [] && bits != [] && |c| == |g| && |p| == |bits| - 1 + |g|
    requires bits[..|bits| - 1] + None(|g|) == Plus(p, None(|bits| - 1) + c)
    ensures var w := |bits| - 1; var t := c[0] != bits[w];
      bits + None(|g|) == Plus(Plus(p + [false], None(w) + When(t, [true] + g)), None(w + 1) + Plus(c[1..] + [false], When(t, g)))
  {
    var w, n := |bits| - 1, |g|;
    var t := c[0] != bits[w];
    var a, d, e := p + [false], None(w) + When(t, [true] + g), Plus(c[1..] + [false], When(t, g));
    var right := Plus(Plus(a, d), None(w + 1) + e);
    forall i: nat | i < w + 1 + n ensures (bits + None(n))[i] == right[i] {
      PlusAt(Plus(a, d), None(w + 1) + e, i);
      PlusAt(a, d, i);
      if i > w { PlusAt(c[1..] + [false], When(t, g), i - (w + 1)); }
      if i < w + n { PlusAt(p, None(w) + c, i); }
      hide Plus, None;
      assert (bits + None(n))[i] == (if i <= w then bits[i] else false);
      assert i < w + n ==> (bits[..w] + None(n))[i] == (if i < w then bits[i] else false);
    }
  }

  lemma DivisionStart(g: seq<bool>)
    requires g != []
    ensures Quotient(g, []) == [] && Times([], g) == None(|g|) && Remainder(g, None(|g|), []) == None(|g|)
  {
  }

  lemma DivisionStep(g: seq<bool>, bits: seq<bool>)
    requires g != [] && bits != []
    ensures var w := |bits| - 1; var n := |g|;
      var q, c := Quotient(g, bits[..w]), Remainder(g, None(n), bits[..w]);
      var t := c[0] != bits[w];
      && Times(Quotient(g, bits), g) == Plus(Times(q, g) + [false], None(w) + When(t, [true] + g))
      && Remainder(g, None(n), bits) == Plus(c[1..] + [false], When(t, g))
  {
    hide Plus, When;
    var w := |bits| - 1;
    assert Quotient(g, bits)[..w] == Quotient(g, bits[..w]);
  }

  lemma {:induction false} TimesNone(n: nat, g: seq<bool>)
    ensures Times(None(n), g) == None(n + |g|)
  {
    if n > 0 {
      TimesNone(n - 1, g);
      assert None(n)[..n - 1] == None(n - 1);
    }
  }

  lemma {:induction false} TimesPlus(a: seq<bool>, b: seq<bool>, g: seq<bool>)
    requires |a| == |b|
    ensures Times(Plus(a, b), g) == Plus(Times(a, g), Times(b, g))
    decreases |a|
  {
    if a != [] {
      var w := |a| - 1;
      assert Plus(a, b)[..w] == Plus(a[..w], b[..w]) && Plus(a, b)[w] == (a[w] != b[w]);
      hide *;
      TimesPlus(a[..w], b[..w], g);
      TimesStep(a, g);
      TimesStep(b, g);
      TimesStep(Plus(a, b), g);
      SumStep(Times(a[..w], g), Times(b[..w], g), a[w], b[w], w, g, Plus(a, b));
    } else {
      assert Plus(a, b) == a == b;
      TimesEmpty(g);
    }
  }

  lemma SumStep(p: seq<bool>, q: seq<bool>, a: bool, b: bool, w: nat, g: seq<bool>, sum: seq<bool>)
    requires |p| == |q| == w + |g| && |sum| == w + 1 && sum[w] == (a != b)
    ensures Plus(Plus(p, q) + [false], None(w) + When(sum[w], [true] + g))
         == Plus(Plus(p + [false], None(w) + When(a, [true] + g)), Plus(q + [false], None(w) + When(b, [true] + g)))
  {
  }

  lemma TimesEmpty(g: seq<bool>)
    ensures Times([], g) == Plus(Times([], g), Times([], g))
  {
  }

  lemma TimesStep(q: seq<bool>, g: seq<bool>)
    requires q != []
    ensures Times(q, g) == Plus(Times(q[..|q| - 1], g) + [false], None(|q| - 1) + When(q[|q| - 1], [true] + g))
  {
    hide Plus, When;
  }

  /** A multiple of the generator shows the quotient's leading coefficient. */
  lemma {:induction false} TimesHead(q: seq<bool>, g: seq<bool>)
    requires forall i :: 0 <= i < |q| ==> !Times(q, g)[i]
    ensures q == None(|q|)
    decreases |q|
  {
    hide Times;
    if q != [] {
      var w := |q| - 1;
      TimesLast(q, g);
      TimesHead(q[..w], g);
      TimesNone(w, g);
      assert !Times(q, g)[w];
    }
  }

  lemma TimesLast(q: seq<bool>, g: seq<bool>)
    requires q != []
    ensures var w := |q| - 1;
      && (forall i :: 0 <= i < w ==> Times(q, g)[i] == Times(q[..w], g)[i])
      && Times(q, g)[w] == ((Times(q[..w], g) + [false])[w] != q[w])
  {
  }

  // ---------------------------------------------------------------- linearity

  lemma StepPlus(g: seq<bool>, c: seq<bool>, d: seq<bool>, a: bool, b: bool)
    requires |c| == |d| == |g| > 0
    ensures Step(g, Plus(c, d), a != b) == Plus(Step(g, c, a), Step(g, d, b))
  {
  }

  lemma {:induction false} Linear(g: seq<bool>, c: seq<bool>, d: seq<bool>, a: seq<bool>, b: seq<bool>)
    requires |c| == |d| == |g| > 0 && |a| == |b|
    ensures Remainder(g, Plus(c, d), Plus(a, b)) == Plus(Remainder(g, c, a), Remainder(g, d, b))
    decreases |a|
  {
    hide Step;
    if a != [] {
      var w := |a| - 1;
      Linear(g, c, d, a[..w], b[..w]);
      assert Plus(a, b)[..w] == Plus(a[..w], b[..w]);
      StepPlus(g, Remainder(g, c, a[..w]), Remainder(g, d, b[..w]), a[w], b[w]);
    }
  }

  lemma PlusZero(a: seq<bool>, b: seq<bool>)
    requires |a| == |b|
    ensures Plus(a, b) == None(|a|) <==> a == b
  {
    forall i | 0 <= i < |a| ensures Plus(a, b)[i] == (a[i] != b[i]) {}
    if Plus(a, b) == None(|a|) {
      forall i | 0 <= i < |a| ensures a[i] == b[i] { assert !Plus(a, b)[i]; }
    }
  }

  lemma PlusAt(a: seq<bool>, b: seq<bool>, i: nat)
    requires i < |a| == |b|
    ensures Plus(a, b)[i] == (a[i] != b[i])
  {
  }

  /** The difference of two messages leaves zero exactly when they leave the same. */
  lemma DifferenceLeaves(g: seq<bool>, c: seq<bool>, w: seq<bool>, v: seq<bool>)
    requires |c| == |g| > 0 && |w| == |v|
    ensures Remainder(g, c, w) == Remainder(g, c, v) <==> Remainder(g, None(|g|), Plus(w, v)) == None(|g|)
  {
    PlusZero(c, c);
    hide *;
    Linear(g, c, c, w, v);
    PlusZero(Remainder(g, c, w), Remainder(g, c, v));
  }

  /** Shifted by the register's width and divided without remainder, a message is a multiple. */
  lemma WholeIsMultiple(g: seq<bool>, e: seq<bool>)
    requires g != [] && Remainder(g, None(|g|), e) == None(|g|)
    ensures Times(Quotient(g, e), g) == e + None(|g|)
  {
    hide Remainder, Times, Quotient;
    IsDivision(g, e);
    var p, z := Times(Quotient(g, e), g), None(|e|) + None(|g|);
    assert Plus(p, z) == p;
  }

  /** Two multiples of the generator that agree above the register's width are the same multiple. */
  lemma QuotientUnique(g: seq<bool>, a: seq<bool>, b: seq<bool>)
    requires |a| == |b| && forall i :: 0 <= i < |a| ==> Times(a, g)[i] == Times(b, g)[i]
    ensures Times(a, g) == Times(b, g)
  {
    hide Times, Plus;
    var p, q, d := Times(a, g), Times(b, g), Plus(a, b);
    TimesPlus(a, b, g);
    forall i | 0 <= i < |d| ensures !Times(d, g)[i] { PlusAt(p, q, i); }
    TimesHead(d, g);
    TimesNone(|d|, g);
    PlusZero(p, q);
  }

  lemma MultipleIsWhole(g: seq<bool>, e: seq<bool>, q: seq<bool>)
    requires g != [] && |q| == |e| && Times(q, g) == e + None(|g|)
    ensures Remainder(g, None(|g|), e) == None(|g|)
  {
    hide Remainder, Times, Quotient, Plus;
    var r, p, t := Remainder(g, None(|g|), e), Quotient(g, e), Times(q, g);
    IsDivision(g, e);
    var z := None(|e|) + r;
    forall i | 0 <= i < |e| ensures Times(p, g)[i] == t[i] { PlusAt(Times(p, g), z, i); }
    QuotientUnique(g, p, q);
    forall i | 0 <= i < |g| ensures !r[i] { PlusAt(Times(p, g), z, |e| + i); }
  }

  /** A change to a message goes unnoticed exactly when the changed bits are a multiple of the generator. */
  lemma UndetectedIff(g: seq<bool>, c: seq<bool>, w: seq<bool>, v: seq<bool>)
    requires |c| == |g| > 0 && |w| == |v|
    ensures Remainder(g, c, w) == Remainder(g, c, v)
       <==> exists q :: |q| == |w| && Times(q, g) == Plus(w, v) + None(|g|)
  {
    hide *;
    var e := Plus(w, v);
    DifferenceLeaves(g, c, w, v);
    if Remainder(g, None(|g|), e) == None(|g|) {
      WholeIsMultiple(g, e);
      assert |Quotient(g, e)| == |w|;
    }
    if q :| |q| == |w| && Times(q, g) == e + None(|g|) { MultipleIsWhole(g, e, q); }
  }

  // ---------------------------------------------------------------- injectivity

  /** Feeding at most as many bits as the register holds is adding them to it and feeding zeros. */
  lemma {:induction false} Feed(g: seq<bool>, c: seq<bool>, bits: seq<bool>)
    requires |c| == |g| > 0 && |bits| <= |g|
    ensures Remainder(g, c, bits) == Remainder(g, Plus(c, bits + None(|g| - |bits|)), None(|bits|))
    decreases |bits|
  {
    hide *;
    var n, k := |g|, |bits|;
    if bits == [] {
      PlusNone(c, bits + None(n));
      EmptyMessage(g, c);
    } else {
      var b, p := bits[0], bits[1..];
      var d := Plus(c, bits + None(n - k));
      assert bits == [b] + p && None(k) == [false] + None(k - 1);
      RemainderConcat(g, c, [b], p);
      RemainderConcat(g, d, [false], None(k - 1));
      OneStep(g, c, b);
      OneStep(g, d, false);
      FeedStep(g, c, bits);
      Feed(g, Step(g, c, b), p);
    }
  }

  lemma EmptyMessage(g: seq<bool>, c: seq<bool>)
    requires |c| == |g| > 0
    ensures Remainder(g, c, []) == c && None(0) == []
  {
  }

  lemma PlusNone(c: seq<bool>, z: seq<bool>)
    requires |c| == |z| && forall i :: 0 <= i < |z| ==> !z[i]
    ensures Plus(c, z) == c
  {
  }

  lemma FeedStep(g: seq<bool>, c: seq<bool>, bits: seq<bool>)
    requires |c| == |g| > 0 && 0 < |bits| <= |g|
    ensures Step(g, Plus(c, bits + None(|g| - |bits|)), false) == Plus(Step(g, c, bits[0]), bits[1..] + None(|g| - (|bits| - 1)))
  {
    hide When;
    var n, k := |g|, |bits|;
    var d, e := Plus(c, bits + None(n - k)), bits[1..] + None(n - (k - 1));
    assert d[0] == (c[0] != bits[0]);
    forall i | 0 <= i < n
      ensures Step(g, d, false)[i] == Plus(Step(g, c, bits[0]), e)[i]
    {
      assert i < n - 1 ==> d[i + 1] == (c[i + 1] != e[i]);
    }
  }

  /** Starting from a register is starting from zero with the register added to the first bits of the message. */
  lemma StartAdded(g: seq<bool>, c: seq<bool>, a: seq<bool>, rest: seq<bool>)
    requires |c| == |a| == |g| > 0
    ensures Remainder(g, c, a + rest) == Remainder(g, None(|g|), Plus(a, c) + rest)
  {
    assert Plus(c, a + None(0)) == Plus(None(|g|), Plus(a, c) + None(0));
    hide *;
    FullFeed(g, c, a, None(|g|), Plus(a, c));
    RemainderConcat(g, c, a, rest);
    RemainderConcat(g, None(|g|), Plus(a, c), rest);
  }

  /** Zeros shift out the bits at the top as long as these are zero. */
  lemma {:induction false} ShiftOut(g: seq<bool>, c: seq<bool>, k: nat)
    requires |c| == |g| > 0 && k <= |g| && forall i :: 0 <= i < k ==> !c[i]
    ensures Remainder(g, c, None(k)) == c[k..] + None(k)
  {
    if k > 0 {
      ShiftOut(g, c, k - 1);
      assert None(k)[..k - 1] == None(k - 1);
      var r := c[k - 1..] + None(k - 1);
      assert !r[0];
      ShiftStep(g, r);
      hide Step, Plus;
      assert r[1..] + [false] == c[k..] + None(k);
    }
  }

  lemma ShiftStep(g: seq<bool>, r: seq<bool>)
    requires |r| == |g| > 0 && !r[0]
    ensures Step(g, r, false) == r[1..] + [false]
  {
  }

  lemma OneStep(g: seq<bool>, c: seq<bool>, b: bool)
    requires |c| == |g| > 0
    ensures Remainder(g, c, [b]) == Step(g, c, b)
  {
    hide Step;
    assert [b][..0] == [];
  }

  lemma StepInjective(g: seq<bool>, c: seq<bool>, d: seq<bool>, b: bool)
    requires Generator(g) && |c| == |d| == |g| && Step(g, c, b) == Step(g, d, b)
    ensures c == d
  {
    var n := |g|;
    assert Step(g, c, b)[n - 1] == (c[0] != b) && Step(g, d, b)[n - 1] == (d[0] != b);
    forall i | 0 <= i < n ensures c[i] == d[i] {
      if i > 0 { assert Step(g, c, b)[i - 1] == Step(g, d, b)[i - 1]; }
    }
  }

  lemma {:induction false} Injective(g: seq<bool>, c: seq<bool>, d: seq<bool>, bits: seq<bool>)
    requires Generator(g) && |c| == |d| == |g| && Remainder(g, c, bits) == Remainder(g, d, bits)
    ensures c == d
    decreases |bits|
  {
    hide Step;
    if bits != [] {
      var p := bits[..|bits| - 1];
      StepInjective(g, Remainder(g, c, p), Remainder(g, d, p), bits[|bits| - 1]);
      Injective(g, c, d, p);
    }
  }

  /** As many bits as the register holds, or fewer, are determined by the register they lead to. */
  lemma FeedInjective(g: seq<bool>, c: seq<bool>, a: seq<bool>, b: seq<bool>)
    requires Generator(g) && |c| == |g| && |a| == |b| <= |g| && Remainder(g, c, a) == Remainder(g, c, b)
    ensures a == b
  {
    hide Remainder;
    var z := None(|g| - |a|);
    Feed(g, c, a);
    Feed(g, c, b);
    Injective(g, Plus(c, a + z), Plus(c, b + z), None(|a|));
    forall i | 0 <= i < |a| ensures a[i] == b[i] { assert Plus(c, a + z)[i] == Plus(c, b + z)[i]; }
  }

  /** Changed bits that lie within one register's width of each other always change the register. */
  lemma BurstDetected(g: seq<bool>, c: seq<bool>, w: seq<bool>, v: seq<bool>, p: nat)
    requires Generator(g) && |c| == |g| && |w| == |v| && w != v
    requires forall i :: 0 <= i < |w| && w[i] != v[i] ==> p <= i < p + |g|
    ensures Remainder(g, c, w) != Remainder(g, c, v)
  {
    hide *;
    var lo := if p < |w| then p else |w|;
    var hi := if p + |g| < |w| then p + |g| else |w|;
    ThreeParts(w, v, lo, hi);
    BurstBetween(g, c, w[..lo], w[lo..hi], v[lo..hi], w[hi..]);
  }

  lemma ThreeParts(w: seq<bool>, v: seq<bool>, lo: nat, hi: nat)
    requires lo <= hi <= |w| == |v|
    requires forall i :: 0 <= i < |w| && w[i] != v[i] ==> lo <= i < hi
    ensures w == w[..lo] + w[lo..hi] + w[hi..] && v == w[..lo] + v[lo..hi] + w[hi..]
  {
  }

  lemma BurstBetween(g: seq<bool>, c: seq<bool>, before: seq<bool>, a: seq<bool>, b: seq<bool>, after: seq<bool>)
    requires Generator(g) && |c| == |g| && |a| == |b| <= |g| && a != b
    ensures Remainder(g, c, before + a + after) != Remainder(g, c, before + b + after)
  {
    hide Remainder;
    RemainderConcat(g, c, before + a, after);
    RemainderConcat(g, c, before + b, after);
    RemainderConcat(g, c, before, a);
    RemainderConcat(g, c, before, b);
    var r := Remainder(g, c, before);
    if Remainder(g, c, before + a + after) == Remainder(g, c, before + b + after) {
      Injective(g, Remainder(g, r, a), Remainder(g, r, b), after);
      FeedInjective(g, r, a, b);
    }
  }

  // ---------------------------------------------------------------- residues

  lemma {:induction false} ZerosStay(g: seq<bool>, n: nat)
    requires g != []
    ensures Remainder(g, None(|g|), None(n)) == None(|g|)
  {
    if n > 0 {
      ZerosStay(g, n - 1);
      assert None(n)[..n - 1] == None(n - 1);
    }
  }

  /** Exactly the register's own bits lead it to zero. */
  lemma ZeroResidue(g: seq<bool>, c: seq<bool>, t: seq<bool>)
    requires Generator(g) && |c| == |t| == |g|
    ensures Remainder(g, c, t) == None(|g|) <==> t == c
  {
    hide Remainder;
    Feed(g, c, c);
    assert Plus(c, c + None(0)) == None(|g|);
    ZerosStay(g, |g|);
    if Remainder(g, c, t) == None(|g|) { FeedInjective(g, c, t, c); }
  }

  lemma FullFeed(g: seq<bool>, c: seq<bool>, a: seq<bool>, d: seq<bool>, b: seq<bool>)
    requires |a| == |b| == |c| == |d| == |g| > 0 && Plus(c, a + None(0)) == Plus(d, b + None(0))
    ensures Remainder(g, c, a) == Remainder(g, d, b)
  {
    hide *;
    Feed(g, c, a);
    Feed(g, d, b);
  }

  function All(n: nat): (r: seq<bool>)
    ensures |r| == n && forall i :: 0 <= i < n ==> r[i]
  {
    seq(n, i => true)
  }

  lemma ComplementFeed(g: seq<bool>, c: seq<bool>)
    requires |c| == |g| > 0
    ensures Remainder(g, c, Plus(c, All(|g|))) == Remainder(g, None(|g|), All(|g|))
  {
    hide Remainder;
    var n := |g|;
    assert Plus(c, Plus(c, All(n)) + None(0)) == Plus(None(n), All(n) + None(0));
    FullFeed(g, c, Plus(c, All(n)), None(n), All(n));
  }

  /** Exactly the complement of the register leads it to a value that depends on the generator alone. */
  lemma ComplementResidue(g: seq<bool>, c: seq<bool>, t: seq<bool>)
    requires Generator(g) && |c| == |t| == |g|
    ensures Remainder(g, c, t) == Remainder(g, None(|g|), All(|g|)) <==> t == Plus(c, All(|g|))
  {
    hide Remainder, Plus, None, All, Generator;
    var z, o := None(|g|), All(|g|);
    ComplementFeed(g, c);
    SameMessage(g, c, t, Plus(c, o), Remainder(g, z, o));
  }

  lemma SameMessage(g: seq<bool>, c: seq<bool>, t: seq<bool>, u: seq<bool>, good: seq<bool>)
    requires Generator(g) && |c| == |t| == |u| == |g| && Remainder(g, c, u) == good
    ensures Remainder(g, c, t) == good <==> t == u
  {
    hide Remainder;
    if Remainder(g, c, t) == good { FeedInjective(g, c, t, u); }
  }
}
