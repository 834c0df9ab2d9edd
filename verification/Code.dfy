/** Reed-Solomon codes: syndromes, the locators of error positions and the distance of the code. */
module Code {
  import opened Bits
  import opened Galois
  import opened Polynomial

  /** The parameters of one codeword: `root` is the index of the primitive root, `first` the exponent of
      the first consecutive root. */
  datatype Params = Params(field: GF, parity: nat, length: nat, root: nat, first: nat) {

    /** The field is generated by doubling, `root` indexes a primitive element, and a codeword fits the field. */
    ghost predicate Proper() {
      && field.Primitive() && field.Order() > 0 && field.bits <= 8
      && parity < length <= field.Order()
      && forall i :: 0 < i < field.Order() ==> RootExponent(i) != 0
    }

    /** The exponent of the i-th power of the primitive root. */
    function RootExponent(i: nat): nat
      requires field.Order() > 0
    {
      (root * i) % field.Order()
    }

    /** The e-th power of the primitive root. */
    ghost function RootPow(e: nat): nat { field.Pow(root * e) }

    /** The point at which the j-th syndrome evaluates the word. */
    ghost function SyndromeRoot(j: nat): nat { field.Pow(root * (j + first)) }

    ghost function Syndromes(w: seq<nat>): (s: seq<nat>)
      ensures |s| == parity
    {
      seq(parity, j requires 0 <= j < parity => Eval(field, w, SyndromeRoot(j)))
    }

    ghost predicate IsCodeword(w: seq<nat>) {
      |w| == length && Word(field, w) && AllZero(Syndromes(w))
    }

    /** The locator of a position. */
    ghost function Locator(p: nat): nat
      requires p < length
    {
      RootPow(length - 1 - p)
    }

    predicate Positions(ps: seq<nat>) {
      Distinct(ps) && forall i :: 0 <= i < |ps| ==> ps[i] < length
    }

    ghost function Locators(ps: seq<nat>): (xs: seq<nat>)
      requires Positions(ps)
      ensures |xs| == |ps|
    {
      seq(|ps|, i requires 0 <= i < |ps| => Locator(ps[i]))
    }

    /** The weight of an error of value e at position p in the syndromes. */
    ghost function Weight(e: nat, p: nat): nat
      requires p < length
    {
      field.Mul(e, field.Pow(NatProduct(NatProduct(root, first), length - 1 - p)))
    }

    ghost function Weights(w: seq<nat>, c: seq<nat>, ps: seq<nat>): (ys: seq<nat>)
      requires Positions(ps) && |w| == |c| == length
      ensures |ys| == |ps|
    {
      seq(|ps|, i requires 0 <= i < |ps| => Weight(Xor(w[ps[i]], c[ps[i]]), ps[i]))
    }
  }

  /** w and c may differ only at the positions ps. */
  predicate AgreeOff(w: seq<nat>, c: seq<nat>, ps: seq<nat>) {
    |w| == |c| && forall i :: 0 <= i < |w| && w[i] != c[i] ==> i in ps
  }

  lemma {:induction false} PowerPow(F: GF, m: nat, k: nat)
    requires F.Primitive()
    ensures Power(F, F.Pow(m), k) == F.Pow(m * k)
  {
    hide GF.Mul, GF.Pow;
    if k == 0 {
      PowZero(F);
    } else {
      PowerPow(F, m, k - 1);
      F.MulPow(m, m * (k - 1));
      assert m + m * (k - 1) == m * k;
    }
  }

  lemma PowZero(F: GF)
    ensures F.Pow(0) == 1
  {
    hide GF.Double;
  }

  lemma ModDifference(a: nat, b: nat, n: nat)
    requires n > 0 && a <= b && a % n == b % n
    ensures (b - a) % n == 0
  {
    DivMod(a, n);
    DivMod(b, n);
    var q := b / n - a / n;
    assert b - a == n * q + 0 by { assert b - a == (b / n) * n - (a / n) * n; }
    ModUnique(b - a, n, q, 0);
  }

  lemma LocatorsDiffer(c: Params, p: nat, q: nat)
    requires c.Proper() && p < q < c.length
    ensures c.Locator(p) != c.Locator(q)
  {
    hide GF.Pow, GF.Order, GF.Primitive;
    var F, n := c.field, c.field.Order();
    var i, j := c.length - 1 - q, c.length - 1 - p;
    assert c.RootExponent(j - i) != 0;
    if F.Pow(c.root * i) == F.Pow(c.root * j) {
      F.PowMod(c.root * i);
      F.PowMod(c.root * j);
      var a, b := (c.root * i) % n, (c.root * j) % n;
      if a < b { F.PowInjective(a, b); }
      if b < a { F.PowInjective(b, a); }
      assert c.root * (j - i) == c.root * j - c.root * i;
      MulMonotone(c.root, i, j);
      ModDifference(c.root * i, c.root * j, n);
      assert false;
    }
  }

  lemma MulMonotone(a: nat, x: nat, y: nat)
    requires x <= y
    ensures a * x <= a * y
  {
  }

  lemma LocatorsDistinct(c: Params, ps: seq<nat>)
    requires c.Proper() && c.Positions(ps)
    ensures Distinct(c.Locators(ps)) && Word(c.field, c.Locators(ps))
    ensures forall i :: 0 <= i < |ps| ==> c.Locators(ps)[i] != 0
  {
    ProperPrimitive(c);
    hide GF.Pow, GF.Order, GF.Primitive, Params.Proper, Params.Locator;
    var xs := c.Locators(ps);
    forall i, j | 0 <= i < j < |xs| ensures xs[i] != xs[j] {
      if ps[i] < ps[j] { LocatorsDiffer(c, ps[i], ps[j]); } else { LocatorsDiffer(c, ps[j], ps[i]); }
    }
    forall i | 0 <= i < |xs| ensures c.field.InField(xs[i]) && xs[i] != 0 { LocatorInField(c, ps[i]); }
  }

  lemma LocatorInField(c: Params, p: nat)
    requires c.field.Primitive() && p < c.length
    ensures c.field.InField(c.Locator(p)) && c.Locator(p) != 0
  {
    hide GF.Pow, GF.Order, GF.Primitive;
    c.field.PowNonzero(c.root * (c.length - 1 - p));
  }

  lemma {:induction false} EvalUpdate(F: GF, w: seq<nat>, p: nat, v: nat, x: nat)
    requires F.Primitive() && p < |w| && Word(F, w) && F.InField(v)
    ensures Eval(F, w, x) == Xor(Eval(F, w[p := v], x), F.Mul(Xor(w[p], v), Power(F, x, |w| - 1 - p)))
  {
    hide Xor, GF.Mul;
    var m := |w| - 1;
    if p == m {
      assert w[p := v][..m] == w[..m];
      var t := F.Mul(Eval(F, w[..m], x), x);
      XorBelow(w[p], v, F.bits);
      F.MulOne(Xor(w[p], v));
      XorAssoc(t, v, Xor(w[p], v));
      XorComm(w[p], v);
      XorCancel(v, w[p]);
    } else {
      EvalUpdate(F, w[..m], p, v, x);
      assert w[p := v][..m] == w[..m][p := v];
      var e, d, r := Eval(F, w[..m][p := v], x), Xor(w[p], v), Power(F, x, m - 1 - p);
      F.MulXor(x, e, F.Mul(d, r));
      F.MulComm(F.Mul(d, r), x);
      MulExchange(F, x, d, r);
      XorAssoc(F.Mul(e, x), F.Mul(d, F.Mul(x, r)), w[m]);
      XorComm(F.Mul(d, F.Mul(x, r)), w[m]);
      XorAssoc(F.Mul(e, x), w[m], F.Mul(d, F.Mul(x, r)));
    }
  }

  lemma WeightTerm(c: Params, e: nat, p: nat, j: nat)
    requires c.Proper() && p < c.length
    ensures c.field.Mul(e, Power(c.field, c.SyndromeRoot(j), c.length - 1 - p))
         == c.field.Mul(c.Weight(e, p), Power(c.field, c.Locator(p), j))
  {
    hide GF.Pow, GF.Mul, GF.Order, GF.Primitive;
    var F, k, r, b := c.field, c.length - 1 - p, c.root, c.first;
    PowerPow(F, r * (j + b), k);
    PowerPow(F, r * k, j);
    F.MulAssoc(e, F.Pow(r * b * k), F.Pow(r * k * j));
    F.MulPow(r * b * k, r * k * j);
    assert r * (j + b) * k == r * b * k + r * k * j;
  }

  /** The syndromes of two words differ by the power sums of their differences. */
  lemma {:induction false} SyndromeDifference(c: Params, w: seq<nat>, v: seq<nat>, ps: seq<nat>, j: nat)
    requires c.Proper() && c.Positions(ps) && |w| == c.length && AgreeOff(w, v, ps)
    requires Word(c.field, w) && Word(c.field, v)
    ensures var z := c.SyndromeRoot(j);
      Xor(Eval(c.field, w, z), Eval(c.field, v, z)) == PowerSum(c.field, c.Weights(w, v, ps), c.Locators(ps), j)
    decreases |ps|
  {
    hide Xor, GF.Mul, GF.Pow, GF.Order, GF.Primitive, Params.Proper, Eval, Params.Weight, Params.Locator, Params.SyndromeRoot;
    var F, z := c.field, c.SyndromeRoot(j);
    if ps == [] {
      assert w == v;
      XorSelf(Eval(F, w, z));
    } else {
      var m := |ps| - 1;
      var p, ps' := ps[m], ps[..m];
      var w' := w[p := v[p]];
      forall i | 0 <= i < |w'| && w'[i] != v[i] ensures i in ps' {
        assert i in ps;
        var k :| 0 <= k < |ps| && ps[k] == i;
        assert ps'[k] == i;
      }
      SyndromeDifference(c, w', v, ps', j);
      assert c.Weights(w, v, ps)[..m] == c.Weights(w', v, ps');
      assert c.Locators(ps)[..m] == c.Locators(ps');
      ProperPrimitive(c);
      EvalUpdate(F, w, p, v[p], z);
      WeightTerm(c, Xor(w[p], v[p]), p, j);
      var e', t := Eval(F, w', z), F.Mul(c.Weights(w, v, ps)[m], Power(F, c.Locators(ps)[m], j));
      XorComm(e', t);
      XorAssoc(t, e', Eval(F, v, z));
      XorComm(t, Xor(e', Eval(F, v, z)));
    }
  }

  lemma ProperPrimitive(c: Params)
    requires c.Proper()
    ensures c.field.Primitive() && c.parity < c.length <= c.field.Order()
  {
  }

  /** The syndromes of a word near a codeword are the power sums of the errors. */
  lemma SyndromesArePowerSums(c: Params, w: seq<nat>, v: seq<nat>, ps: seq<nat>)
    requires c.Proper() && c.Positions(ps) && AgreeOff(w, v, ps) && Word(c.field, w) && c.IsCodeword(v)
    ensures IsPowerSums(c.field, c.Syndromes(w), c.Weights(w, v, ps), c.Locators(ps), 0)
  {
    hide Xor, GF.Mul, GF.Pow, GF.Order, GF.Primitive, Params.Proper, Eval, Params.Weights, Params.Locators, PowerSum;
    forall j | 0 <= j < c.parity
      ensures c.Syndromes(w)[j] == PowerSum(c.field, c.Weights(w, v, ps), c.Locators(ps), 0 + j)
    {
      SyndromeDifference(c, w, v, ps, j);
      assert c.Syndromes(v)[j] == 0;
      XorZero(c.Syndromes(w)[j]);
    }
  }

  lemma WeightZero(c: Params, e: nat, p: nat)
    requires c.field.Primitive() && p < c.length && c.field.InField(e)
    ensures c.field.InField(c.Weight(e, p))
    ensures c.Weight(e, p) == 0 <==> e == 0
  {
    hide GF.Mul, GF.Pow, GF.Order, GF.Primitive, NatProduct;
    PowFactor(c.field, e, NatProduct(NatProduct(c.root, c.first), c.length - 1 - p));
  }

  lemma PowFactor(F: GF, e: nat, k: nat)
    requires F.Primitive() && F.InField(e)
    ensures F.InField(F.Mul(e, F.Pow(k))) && (F.Mul(e, F.Pow(k)) == 0 <==> e == 0)
  {
    hide GF.Mul, GF.Pow, GF.Order, GF.Primitive;
    F.PowNonzero(k);
    F.MulInField(e, F.Pow(k));
    if e == 0 { F.MulZero(F.Pow(k)); } else { F.MulNonzero(e, F.Pow(k)); }
  }

  lemma WeightsInField(c: Params, w: seq<nat>, v: seq<nat>, ps: seq<nat>)
    requires c.Proper() && c.Positions(ps) && |w| == |v| == c.length && Word(c.field, w) && Word(c.field, v)
    ensures Word(c.field, c.Weights(w, v, ps))
    ensures forall i :: 0 <= i < |ps| ==> (c.Weights(w, v, ps)[i] == 0 <==> w[ps[i]] == v[ps[i]])
  {
    ProperPrimitive(c);
    hide Xor, GF.Mul, GF.Pow, GF.Order, GF.Primitive, Params.Proper, Params.Weight;
    forall i | 0 <= i < |ps|
      ensures c.field.InField(c.Weights(w, v, ps)[i])
      ensures c.Weights(w, v, ps)[i] == 0 <==> w[ps[i]] == v[ps[i]]
    {
      var e := Xor(w[ps[i]], v[ps[i]]);
      XorBelow(w[ps[i]], v[ps[i]], c.field.bits);
      XorIsZero(w[ps[i]], v[ps[i]]);
      WeightZero(c, e, ps[i]);
    }
  }

  /** Two codewords that differ in at most `parity` positions are equal. */
  lemma Distance(c: Params, w: seq<nat>, v: seq<nat>, ps: seq<nat>)
    requires c.Proper() && c.Positions(ps) && |ps| <= c.parity
    requires c.IsCodeword(w) && c.IsCodeword(v) && AgreeOff(w, v, ps)
    ensures w == v
  {
    hide Xor, GF.Mul, GF.Pow, GF.Order, GF.Primitive, Eval, PowerSum, Params.Weights, Params.Locators, Params.Proper;
    var ys, xs := c.Weights(w, v, ps), c.Locators(ps);
    SyndromesArePowerSums(c, w, v, ps);
    WeightsInField(c, w, v, ps);
    LocatorsDistinct(c, ps);
    ProperPrimitive(c);
    forall j | 0 <= j < c.parity ensures PowerSum(c.field, ys, xs, j) == 0 {
      assert c.Syndromes(w)[j] == PowerSum(c.field, ys, xs, 0 + j);
    }
    Elimination(c.field, ys, xs, c.parity);
  }
}

