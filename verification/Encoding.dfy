/** Systematic encoding of one codeword by division by the generator polynomial. */
module Encoding {
  import opened Bits
  import opened Galois
  import opened Polynomial
  import opened Code

  /** The product of the first m factors x - r^(first + k). */
  ghost function Generator(c: Params, m: nat): (g: seq<nat>)
    ensures |g| == m + 1
  {
    if m == 0 then [1] else Product(c.field, Generator(c, m - 1), [1, c.SyndromeRoot(m - 1)])
  }

  lemma {:induction false} GeneratorShape(c: Params, m: nat)
    requires c.field.Primitive()
    ensures Word(c.field, Generator(c, m)) && Generator(c, m)[0] == 1
  {
    c.field.OrderPositive();
    hide Xor, GF.Mul, GF.Primitive, GF.Order, Params.SyndromeRoot;
    if m > 0 {
      var F, g, b := c.field, Generator(c, m - 1), [1, c.SyndromeRoot(m - 1)];
      GeneratorShape(c, m - 1);
      ProductInField(F, g, b);
      F.MulOne(1);
      F.MulZero(b[1]);
      XorZero(1);
      assert Convolution(F, g, b, 0, 0) == 0;
      assert Convolution(F, g, b, 0, 1) == 1;
      assert Convolution(F, g, b, 0, 2) == 1;
    }
  }

  lemma LinearRoot(F: GF, x: nat)
    requires F.Primitive() && F.InField(x)
    ensures Eval(F, [1, x], x) == 0
  {
    hide Xor, GF.Mul, GF.Primitive;
    F.OrderPositive();
    F.MulZero(x);
    XorZero(1);
    assert [1][..0] == [] && Eval(F, [1], x) == 1;
    assert [1, x][..1] == [1];
    F.MulOne(x);
    XorSelf(x);
  }

  /** Every factor's root is a root of the generator. */
  lemma {:induction false} GeneratorRoot(c: Params, m: nat, j: nat)
    requires c.field.Primitive() && j < m
    ensures Eval(c.field, Generator(c, m), c.SyndromeRoot(j)) == 0
  {
    hide Xor, GF.Mul, GF.Primitive, GF.Order, Eval, Product, GF.Pow;
    var F, g, z := c.field, Generator(c, m - 1), c.SyndromeRoot(j);
    GeneratorShape(c, m - 1);
    F.PowNonzero(c.root * (m - 1 + c.first));
    F.OrderPositive();
    var b := [1, c.SyndromeRoot(m - 1)];
    EvalProduct(F, g, b, z);
    if j == m - 1 {
      LinearRoot(F, z);
      F.MulZero(Eval(F, g, z));
    } else {
      GeneratorRoot(c, m - 1, j);
      F.MulZero(Eval(F, b, z));
    }
  }

  /** w with coef * g subtracted from position i on. */
  ghost function SubtractAt(F: GF, w: seq<nat>, g: seq<nat>, coef: nat, i: nat): (r: seq<nat>)
    requires i + |g| <= |w|
    ensures |r| == |w|
  {
    seq(|w|, k requires 0 <= k < |w| => if i <= k < i + |g| then Xor(w[k], F.Mul(g[k - i], coef)) else w[k])
  }

  /** The word after clearing its first i symbols by subtracting multiples of the generator. */
  ghost function Divided(c: Params, w: seq<nat>, i: nat): (r: seq<nat>)
    requires |w| == c.length && c.parity <= c.length && i <= c.length - c.parity
    ensures |r| == |w|
  {
    if i == 0 then w
    else
      var r := Divided(c, w, i - 1);
      if r[i - 1] == 0 then r else SubtractAt(c.field, r, Generator(c, c.parity), r[i - 1], i - 1)
  }

  lemma SubtractInField(F: GF, w: seq<nat>, g: seq<nat>, coef: nat, i: nat)
    requires F.Primitive() && i + |g| <= |w| && Word(F, w)
    ensures Word(F, SubtractAt(F, w, g, coef, i))
  {
    hide Xor, GF.Mul, GF.Primitive;
    forall k | 0 <= k < |w| ensures F.InField(SubtractAt(F, w, g, coef, i)[k]) {
      if i <= k < i + |g| {
        F.MulInField(g[k - i], coef);
        XorBelow(w[k], F.Mul(g[k - i], coef), F.bits);
      }
    }
  }

  /** Subtracting a multiple of g does not change the value at a root of g. */
  lemma SubtractValue(F: GF, w: seq<nat>, g: seq<nat>, coef: nat, i: nat, z: nat)
    requires F.Primitive() && i + |g| <= |w| && Word(F, g) && Eval(F, g, z) == 0
    ensures Eval(F, SubtractAt(F, w, g, coef, i), z) == Eval(F, w, z)
  {
    hide Xor, GF.Mul, GF.Primitive, Eval;
    var b := |w| - i - |g|;
    var padded := Zeros(i) + (g + Zeros(b));
    var column, r := Scale(F, padded, coef), SubtractAt(F, w, g, coef, i);
    F.MulZero(coef);
    forall k | 0 <= k < |w| ensures r[k] == Xor(w[k], column[k]) {
      XorZero(w[k]);
      assert i <= k < i + |g| ==> padded[k] == g[k - i];
      assert !(i <= k < i + |g|) ==> padded[k] == 0;
    }
    EvalXor(F, w, column, r, z);
    EvalScale(F, padded, coef, z);
    EvalLeadingZeros(F, i, g + Zeros(b), z);
    EvalTrailingZeros(F, g, b, z);
    F.MulZero(Power(F, z, b));
    F.MulZero(coef);
    XorZero(Eval(F, w, z));
  }

  /** Division clears the first i symbols and keeps the value at every syndrome root. */
  lemma {:induction false} DividedKeeps(c: Params, w: seq<nat>, i: nat, j: nat)
    requires c.field.Primitive() && |w| == c.length && c.parity <= c.length && i <= c.length - c.parity
    requires Word(c.field, w)
    ensures var r := Divided(c, w, i);
      && Word(c.field, r) && AllZero(r[..i])
      && (j < c.parity ==> Eval(c.field, r, c.SyndromeRoot(j)) == Eval(c.field, w, c.SyndromeRoot(j)))
  {
    hide Xor, GF.Mul, GF.Primitive, Eval, Params.SyndromeRoot, Generator;
    if i > 0 {
      DividedKeeps(c, w, i - 1, j);
      var F, r, g := c.field, Divided(c, w, i - 1), Generator(c, c.parity);
      GeneratorShape(c, c.parity);
      SubtractInField(F, r, g, r[i - 1], i - 1);
      F.MulOne(r[i - 1]);
      XorSelf(r[i - 1]);
      if j < c.parity {
        GeneratorRoot(c, c.parity, j);
        SubtractValue(F, r, g, r[i - 1], i - 1, c.SyndromeRoot(j));
      }
      var r' := Divided(c, w, i);
      forall k | 0 <= k < i ensures r'[k] == 0 { assert k < i - 1 ==> r[..i - 1][k] == 0; }
    }
  }

  /** The parity symbols of a message that fills the data part of a codeword. */
  ghost function Parity(c: Params, data: seq<nat>): (p: seq<nat>)
    requires |data| + c.parity == c.length
    ensures |p| == c.parity
  {
    Divided(c, data + Zeros(c.parity), |data|)[|data|..]
  }

  /** The message followed by its parity is a codeword. */
  lemma Systematic(c: Params, data: seq<nat>)
    requires c.Proper() && |data| + c.parity == c.length && Word(c.field, data)
    ensures c.IsCodeword(data + Parity(c, data))
  {
    ProperPrimitive(c);
    hide Xor, GF.Mul, GF.Primitive, GF.Order, Eval, Params.SyndromeRoot, Divided, Params.Proper;
    var F, n := c.field, |data|;
    var w0 := data + Zeros(c.parity);
    var r, whole := Divided(c, w0, n), data + Parity(c, data);
    DividedKeeps(c, w0, n, c.parity);
    forall j | 0 <= j < c.parity ensures c.Syndromes(whole)[j] == 0 {
      var z := c.SyndromeRoot(j);
      DividedKeeps(c, w0, n, j);
      forall k | 0 <= k < c.length ensures whole[k] == Xor(w0[k], r[k]) {
        assert k < n ==> r[..n][k] == 0;
        XorZero(w0[k]);
        XorZero(r[k]);
      }
      EvalXor(F, w0, r, whole, z);
      XorSelf(Eval(F, w0, z));
    }
    forall k | 0 <= k < c.length ensures F.InField(whole[k]) { assert k >= n ==> whole[k] == r[k]; }
  }

  /** The parity is the only one that completes the message to a codeword. */
  lemma ParityUnique(c: Params, data: seq<nat>, p: seq<nat>)
    requires c.Proper() && |data| + c.parity == c.length && |p| == c.parity
    requires c.IsCodeword(data + p)
    ensures p == Parity(c, data)
  {
    ProperPrimitive(c);
    hide GF.Primitive, GF.Order, Params.Proper, Parity, Params.Syndromes;
    assert Word(c.field, data) by { forall i | 0 <= i < |data| ensures c.field.InField(data[i]) { assert (data + p)[i] == data[i]; } }
    Systematic(c, data);
    var ps := seq(c.parity, i requires 0 <= i < c.parity => |data| + i);
    var w, v := data + p, data + Parity(c, data);
    forall i | 0 <= i < |w| && w[i] != v[i] ensures i in ps { assert ps[i - |data|] == i; }
    Distance(c, w, v, ps);
    assert p == w[|data|..] && Parity(c, data) == v[|data|..];
  }
}
