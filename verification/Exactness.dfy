/** The parameters for which the decoder corrects every word within the code's capability. */
module Exactness {
  import opened Bits
  import opened Galois
  import opened Polynomial
  import opened Code
  import opened Decoding
  import opened Completeness
  import opened Encoding
  import BerlekampMassey
  import Forney

  predicate Bytes(w: seq<nat>) {
    forall i :: 0 <= i < |w| ==> w[i] < 256
  }

  ghost predicate Recovers(c: Params, w: seq<nat>, v: seq<nat>)
    requires c.Proper()
  {
    CorrectOneWord(c, w).Ok? && CorrectOneWord(c, w).value.word == v
  }

  lemma ZeroCodeword(c: Params)
    requires c.field.Primitive()
    ensures c.IsCodeword(Zeros(c.length))
  {
    hide Xor, GF.Mul, GF.Primitive, Params.SyndromeRoot;
    var z := Zeros(c.length);
    forall j | 0 <= j < c.parity ensures c.Syndromes(z)[j] == 0 {
      assert z == Zeros(c.length) + [];
      EvalLeadingZeros(c.field, c.length, [], c.SyndromeRoot(j));
    }
  }

  // ---------------------------------------------------------------- erasures with another root index

  /** The generator, as the shortest nonzero codeword, has no zero coefficient among its last symbols. */
  lemma GeneratorWord(c: Params) returns (v: seq<nat>)
    requires c.Proper() && c.parity >= 1
    ensures c.IsCodeword(v) && v[c.length - 2] != 0
  {
    ProperPrimitive(c);
    hide Xor, GF.Mul, GF.Primitive, GF.Order, Eval, Params.SyndromeRoot, Generator, Params.Proper;
    var g, a := Generator(c, c.parity), c.length - c.parity - 1;
    v := Zeros(a) + g;
    GeneratorShape(c, c.parity);
    forall j | 0 <= j < c.parity ensures c.Syndromes(v)[j] == 0 {
      GeneratorRoot(c, c.parity, j);
      EvalLeadingZeros(c.field, a, g, c.SyndromeRoot(j));
    }
    assert c.IsCodeword(v) && v[a] == g[0] == 1;
    if v[c.length - 2] == 0 {
      var z := Zeros(c.length);
      ZeroCodeword(c);
      var ps := seq(c.parity, i requires 0 <= i < c.parity => if i == c.parity - 1 then c.length - 1 else a + i);
      forall i | 0 <= i < |v| && v[i] != z[i] ensures i in ps {
        assert i >= a && i != c.length - 2;
        if i == c.length - 1 { assert ps[c.parity - 1] == i; } else { assert ps[i - a] == i; }
      }
      Distance(c, v, z, ps);
      assert false;
    }
  }

  lemma RootsDiffer(c: Params)
    requires c.Proper() && c.length >= 2 && !PlainRoot(c)
    ensures c.Locator(c.length - 2) != c.field.Pow(1)
  {
    ProperPrimitive(c);
    var F, n := c.field, c.field.Order();
    hide GF.Pow, GF.Primitive, GF.Order;
    F.PowMod(c.root);
    F.PowMod(1);
    assert c.root * 1 == c.root;
    var a, b := c.root % n, 1 % n;
    DivMod(c.root, n);
    DivMod(1, n);
    if a < b { F.PowInjective(a, b); } else { F.PowInjective(b, a); }
  }

  /** A position listed twice makes the derivative vanish there. */
  lemma DoubledPosition(c: Params, w: seq<nat>, s: seq<nat>, p: nat)
    requires c.field.Primitive() && |w| == c.length <= c.field.Order() && p < c.length && |s| >= 2
    ensures !RepairAt(c, w, s, [p, p]).Ok?
  {
    var F, x, ps := c.field, c.Locator(p), [p, p];
    var q := LocatorPoly(c, ps, 2);
    LocatorPolyShape(c, ps, 1);
    DoubledLocator(c, p);
    assert Forney.OddTerms(q) == [0] by { assert q[..1] == q[..|q| - 2]; }
    hide Xor, GF.Mul, GF.Primitive, GF.Order, LocatorPoly, InverseLocator, Params.Locator, Forney.Evaluator, Correction, Forney.OddTerms;
    var y := InverseLocator(c, p);
    F.MulZero(F.Mul(y, y));
    F.MulZero(y);
    XorZero(0);
    assert [0][..0] == [] && Eval(F, [0], F.Mul(y, y)) == 0;
    var num := Forney.Evaluator(F, q, s[..2]);
    assert Corrected(c, w, num, [0], ps, 0).Ok?;
    assert Corrected(c, w, num, [0], ps, 1) == ValueTooSmall;
    assert Corrected(c, w, num, [0], ps, 2) == ValueTooSmall;
  }

  lemma DoubledLocator(c: Params, p: nat)
    requires c.field.Primitive() && p < c.length
    ensures LocatorPoly(c, [p, p], 2)[1] == 0
  {
    var F, x, ps := c.field, c.Locator(p), [p, p];
    LocatorPolyShape(c, ps, 1);
    LocatorInField(c, p);
    hide Xor, GF.Mul, GF.Primitive, GF.Order, Params.Locator;
    F.OrderPositive();
    var q, a := LocatorPoly(c, ps, 1), [x, 1];
    var one := LocatorPoly(c, ps, 0);
    F.MulOne(x);
    F.MulOne(1);
    F.MulZero(1);
    F.MulZero(x);
    XorZero(0);
    XorZero(x);
    assert Convolution(F, one, a, 0, 0) == 0;
    assert Convolution(F, one, a, 0, 1) == x;
    assert Convolution(F, one, a, 0, 2) == x;
    assert q[0] == x && q[1] == 1;
    assert Convolution(F, q, a, 1, 0) == 0;
    assert Convolution(F, q, a, 1, 1) == x by { F.MulComm(1, x); }
    assert Convolution(F, q, a, 1, 2) == Xor(x, x);
    XorSelf(x);
  }

  /** The syndromes left after removing a wrong locator from a single erasure. */
  lemma WrongErasure(c: Params, s: seq<nat>, y: nat, x: nat, z: nat, fs: seq<nat>, u: nat)
    requires c.field.Primitive() && s != [] && fs == ForneyStep(c.field, s, z)
    requires c.field.InField(y) && y != 0 && c.field.InField(x) && c.field.InField(z) && x != z
    requires IsPowerSums(c.field, s, [y], [x], 0) && u == c.field.Mul(y, Xor(x, z))
    ensures BerlekampMassey.Pattern(c.field, fs, [u], [x])
    ensures Word(c.field, fs) && (fs != [] ==> fs[0] != 0)
  {
    hide Xor, GF.Mul, GF.Primitive, PowerSum, IsPowerSums, ForneyStep;
    var F := c.field;
    XorBelow(x, z, F.bits);
    XorIsZero(x, z);
    F.MulInField(y, Xor(x, z));
    F.MulNonzero(y, Xor(x, z));
    WrongErasureSums(F, s, y, x, z, fs, u);
    forall j | 0 <= j < |fs| ensures F.InField(fs[j]) {
      SinglePower(F, u, x, j);
      PowerSumsAt(F, fs, [u], [x], j);
    }
    if fs != [] {
      SinglePower(F, u, x, 0);
      PowerSumsAt(F, fs, [u], [x], 0);
      F.MulOne(u);
    }
  }

  lemma PowerSumsAt(F: GF, s: seq<nat>, ys: seq<nat>, xs: seq<nat>, j: nat)
    requires |ys| == |xs| && IsPowerSums(F, s, ys, xs, 0) && j < |s|
    ensures s[j] == PowerSum(F, ys, xs, j)
  {
    hide PowerSum;
    assert s[j] == PowerSum(F, ys, xs, 0 + j);
  }

  lemma WrongErasureSums(F: GF, s: seq<nat>, y: nat, x: nat, z: nat, fs: seq<nat>, u: nat)
    requires F.Primitive() && s != [] && fs == ForneyStep(F, s, z)
    requires IsPowerSums(F, s, [y], [x], 0) && u == F.Mul(y, Xor(x, z))
    ensures IsPowerSums(F, fs, [u], [x], 0)
  {
    hide Xor, GF.Mul, GF.Primitive, PowerSum;
    assert Eliminated(F, [y], [x], z) == [u];
    forall j | 0 <= j < |fs| ensures fs[j] == PowerSum(F, [u], [x], 0 + j) {
      EliminateStep(F, [y], [x], z, j);
      PowerSumsAt(F, s, [y], [x], j);
      PowerSumsAt(F, s, [y], [x], j + 1);
      F.MulComm(s[j], z);
      XorComm(F.Mul(z, s[j]), s[j + 1]);
    }
  }

  lemma SinglePower(F: GF, y: nat, x: nat, j: nat)
    requires F.Primitive()
    ensures PowerSum(F, [y], [x], j) == F.Mul(y, Power(F, x, j)) && F.InField(F.Mul(y, Power(F, x, j)))
  {
    hide Xor, GF.Mul, GF.Primitive;
    assert [y][..0] == [] && [x][..0] == [];
    XorZero(F.Mul(y, Power(F, x, j)));
    F.MulInField(y, Power(F, x, j));
  }

  /** Removing a wrong locator leaves the erased position to be found a second time, or too few syndromes. */
  lemma MistakenErasure(c: Params, w: seq<nat>, s: seq<nat>, p: nat, y: nat, x: nat)
    requires c.Proper() && |w| == c.length <= c.field.Order() && |s| == c.parity >= 2 && p == c.length - 2
    requires c.field.InField(y) && y != 0 && x == c.Locator(p) && x != c.field.Pow(1)
    requires IsPowerSums(c.field, s, [y], [x], 0)
    ensures c.Positions([p]) && !Repair(c, w, s, [p]).Ok?
  {
    var F, ps := c.field, [p];
    F.PowNonzero(1);
    LocatorInField(c, p);
    assert ForneySyndromes(c, s, ps, 0) == s;
    assert c.Locators(ps) == [x];
    hide Xor, GF.Mul, GF.Primitive, GF.Order, GF.Pow, Params.Proper, Params.Locator, PowerSum, IsPowerSums, ForneyStep,
      Params.Locators, PlainRoot, FindErrors, RepairAt, BerlekampMassey.Pattern;
    var fs, u := ForneySyndromes(c, s, ps, 1), F.Mul(y, Xor(x, F.Pow(1)));
    WrongErasure(c, s, y, x, F.Pow(1), fs, u);
    if c.parity == 2 {
      TooFewSyndromes(c, fs);
    } else {
      FindsErrors(c, fs, [u], ps);
      var found := FindErrors(c, fs).value;
      assert found[0] in found;
      assert found == [p];
      assert ps + found == [p, p];
      DoubledPosition(c, w, s, p);
    }
  }

  lemma SingleErasureFails(c: Params, w: seq<nat>, v: seq<nat>)
    requires c.Proper() && c.parity >= 2 && !PlainRoot(c)
    requires c.IsCodeword(v) && Word(c.field, w) && w == v[c.length - 2 := 0] && v[c.length - 2] != 0
    ensures c.Positions([c.length - 2]) && c.length <= c.field.Order()
    ensures !AllZero(c.Syndromes(w)) && !Repair(c, w, c.Syndromes(w), [c.length - 2]).Ok?
  {
    ProperPrimitive(c);
    CodewordLength(c, v);
    var F, p, s := c.field, c.length - 2, c.Syndromes(w);
    var ps := [p];
    SyndromesArePowerSums(c, w, v, ps);
    WeightsInField(c, w, v, ps);
    hide Xor, GF.Mul, GF.Primitive, GF.Order, GF.Pow, Params.Proper, Params.Locator, Params.Syndromes, Params.Weight, PowerSum,
      PlainRoot, Repair, IsPowerSums;
    var y, x := c.Weights(w, v, ps)[0], c.Locator(p);
    assert c.Weights(w, v, ps) == [y] && c.Locators(ps) == [x];
    RootsDiffer(c);
    SinglePower(F, y, x, 0);
    F.MulOne(y);
    PowerSumsAt(F, s, [y], [x], 0);
    MistakenErasure(c, w, s, p, y, x);
  }

  lemma TooFewSyndromes(c: Params, s: seq<nat>)
    requires c.field.Primitive() && c.length <= c.field.Order() && |s| == 1 && Word(c.field, s) && s[0] != 0
    ensures !FindErrors(c, s).Ok?
  {
    hide GF.Primitive, GF.Order, Roots, BerlekampMassey.Run;
    BerlekampMassey.NonzeroLength(c.field, s);
  }

  /** A word of the field with one symbol replaced by 255. */
  lemma ErasedOnce(c: Params, w: seq<nat>, v: seq<nat>, p: nat)
    requires c.field.bits < 8 && Word(c.field, v) && p < |v| && w == v[p := 255]
    ensures Bytes(w) && Erasures(c, w, |w|) == [p] && Wrong(c, w, v) == {} && Zeroed(c, w) == v[p := 0]
  {
    TwoMonotone(c.field.bits, 7);
    hide Erasures;
    ErasuresAre(c, w, |w|, [p]);
  }

  lemma CorrectUnfold(c: Params, w: seq<nat>, er: seq<nat>, msg: seq<nat>)
    requires c.length <= c.field.Order() && |w| == c.length && er == Erasures(c, w, |w|) && msg == Zeroed(c, w)
    requires c.Positions(er) && |er| <= c.parity && !AllZero(c.Syndromes(msg))
    ensures CorrectOneWord(c, w) == Repair(c, msg, c.Syndromes(msg), er)
  {
    hide Erasures, Zeroed, Repair, Params.Syndromes, GF.Order;
  }

  /** With another primitive root index a single erasure is not corrected. */
  lemma NeedsPlainRoot(c: Params) returns (w: seq<nat>, v: seq<nat>)
    requires c.Proper() && c.parity >= 2 && c.field.bits < 8 && !PlainRoot(c)
    ensures Bytes(w) && Correctable(c, w, v) && !Recovers(c, w, v)
  {
    ProperPrimitive(c);
    v := GeneratorWord(c);
    CodewordLength(c, v);
    var p := c.length - 2;
    w := v[p := 255];
    ErasedOnce(c, w, v, p);
    SingleErasureFails(c, v[p := 0], v);
    hide GF.Primitive, GF.Order, PlainRoot, Params.Proper, Params.IsCodeword, Repair, Params.Syndromes, Params.Positions, Erasures,
      Zeroed, Wrong, CorrectOneWord;
    CorrectUnfold(c, w, [p], v[p := 0]);
  }

  // ---------------------------------------------------------------- the exact condition

  /** Without alignment a single error or, with one parity symbol, a single erasure is not corrected. */
  lemma NeedsAlignment(c: Params) returns (w: seq<nat>, v: seq<nat>)
    requires c.Proper() && !Aligned(c) && (c.parity >= 2 || (c.parity == 1 && c.field.bits < 8))
    ensures Bytes(w) && Correctable(c, w, v) && !Recovers(c, w, v)
  {
    ProperPrimitive(c);
    if c.parity >= 2 {
      w, v := MisalignedError(c);
    } else {
      w, v := MisalignedErasure(c);
    }
  }

  lemma MisalignedError(c: Params) returns (w: seq<nat>, v: seq<nat>)
    requires c.Proper() && c.parity >= 2 && !Aligned(c)
    ensures Bytes(w) && Correctable(c, w, v) && !Recovers(c, w, v)
  {
    ProperPrimitive(c);
    c.field.OrderPositive();
    v := Zeros(c.length);
    ZeroCodeword(c);
    w := v[0 := 1];
    hide GF.Primitive, Aligned, Removable, Params.Proper, CorrectOneWord, Params.IsCodeword, Erasures;
    assert Zeroed(c, w) == w;
    ErasuresAre(c, w, |w|, []);
    assert Wrong(c, w, v) == {0};
    NoneRemovable(c);
    Decodes(c, w, v);
  }

  lemma NoneRemovable(c: Params)
    ensures Removable(c, [])
  {
  }

  lemma MisalignedErasure(c: Params) returns (w: seq<nat>, v: seq<nat>)
    requires c.Proper() && c.parity == 1 && c.field.bits < 8 && !Aligned(c)
    ensures Bytes(w) && Correctable(c, w, v) && !Recovers(c, w, v)
  {
    ProperPrimitive(c);
    v := GeneratorWord(c);
    CodewordLength(c, v);
    var p := c.length - 2;
    w := v[p := 255];
    ErasedOnce(c, w, v, p);
    assert Removable(c, [p]);
    hide GF.Primitive, GF.Order, Aligned, Removable, Params.Proper, CorrectOneWord, Params.IsCodeword, Erasures, Zeroed, Wrong;
    Decodes(c, w, v);
  }

  /** The parameters with which every word within capability is corrected: without parity there is nothing to
      correct, and a single parity symbol corrects erasures only, whatever the root index. */
  predicate Faultless(c: Params)
    requires c.field.Order() > 0
  {
    || c.parity == 0
    || (c.parity == 1 && c.field.bits == 8)
    || (c.parity == 1 && Aligned(c))
    || (Aligned(c) && (c.field.bits == 8 || PlainRoot(c)))
  }

  /** Every word within the code's capability is corrected if and only if the first root is aligned with
      the code length and, when symbols leave room for erasures, the primitive root is plain; up to one parity
      symbol less is enough. */
  lemma ExactlyCorrects(c: Params)
    requires c.Proper()
    ensures (forall w, v :: Bytes(w) && Correctable(c, w, v) ==> Recovers(c, w, v)) <==> Faultless(c)
  {
    if Faultless(c) {
      forall w, v | Bytes(w) && Correctable(c, w, v) ensures Recovers(c, w, v) { FaultlessRecovers(c, w, v); }
    } else if !Aligned(c) {
      var w, v := NeedsAlignment(c);
    } else {
      var w, v := NeedsPlainRoot(c);
    }
  }

  lemma FaultlessRecovers(c: Params, w: seq<nat>, v: seq<nat>)
    requires c.Proper() && Faultless(c) && Bytes(w) && Correctable(c, w, v)
    ensures Recovers(c, w, v)
  {
    ProperPrimitive(c);
    CorrectableIs(c, w, v);
    CodewordLength(c, v);
    var er := Erasures(c, w, |w|);
    if c.field.bits == 8 { NoErasures(c, w); }
    if er == [] && c.parity <= 1 { NothingWrong(c, w, v); }
    hide Params.Proper, GF.Primitive, GF.Order, Aligned, CorrectOneWord, Erasures, Zeroed, Wrong, PlainRoot, Plain;
    if er == [] || PlainRoot(c) { PlainRootRemoves(c, er); }
    Decodes(c, w, v);
  }

  /** Without erasures and wrong symbols the word is the codeword. */
  lemma NothingWrong(c: Params, w: seq<nat>, v: seq<nat>)
    requires |w| == |v| && Erasures(c, w, |w|) == [] && Wrong(c, w, v) == {}
    ensures Zeroed(c, w) == v
  {
    hide GF.InField;
    forall i: nat | i < |w| ensures c.field.InField(w[i]) && w[i] == v[i] {
      assert i !in Erasures(c, w, |w|) && i !in Wrong(c, w, v);
    }
  }

  /** At full code length every word of the field within half the parity of a codeword decodes to it, with
      the number of wrong positions counted. */
  lemma FullLengthDecodes(c: Params, w: seq<nat>, v: seq<nat>)
    requires c.Proper() && c.length == c.field.Order() && Word(c.field, w) && |w| == c.length && c.IsCodeword(v)
    requires 2 * |Wrong(c, w, v)| <= c.parity
    ensures CorrectOneWord(c, w) == Ok(Repaired(v, |Wrong(c, w, v)|))
  {
    ErasuresAre(c, w, |w|, []);
    AlignedAtFullLength(c);
    NoneRemovable(c);
    hide Params.Proper, Params.IsCodeword, CorrectOneWord, Aligned, Removable;
    Decodes(c, w, v);
    assert Zeroed(c, w) == w;
    if w == v { assert Wrong(c, w, v) == {}; }
  }

  lemma AlignedAtFullLength(c: Params)
    requires c.field.Order() > 0 && c.length == c.field.Order()
    ensures Aligned(c)
  {
    ModUnique(c.first * c.length, c.field.Order(), c.first, 0);
  }

  lemma NoErasures(c: Params, w: seq<nat>)
    requires c.field.bits == 8 && Bytes(w)
    ensures Erasures(c, w, |w|) == []
  {
    assert Two(8) == 256;
    ErasuresAre(c, w, |w|, []);
  }

  /** At most one symbol outside the field. */
  lemma {:induction false} ErasuresAre(c: Params, w: seq<nat>, m: nat, ps: seq<nat>)
    requires m <= |w| && |ps| <= 1
    requires forall i :: 0 <= i < |w| ==> (c.field.InField(w[i]) <==> i !in ps)
    ensures Erasures(c, w, m) == if ps == [] || m <= ps[0] then [] else ps
  {
    hide *;
    ErasuresStep(c, w, m);
    if m > 0 { ErasuresAre(c, w, m - 1, ps); }
  }

  lemma ErasuresStep(c: Params, w: seq<nat>, m: nat)
    requires m <= |w|
    ensures Erasures(c, w, m) == if m == 0 then []
      else if c.field.InField(w[m - 1]) then Erasures(c, w, m - 1) else Erasures(c, w, m - 1) + [m - 1]
  {
    hide GF.InField, Distinct;
  }
}
