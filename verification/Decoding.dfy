/** What the decoder computes for one codeword, as functions on the received word. */
module Decoding {
  import opened Bits
  import opened Galois
  import opened Polynomial
  import opened Code
  import BerlekampMassey
  import Forney

  /** A value, or the exception thrown instead. */
  datatype Outcome<T> = Ok(value: T) | TooManyErrors(errors: nat) | LogicError | ValueTooSmall

  /** A corrected word and how many positions were corrected. */
  datatype Repaired = Repaired(word: seq<nat>, corrected: nat)

  // ---------------------------------------------------------------- erasures

  /** Positions below m whose symbol is too large for the field, in order. */
  function Erasures(c: Params, w: seq<nat>, m: nat): (ps: seq<nat>)
    requires m <= |w|
    ensures |ps| <= m
    ensures Distinct(ps)
    ensures forall i :: 0 <= i < |ps| ==> ps[i] < m
    ensures forall p :: p in ps <==> 0 <= p < m && !c.field.InField(w[p])
  {
    if m == 0 then []
    else
      var ps := Erasures(c, w, m - 1);
      if c.field.InField(w[m - 1]) then ps else ps + [m - 1]
  }

  /** The word with erased symbols set to zero. */
  function Zeroed(c: Params, w: seq<nat>): (v: seq<nat>)
    ensures |v| == |w| && Word(c.field, v)
  {
    seq(|w|, i requires 0 <= i < |w| => if c.field.InField(w[i]) then w[i] else 0)
  }

  /** Remove one locator from the syndromes. */
  ghost function ForneyStep(F: GF, s: seq<nat>, x: nat): (r: seq<nat>)
    requires s != []
    ensures |r| == |s| - 1
  {
    seq(|s| - 1, i requires 0 <= i < |s| - 1 => Xor(F.Mul(s[i], x), s[i + 1]))
  }

  /** The syndromes after removing the first m erasures; the power is taken without the root index. */
  ghost function ForneySyndromes(c: Params, s: seq<nat>, ps: seq<nat>, m: nat): (r: seq<nat>)
    requires m <= |ps| && m <= |s| && c.Positions(ps)
    ensures |r| == |s| - m
  {
    if m == 0 then s
    else ForneyStep(c.field, ForneySyndromes(c, s, ps, m - 1), c.field.Pow(c.length - 1 - ps[m - 1]))
  }

  // ---------------------------------------------------------------- errors

  /** The i-th point at which the search evaluates the locator: the inverse of a locator. */
  ghost function TrialPoint(c: Params, i: nat): nat
    requires i <= c.field.Order()
  {
    c.RootPow(c.field.Order() - i)
  }

  /** Positions among the last m whose locator's inverse is a root of err, last position first. */
  ghost function Roots(c: Params, err: seq<nat>, m: nat): (ps: seq<nat>)
    requires m <= c.length <= c.field.Order()
    ensures |ps| <= m
    ensures forall i :: 0 <= i < |ps| ==> c.length - m <= ps[i] < c.length
    ensures Distinct(ps)
  {
    if m == 0 then []
    else if Eval(c.field, err, TrialPoint(c, m - 1)) == 0 then Roots(c, err, m - 1) + [c.length - m]
    else Roots(c, err, m - 1)
  }

  /** The roots of the locator as positions, if the locator's degree fits n syndromes and it splits. */
  ghost function Located(c: Params, err: seq<nat>, n: nat): (r: Outcome<seq<nat>>)
    requires c.length <= c.field.Order() && err != []
    ensures r.Ok? ==> 2 * |r.value| <= n && c.Positions(r.value)
    ensures r.TooManyErrors? ==> r.errors > 0
  {
    var errs := |err| - 1;
    if 2 * errs > n then TooManyErrors(errs)
    else
      var ps := Roots(c, err, c.length);
      if |ps| != errs then LogicError else Ok(ps)
  }

  ghost function FindErrors(c: Params, s: seq<nat>): (r: Outcome<seq<nat>>)
    requires c.length <= c.field.Order()
    ensures r.Ok? ==> 2 * |r.value| <= |s| && c.Positions(r.value)
    ensures r.TooManyErrors? ==> r.errors > 0
  {
    Located(c, BerlekampMassey.Run(c.field, s, |s|).err, |s|)
  }

  lemma FindErrorsUnfold(c: Params, s: seq<nat>)
    requires c.length <= c.field.Order()
    ensures FindErrors(c, s) == Located(c, BerlekampMassey.Run(c.field, s, |s|).err, |s|)
  {
    hide GF.Order, GF.Size, GF.Primitive, BerlekampMassey.Run, Located, Roots, Distinct, Params.Positions;
  }

  // ---------------------------------------------------------------- correction

  /** The locator polynomial of the first m positions. */
  ghost function LocatorPoly(c: Params, ps: seq<nat>, m: nat): (q: seq<nat>)
    requires m <= |ps| && forall i :: 0 <= i < |ps| ==> ps[i] < c.length
    ensures |q| == m + 1
  {
    if m == 0 then [1] else Product(c.field, LocatorPoly(c, ps, m - 1), [c.Locator(ps[m - 1]), 1])
  }

  /** The inverse of a position's locator. */
  ghost function InverseLocator(c: Params, p: nat): nat
    requires p < c.length <= c.field.Order()
  {
    c.RootPow(p + c.field.Order() + 1 - c.length)
  }

  ghost function Denominator(F: GF, d: seq<nat>, x: nat): nat {
    F.Mul(x, Eval(F, d, F.Mul(x, x)))
  }

  ghost function CorrectionFactor(c: Params, p: nat): nat {
    c.field.Pow(NatProduct(NatProduct(c.root, c.first), p + 1))
  }

  /** The value added at position p. */
  ghost function Correction(c: Params, num: seq<nat>, d: seq<nat>, p: nat): nat
    requires p < c.length <= c.field.Order()
  {
    var x := InverseLocator(c, p);
    c.field.Mul(CorrectionFactor(c, p), Forney.Div(c.field, Eval(c.field, num, x), Denominator(c.field, d, x)))
  }

  /** The word after correcting the first m positions. */
  ghost function Corrected(c: Params, w: seq<nat>, num: seq<nat>, d: seq<nat>, ps: seq<nat>, m: nat): (r: Outcome<seq<nat>>)
    requires |w| == c.length <= c.field.Order()
    requires m <= |ps| && forall i :: 0 <= i < |ps| ==> ps[i] < c.length
    ensures r.Ok? ==> |r.value| == |w|
    ensures !r.TooManyErrors?
  {
    if m == 0 then Ok(w)
    else
      var r := Corrected(c, w, num, d, ps, m - 1);
      var p := ps[m - 1];
      if !r.Ok? then r
      else if Denominator(c.field, d, InverseLocator(c, p)) == 0 then ValueTooSmall
      else Ok(r.value[p := Xor(r.value[p], Correction(c, num, d, p))])
  }

  ghost function CorrectErrata(c: Params, w: seq<nat>, s: seq<nat>, ps: seq<nat>): (r: Outcome<seq<nat>>)
    requires |w| == c.length <= c.field.Order()
    requires 0 < |ps| <= |s| && forall i :: 0 <= i < |ps| ==> ps[i] < c.length
    ensures r.Ok? ==> |r.value| == |w|
    ensures !r.TooManyErrors?
  {
    var q := LocatorPoly(c, ps, |ps|);
    Corrected(c, w, Forney.Evaluator(c.field, q, s[..|ps|]), Forney.OddTerms(q), ps, |ps|)
  }

  /** Correct the erased positions and the errors that the syndromes s locate. */
  ghost function Repair(c: Params, w: seq<nat>, s: seq<nat>, erased: seq<nat>): (r: Outcome<Repaired>)
    requires |w| == c.length <= c.field.Order() && |erased| <= |s| && c.Positions(erased)
    ensures r.Ok? ==> |r.value.word| == c.length
    ensures r.TooManyErrors? ==> r.errors > 0
  {
    var found := FindErrors(c, ForneySyndromes(c, s, erased, |erased|));
    if !found.Ok? then Failed(found) else RepairAt(c, w, s, erased + found.value)
  }

  /** Correct the given positions and check the result. */
  ghost function RepairAt(c: Params, w: seq<nat>, s: seq<nat>, ps: seq<nat>): (r: Outcome<Repaired>)
    requires |w| == c.length <= c.field.Order() && |ps| <= |s| && forall i :: 0 <= i < |ps| ==> ps[i] < c.length
    ensures r.Ok? ==> |r.value.word| == c.length
    ensures r.TooManyErrors? ==> r.errors > 0
  {
    if ps == [] then LogicError
    else
      var fixed := CorrectErrata(c, w, s, ps);
      if !fixed.Ok? then Failed(fixed)
      else if !AllZero(c.Syndromes(fixed.value)) then LogicError
      else Ok(Repaired(fixed.value, |ps|))
  }

  /** Correct one word: the corrected word and the number of corrected positions, or the exception. */
  ghost function CorrectOneWord(c: Params, w: seq<nat>): (r: Outcome<Repaired>)
    requires c.length <= c.field.Order()
    ensures r.Ok? ==> |r.value.word| == c.length
    ensures r.TooManyErrors? ==> r.errors > 0
  {
    if |w| != c.length then LogicError
    else
      var erased, msg := Erasures(c, w, |w|), Zeroed(c, w);
      if |erased| > c.parity then LogicError
      else if AllZero(c.Syndromes(msg)) then Ok(Repaired(msg, 0))
      else Repair(c, msg, c.Syndromes(msg), erased)
  }

  /** The same exception at another type. */
  function Failed<T, U>(r: Outcome<T>): (f: Outcome<U>)
    requires !r.Ok?
    ensures !f.Ok? && (f.TooManyErrors? <==> r.TooManyErrors?) && (f.TooManyErrors? ==> f.errors == r.errors)
    ensures (f.LogicError? <==> r.LogicError?) && (f.ValueTooSmall? <==> r.ValueTooSmall?)
  {
    match r
    case TooManyErrors(n) => TooManyErrors(n)
    case LogicError => LogicError
    case ValueTooSmall => ValueTooSmall
  }

  lemma SyndromesInField(c: Params, w: seq<nat>)
    requires c.field.Primitive() && Word(c.field, w)
    ensures Word(c.field, c.Syndromes(w))
  {
    hide Xor, GF.Mul, Eval, GF.Primitive, Params.SyndromeRoot;
    forall j | 0 <= j < c.parity ensures c.field.InField(c.Syndromes(w)[j]) { EvalInField(c.field, w, c.SyndromeRoot(j)); }
  }

  /** Nonzero syndromes without erasures give at least one error position: positions are never empty. */
  lemma SomethingFound(c: Params, s: seq<nat>)
    requires c.field.Primitive() && c.length <= c.field.Order() && Word(c.field, s) && !AllZero(s)
    ensures FindErrors(c, s).Ok? ==> FindErrors(c, s).value != []
  {
    hide Xor, GF.Mul, Eval, GF.Primitive, GF.Order, GF.Pow, Roots, BerlekampMassey.Run;
    BerlekampMassey.NonzeroLength(c.field, s);
  }

  // ---------------------------------------------------------------- soundness

  /** Positions with a symbol of the field that differs from the codeword. */
  ghost function Wrong(c: Params, w: seq<nat>, v: seq<nat>): set<nat>
    requires |w| == |v|
  {
    set p: nat | p < |w| && c.field.InField(w[p]) && w[p] != v[p]
  }

  /** w is the codeword v with few enough erasures and errors. */
  ghost predicate Correctable(c: Params, w: seq<nat>, v: seq<nat>) {
    && |w| == c.length && c.IsCodeword(v)
    && |Erasures(c, w, |w|)| + 2 * |Wrong(c, w, v)| <= c.parity
  }

  lemma {:induction false} ListOf(s: set<nat>) returns (l: seq<nat>)
    ensures Distinct(l) && |l| == |s| && forall x :: x in l <==> x in s
  {
    if s == {} {
      l := [];
    } else {
      var x :| x in s;
      l := ListOf(s - {x});
      l := l + [x];
    }
  }

  /** Two codewords that differ only in a set of at most `parity` positions are equal. */
  lemma DistanceSet(c: Params, w: seq<nat>, v: seq<nat>, d: set<nat>)
    requires c.Proper() && c.IsCodeword(w) && c.IsCodeword(v)
    requires forall i :: 0 <= i < |w| && w[i] != v[i] ==> i in d
    requires |d| <= c.parity
    ensures w == v
  {
    hide Params.Proper, Params.IsCodeword;
    var e := set i | i in d && i < c.length;
    SubsetCount(e, d);
    var ps := ListOf(e);
    assert forall i :: 0 <= i < |ps| ==> ps[i] in ps;
    assert |w| == |v| == c.length by { CodewordLength(c, w); CodewordLength(c, v); }
    Distance(c, w, v, ps);
  }

  lemma CodewordLength(c: Params, w: seq<nat>)
    requires c.IsCodeword(w)
    ensures |w| == c.length && Word(c.field, w) && AllZero(c.Syndromes(w))
  {
  }

  lemma {:induction false} ElementsCount(s: seq<nat>)
    ensures |Elements(s)| <= |s|
  {
    if s != [] { ElementsCount(s[1..]); }
  }

  lemma {:induction false} CorrectedDiffers(c: Params, w: seq<nat>, num: seq<nat>, d: seq<nat>, ps: seq<nat>, m: nat)
    requires c.field.Primitive() && |w| == c.length <= c.field.Order() && Word(c.field, w)
    requires m <= |ps| && forall i :: 0 <= i < |ps| ==> ps[i] < c.length
    requires Corrected(c, w, num, d, ps, m).Ok?
    ensures var r := Corrected(c, w, num, d, ps, m).value;
      Word(c.field, r) && forall i :: 0 <= i < |w| && r[i] != w[i] ==> i in ps
  {
    hide Xor, GF.Primitive, GF.Order, GF.Mul, Denominator, InverseLocator, Eval, Correction;
    if m > 0 {
      CorrectedDiffers(c, w, num, d, ps, m - 1);
      var r, p := Corrected(c, w, num, d, ps, m - 1).value, ps[m - 1];
      CorrectionInField(c, num, d, p);
      XorBelow(r[p], Correction(c, num, d, p), c.field.bits);
    }
  }

  lemma CorrectionInField(c: Params, num: seq<nat>, d: seq<nat>, p: nat)
    requires c.field.Primitive() && p < c.length <= c.field.Order()
    ensures c.field.InField(Correction(c, num, d, p))
  {
    hide Xor, GF.Primitive, GF.Order, GF.Mul, Denominator, InverseLocator, Eval, Forney.Div, CorrectionFactor;
    c.field.MulInField(CorrectionFactor(c, p),
      Forney.Div(c.field, Eval(c.field, num, InverseLocator(c, p)), Denominator(c.field, d, InverseLocator(c, p))));
  }

  /** The erased positions and at most half as many others as there are syndromes left. */
  predicate Touched(ps: seq<nat>, erased: seq<nat>, syndromes: nat) {
    && |erased| <= syndromes && |ps| <= |erased| + (syndromes - |erased|) / 2
    && forall p :: p in erased ==> p in ps
  }

  /** Whenever repair returns a word, it is a codeword that agrees with its input off few positions. */
  lemma RepairReturns(c: Params, w: seq<nat>, s: seq<nat>, erased: seq<nat>)
    requires c.field.Primitive() && |w| == c.length <= c.field.Order() && Word(c.field, w)
    requires |erased| <= |s| == c.parity && c.Positions(erased)
    requires Repair(c, w, s, erased).Ok?
    ensures var r := Repair(c, w, s, erased).value;
      && c.IsCodeword(r.word)
      && exists ps :: Touched(ps, erased, |s|) && AgreeOff(r.word, w, ps) && |ps| == r.corrected
  {
    hide Xor, GF.Primitive, GF.Order, GF.Mul, GF.InField, FindErrors, ForneySyndromes, Corrected, LocatorPoly, Params.Syndromes;
    var found := FindErrors(c, ForneySyndromes(c, s, erased, |erased|)).value;
    var ps := erased + found;
    var q := LocatorPoly(c, ps, |ps|);
    CorrectedDiffers(c, w, Forney.Evaluator(c.field, q, s[..|ps|]), Forney.OddTerms(q), ps, |ps|);
    assert Touched(ps, erased, |s|);
  }

  /** Whatever word goes in, a word that comes out is a codeword. */
  lemma ReturnsCodeword(c: Params, w: seq<nat>)
    requires c.field.Primitive() && c.length <= c.field.Order()
    requires CorrectOneWord(c, w).Ok?
    ensures c.IsCodeword(CorrectOneWord(c, w).value.word)
  {
    hide Xor, GF.Primitive, GF.Order, GF.Mul, GF.InField, Repair, Params.Syndromes;
    var erased, msg := Erasures(c, w, |w|), Zeroed(c, w);
    if !AllZero(c.Syndromes(msg)) { RepairReturns(c, msg, c.Syndromes(msg), erased); }
  }

  /** The word v differs from w with its erasures zeroed in at most n positions, few enough for the parity. */
  ghost predicate Near(c: Params, w: seq<nat>, v: seq<nat>, n: nat) {
    exists ps :: |ps| == n && AgreeOff(v, Zeroed(c, w), ps) && 2 * n <= |Erasures(c, w, |w|)| + c.parity
  }

  /** A word that comes out lies within the corrected positions of the word that went in. */
  lemma ReturnsNear(c: Params, w: seq<nat>)
    requires c.field.Primitive() && c.length <= c.field.Order()
    requires CorrectOneWord(c, w).Ok?
    ensures var r := CorrectOneWord(c, w).value; c.IsCodeword(r.word) && Near(c, w, r.word, r.corrected)
  {
    hide Xor, GF.Primitive, GF.Order, GF.Mul, GF.InField, Repair, Params.Syndromes;
    var erased, msg := Erasures(c, w, |w|), Zeroed(c, w);
    if AllZero(c.Syndromes(msg)) {
      var ps: seq<nat> := [];
      assert AgreeOff(msg, msg, ps);
    } else {
      RepairReturns(c, msg, c.Syndromes(msg), erased);
    }
  }

  /** Whenever decoding a word with few enough erasures and errors returns, it returns the codeword. */
  lemma Soundness(c: Params, w: seq<nat>, v: seq<nat>)
    requires c.Proper() && Correctable(c, w, v)
    requires CorrectOneWord(c, w).Ok?
    ensures CorrectOneWord(c, w).value.word == v
  {
    ProperPrimitive(c);
    CodewordLength(c, v);
    hide Xor, GF.Primitive, GF.Order, GF.Mul, GF.InField, Repair, Params.Syndromes, Params.Proper, Erasures;
    var erased, msg, r := Erasures(c, w, |w|), Zeroed(c, w), CorrectOneWord(c, w).value.word;
    var ps := erased;
    if !AllZero(c.Syndromes(msg)) {
      RepairReturns(c, msg, c.Syndromes(msg), erased);
      ps :| Touched(ps, erased, c.parity) && AgreeOff(r, msg, ps);
    }
    ElementsCount(ps);
    var d := Elements(ps) + Wrong(c, w, v);
    forall i | 0 <= i < |r| && r[i] != v[i] ensures i in d {
      ElementsIn(ps, i);
    }
    DistanceSet(c, r, v, d);
  }
}
