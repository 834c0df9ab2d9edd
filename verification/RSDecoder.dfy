/** The decoder: syndromes, Berlekamp-Massey, root search, correction, and whole messages. */
module RSDecoderModule {
  import opened Bits
  import opened Galois
  import opened Polynomial
  import opened Code
  import opened Decoding
  import opened Message
  import opened RSBaseModule
  import BerlekampMassey
  import Forney

  class RSDecoder {
    const base: RSBase
    var lastCorrectedErrors: nat

    constructor (codec: Codec)
      requires codec.Proper()
      ensures base.Valid() && base.codec == codec && lastCorrectedErrors == 0
    {
      base := new RSBase(codec);
      lastCorrectedErrors := 0;
    }

    method CalcSyndromes(msg: seq<nat>) returns (synd: seq<nat>)
      requires base.Valid() && Word(base.codec.code.field, msg) && msg != []
      ensures synd == base.codec.code.Syndromes(msg)
      ensures Word(base.codec.code.field, synd)
    {
      hide *;
      base.ValidPrimitive();
      var c := base.codec.code;
      synd := Zeros(c.parity);
      for j := 0 to c.parity
        invariant |synd| == c.parity
        invariant forall k :: 0 <= k < j ==> synd[k] == c.Syndromes(msg)[k]
      {
        SyndromeAt(c, msg, j);
        var y := base.GfPolyEval(msg, base.RootPower(j + c.first));
        synd := synd[j := y];
      }
      SyndromesInField(c, msg);
    }

    /** Remove the erased locators from the syndromes, one at a time and in place. */
    method RemoveErasures(synd: seq<nat>, pos: seq<nat>) returns (fsynd: seq<nat>)
      requires base.Valid() && Word(base.codec.code.field, synd)
      requires base.codec.code.Positions(pos) && |pos| <= |synd|
      ensures fsynd == ForneySyndromes(base.codec.code, synd, pos, |pos|)
      ensures Word(base.codec.code.field, fsynd)
    {
      hide *;
      base.ValidPrimitive();
      var c := base.codec.code;
      fsynd := synd;
      ForneyStart(c, synd, pos);
      for i := 0 to |pos|
        invariant fsynd == ForneySyndromes(c, synd, pos, i) && Word(c.field, fsynd)
      {
        PositionBound(c, pos, i);
        base.ExpEntry(c.length - 1 - pos[i]);
        var x := base.gfExp[c.length - 1 - pos[i]];
        ghost var f := fsynd;
        var n := |fsynd| - 1;
        for k := 0 to n
          invariant |fsynd| == |f|
          invariant forall m :: 0 <= m < |f| ==> fsynd[m] == if m < k then ForneyStep(c.field, f, x)[m] else f[m]
        {
          WordAt(c.field, f, k);
          ForneyStepAt(c.field, f, x, k);
          fsynd := fsynd[k := Xor(base.GfMul(fsynd[k], x), fsynd[k + 1])];
        }
        fsynd := fsynd[..n];
        assert fsynd == ForneyStep(c.field, f, x);
        ForneyStepInField(c.field, f, x);
        ForneyNext(c, synd, pos, i);
      }
    }

    /** The discrepancy of the locator at syndrome i. */
    method Discrepancy(synd: seq<nat>, i: nat, err: seq<nat>) returns (delta: nat)
      requires base.Valid() && Word(base.codec.code.field, synd) && Word(base.codec.code.field, err)
      requires 1 <= |err| <= i + 1 <= |synd| && err[|err| - 1] == 1
      ensures delta == BerlekampMassey.Delta(base.codec.code.field, synd, i, err)
      ensures base.codec.code.field.InField(delta)
    {
      hide *;
      base.ValidPrimitive();
      var F := base.codec.code.field;
      delta := synd[i];
      WordAt(F, synd, i);
      DiscrepancyStart(F, synd, i, err);
      for j := 1 to |err|
        invariant delta == PartialDelta(F, synd, i, err, j)
      {
        WordAt(F, err, |err| - 1 - j);
        WordAt(F, synd, i - j);
        DiscrepancyNext(F, synd, i, err, j);
        delta := Xor(delta, base.GfMul(err[|err| - 1 - j], synd[i - j]));
      }
      DiscrepancyDone(F, synd, i, err);
    }

    /** The error locator polynomial, by the Berlekamp-Massey algorithm. */
    method LocatorPolynomial(synd: seq<nat>) returns (errPoly: seq<nat>)
      requires base.Valid() && Word(base.codec.code.field, synd)
      ensures errPoly == BerlekampMassey.Run(base.codec.code.field, synd, |synd|).err
      ensures Word(base.codec.code.field, errPoly)
    {
      hide *;
      base.ValidPrimitive();
      var F := base.codec.code.field;
      errPoly := [1];
      var oldPoly := [1];
      RunStart(F, synd);
      for i := 0 to |synd|
        invariant BerlekampMassey.State(errPoly, oldPoly) == BerlekampMassey.Run(F, synd, i)
      {
        RunShape(F, synd, i);
        RunNext(F, synd, i);
        oldPoly := oldPoly + [0];
        ShiftInField(F, oldPoly);
        var delta := Discrepancy(synd, i, errPoly);
        if delta != 0 {
          if |oldPoly| > |errPoly| {
            var newPoly := base.GfPolyScale(oldPoly, delta);
            InverseInField(F, delta);
            oldPoly := base.GfPolyScale(errPoly, base.GfDiv(1, delta).value);
            ScaleInField(F, errPoly, F.Inv(delta));
            errPoly := newPoly;
          }
          var scaled := base.GfPolyScale(oldPoly, delta);
          errPoly := base.GfPolyAdd(errPoly, scaled);
        }
      }
      RunShape(F, synd, |synd|);
    }

    /** The positions at which the error locator vanishes, or the exception. */
    method FindErrors(synd: seq<nat>) returns (r: Outcome<seq<nat>>)
      requires base.Valid() && Word(base.codec.code.field, synd)
      ensures r == Decoding.FindErrors(base.codec.code, synd)
    {
      hide *;
      base.ValidPrimitive();
      var c := base.codec.code;
      var errPoly := LocatorPolynomial(synd);
      var errs := |errPoly| - 1;
      FindErrorsUnfold(c, synd);
      LocatedIs(c, errPoly, |synd|, Roots(c, errPoly, c.length));
      if errs * 2 > |synd| { return TooManyErrors(errs); }
      var errPos: seq<nat> := [];
      RootsStart(c, errPoly);
      for i := 0 to c.length
        invariant errPos == Roots(c, errPoly, i)
      {
        RootsNext(c, errPoly, i);
        var v := base.GfPolyEval(errPoly, base.RootPower(c.field.Order() - i));
        if v == 0 { errPos := errPos + [c.length - 1 - i]; }
      }
      if |errPos| != errs { return LogicError; }
      return Ok(errPos);
    }

    /** The product of the linear factors of the positions' locators. */
    method ErrataLocator(pos: seq<nat>) returns (q: seq<nat>)
      requires base.Valid() && forall i :: 0 <= i < |pos| ==> pos[i] < base.codec.code.length
      ensures q == LocatorPoly(base.codec.code, pos, |pos|) && Word(base.codec.code.field, q)
    {
      hide *;
      base.ValidPrimitive();
      var c := base.codec.code;
      var a := [1, 1];
      q := [1];
      LocatorStart(c, pos);
      for i := 0 to |pos|
        invariant |a| == 2 && a[1] == 1
        invariant q == LocatorPoly(c, pos, i) && Word(c.field, q)
      {
        a := a[0 := base.RootPower(c.length - 1 - pos[i])];
        LocatorNext(c, pos, i, a);
        q := base.GfPolyMul(q, a);
      }
    }

    /** The error evaluator: the low part of the reversed syndromes times the locator. */
    method ErrataEvaluator(synd: seq<nat>, q: seq<nat>, n: nat) returns (p: seq<nat>)
      requires base.Valid() && Word(base.codec.code.field, synd) && Word(base.codec.code.field, q)
      requires 0 < n <= |synd| && |q| == n + 1
      ensures p == Forney.Evaluator(base.codec.code.field, q, synd[..n]) && Word(base.codec.code.field, p)
    {
      hide *;
      base.ValidPrimitive();
      var F := base.codec.code.field;
      p := Zeros(n);
      for i := 0 to n
        invariant |p| == n
        invariant forall k :: 0 <= k < i ==> p[n - 1 - k] == synd[k]
      {
        p := p[n - (i + 1) := synd[i]];
      }
      EvaluatorIs(F, q, synd, n, p);
      p := base.GfPolyMul(p, q);
      p := p[|p| - n..];
    }

    /** The formal derivative of the locator: every other coefficient. */
    method Derivative(q: seq<nat>) returns (d: seq<nat>)
      requires Word(base.codec.code.field, q)
      ensures d == Forney.OddTerms(q) && Word(base.codec.code.field, d)
    {
      hide *;
      var i := |q| % 2;
      d := [];
      OddStart(q);
      while i < |q|
        invariant i % 2 == |q| % 2 && i <= |q|
        invariant d == Forney.OddTerms(q[..i])
      {
        OddNext(q, i);
        d := d + [q[i]];
        i := i + 2;
      }
      assert q[..i] == q;
      Forney.OddTermsInField(base.codec.code.field, q);
    }

    /** Correct the word in place at the given positions; false when a division by zero throws. */
    method CorrectErrata(msg: array<nat>, synd: seq<nat>, pos: seq<nat>) returns (ok: bool)
      requires base.Valid() && msg.Length == base.codec.code.length
      requires msg != base.gfExp && msg != base.gfLog && msg != base.talTab && msg != base.talTabInv
      requires Word(base.codec.code.field, synd) && Word(base.codec.code.field, msg[..])
      requires 0 < |pos| <= |synd| && forall i :: 0 <= i < |pos| ==> pos[i] < base.codec.code.length
      modifies msg
      ensures msg.Length == base.codec.code.length <= base.codec.code.field.Order()
      ensures Decoding.CorrectErrata(base.codec.code, old(msg[..]), synd, pos) == if ok then Ok(msg[..]) else ValueTooSmall
      ensures ok ==> Word(base.codec.code.field, msg[..])
    {
      hide *;
      base.ValidPrimitive();
      var c := base.codec.code;
      ghost var w := msg[..];
      var q := ErrataLocator(pos);
      var p := ErrataEvaluator(synd, q, |pos|);
      var d := Derivative(q);
      CorrectErrataIs(c, w, synd, pos, q, p, d);
      DerivativeNonempty(q, d);
      var i := 0;
      while i < |pos|
        invariant 0 <= i <= |pos|
        invariant Corrected(c, w, p, d, pos, i) == Ok(msg[..]) && Word(c.field, msg[..])
      {
        InversePower(c, pos[i]);
        var x := base.RootPower(pos[i] + c.field.Order() + 1 - msg.Length);
        var y := base.GfPolyEval(p, x);
        c.field.MulInField(x, x);
        var z := base.GfPolyEval(d, base.GfMul(x, x));
        c.field.MulInField(x, z);
        var quotient := base.GfDiv(y, base.GfMul(x, z));
        CorrectedNext(c, w, p, d, pos, i, x, y, z, msg[..]);
        if !quotient.Ok? {
          CorrectedStops(c, w, p, d, pos, i + 1, |pos|);
          return false;
        }
        RatioInField(c, y, base.GfMul(x, z));
        FactorPower(c, pos[i]);
        msg[pos[i]] := Xor(msg[pos[i]], base.GfMul(base.RootPower(c.first * (pos[i] + 1)), quotient.value));
        i := i + 1;
      }
      return true;
    }

    /** The word with erased symbols zeroed in place, and their positions. */
    method FindErasures(msg: array<nat>) returns (erased: seq<nat>)
      requires base.Valid() && msg.Length == base.codec.code.length
      requires msg != base.gfExp && msg != base.gfLog && msg != base.talTab && msg != base.talTabInv
      modifies msg
      ensures var w := old(msg[..]); erased == Erasures(base.codec.code, w, |w|) && msg[..] == Zeroed(base.codec.code, w)
    {
      hide *;
      base.ValidPrimitive();
      var c := base.codec.code;
      ghost var w := msg[..];
      erased := [];
      ErasuresStart(c, w);
      for i := 0 to msg.Length
        invariant erased == Erasures(c, w, i)
        invariant forall k :: 0 <= k < msg.Length ==> msg[k] == if k < i then Zeroed(c, w)[k] else w[k]
      {
        ErasuresNext(c, w, i);
        if msg[i] > c.field.Order() {
          msg[i] := 0;
          erased := erased + [i];
        }
      }
    }

    /** Correct one word: the corrected word, or the exception. */
    method CorrectOneWord(msgIn: seq<nat>) returns (r: Outcome<seq<nat>>)
      requires base.Valid()
      modifies `lastCorrectedErrors
      ensures base.codec.code.length <= base.codec.code.field.Order()
      ensures var fixed := Decoding.CorrectOneWord(base.codec.code, msgIn);
        if fixed.Ok? then r == Ok(fixed.value.word) && lastCorrectedErrors == old(lastCorrectedErrors) + fixed.value.corrected
        else r == Failed(fixed) && lastCorrectedErrors == old(lastCorrectedErrors)
    {
      hide *;
      base.ValidPrimitive();
      var c := base.codec.code;
      if |msgIn| != c.length {
        BadLength(c, msgIn);
        return LogicError;
      }
      var msg := new nat[|msgIn|](i requires 0 <= i < |msgIn| => msgIn[i]);
      assert msg[..] == msgIn;
      var erased := FindErasures(msg);
      ghost var w := msg[..];
      ErasedPositions(c, msgIn);
      if |erased| > c.parity {
        TooManyErasures(c, msgIn);
        return LogicError;
      }
      var synd := CalcSyndromes(msg[..]);
      WordCases(c, msgIn, erased, w, synd);
      var syndSum := SumOf(synd);
      if syndSum == 0 { return Ok(msg[..]); }
      var fsynd := RemoveErasures(synd, erased);
      var found := FindErrors(fsynd);
      RepairCases(c, w, synd, erased, fsynd, found);
      if !found.Ok? { return Failed(found); }
      var pos := erased + found.value;
      var ok := CorrectErrata(msg, synd, pos);
      RepairAtCases(c, w, synd, pos, if ok then Ok(msg[..]) else ValueTooSmall);
      if !ok { return ValueTooSmall; }
      var check := CalcSyndromes(msg[..]);
      for i := 0 to |check|
        invariant forall k :: 0 <= k < i ==> check[k] == 0
      {
        if check[i] > 0 {
          SomeNonzero(check, i);
          return LogicError;
        }
      }
      NoneNonzero(check);
      lastCorrectedErrors := lastCorrectedErrors + |pos|;
      return Ok(msg[..]);
    }

    /** Correct all rows of a message and drop the parity. Rows with too many errors are counted together;
        any other exception escapes at once. */
    method Correct(msgIn: seq<nat>) returns (r: Outcome<seq<nat>>)
      requires base.Valid() && |msgIn| <= base.codec.code.length * base.codec.depth
      requires base.codec.dual ==> forall i :: 0 <= i < |msgIn| ==> msgIn[i] < 256
      modifies `lastCorrectedErrors
      ensures base.codec.code.parity <= base.codec.code.length <= base.codec.code.field.Order() && base.codec.depth >= 1
      ensures r == Message.Correct(base.codec, msgIn)
      ensures lastCorrectedErrors == CorrectedCount(base.codec.code, ReceivedRows(base.codec, msgIn), base.codec.depth)
    {
      hide *;
      base.ValidPrimitive();
      var codec, c := base.codec, base.codec.code;
      lastCorrectedErrors := 0;
      var uncorrected, msg := 0, msgIn;
      Plain(codec, msgIn);
      if codec.dual { msg := base.CcsdsDualBasisToConventional(msgIn, 0, 0); }
      var rows := base.CcsdsInterleave(msg, true);
      ReceivedAre(codec, msgIn, rows);
      var corrected: seq<seq<nat>> := [];
      RowsStart(c, rows);
      for i := 0 to |rows|
        invariant CorrectRows(c, rows, i) == Ok(Progress(corrected, lastCorrectedErrors, uncorrected))
        invariant CorrectedCount(c, rows, i) == lastCorrectedErrors
      {
        RowsNext(c, rows, i);
        var word := CorrectOneWord(rows[i]);
        match word {
          case Ok(w) => corrected := corrected + [w];
          case TooManyErrors(n) => uncorrected := uncorrected + n;
          case _ =>
            RowsStop(c, rows, i + 1, |rows|);
            CorrectFails(codec, msgIn, rows);
            return Failed(word);
        }
      }
      CorrectCases(codec, msgIn, rows, Progress(corrected, lastCorrectedErrors, uncorrected));
      if uncorrected > 0 { return TooManyErrors(uncorrected); }
      RowsLengths(c, rows, corrected, lastCorrectedErrors);
      var out := base.CcsdsDeinterleave(corrected);
      Plain(codec, out);
      if codec.dual {
        RowsBytes(codec, rows, corrected, lastCorrectedErrors);
        ColumnsBytes(codec, corrected, out);
        out := base.CcsdsConventionalToDualBasis(out, 0, 0);
      }
      return Ok(out);
    }

    /** Correct a message and drop its virtual fill. */
    method Decode(msgIn: seq<nat>) returns (r: Outcome<seq<nat>>)
      requires base.Valid()
      requires base.codec.code.parity * base.codec.depth <= |msgIn| <= base.codec.code.length * base.codec.depth
      requires base.codec.dual ==> forall i :: 0 <= i < |msgIn| ==> msgIn[i] < 256
      modifies `lastCorrectedErrors
      ensures base.codec.code.parity <= base.codec.code.length <= base.codec.code.field.Order() && base.codec.depth >= 1
      ensures r == Message.Decode(base.codec, msgIn)
      ensures lastCorrectedErrors == CorrectedCount(base.codec.code, ReceivedRows(base.codec, msgIn), base.codec.depth)
    {
      hide *;
      base.ValidPrimitive();
      r := Correct(msgIn);
      var fill := base.codec.code.length * base.codec.depth - |msgIn|;
      DecodeCases(base.codec, msgIn, fill);
      if r.Ok? { return Ok(r.value[fill..]); }
    }
  }

  method SumOf(s: seq<nat>) returns (sum: nat)
    ensures sum == 0 <==> AllZero(s)
  {
    sum := 0;
    for i := 0 to |s|
      invariant sum == 0 <==> forall k :: 0 <= k < i ==> s[k] == 0
    {
      sum := sum + s[i];
    }
  }

  // ---------------------------------------------------------------- one pass of each loop

  lemma SyndromeAt(c: Params, w: seq<nat>, j: nat)
    requires j < c.parity
    ensures c.Syndromes(w)[j] == Eval(c.field, w, c.RootPow(j + c.first))
  {
    hide GF.Pow;
  }

  lemma PositionBound(c: Params, pos: seq<nat>, i: nat)
    requires c.Positions(pos) && i < |pos|
    ensures pos[i] < c.length
  {
  }

  lemma WordAt(F: GF, w: seq<nat>, i: nat)
    requires Word(F, w) && i < |w|
    ensures F.InField(w[i])
  {
  }

  lemma ForneyStart(c: Params, s: seq<nat>, ps: seq<nat>)
    requires c.Positions(ps)
    ensures ForneySyndromes(c, s, ps, 0) == s
  {
  }

  lemma ForneyStepAt(F: GF, s: seq<nat>, x: nat, k: nat)
    requires k + 1 < |s|
    ensures ForneyStep(F, s, x)[k] == Xor(F.Mul(s[k], x), s[k + 1])
  {
    hide Xor, GF.Mul;
  }

  lemma ForneyStepInField(F: GF, s: seq<nat>, x: nat)
    requires F.Primitive() && Word(F, s) && s != []
    ensures Word(F, ForneyStep(F, s, x))
  {
    hide Xor, GF.Mul, GF.Primitive;
    forall i | 0 <= i < |s| - 1 ensures F.InField(ForneyStep(F, s, x)[i]) {
      F.MulInField(s[i], x);
      XorBelow(F.Mul(s[i], x), s[i + 1], F.bits);
    }
  }

  lemma ForneyNext(c: Params, s: seq<nat>, ps: seq<nat>, m: nat)
    requires m < |ps| <= |s| && c.Positions(ps) && ps[m] < c.length
    ensures ForneySyndromes(c, s, ps, m + 1)
         == ForneyStep(c.field, ForneySyndromes(c, s, ps, m), c.field.Pow(c.length - 1 - ps[m]))
  {
    hide GF.Pow, ForneyStep;
  }

  /** The part of the discrepancy that the last j coefficients give. */
  ghost function PartialDelta(F: GF, s: seq<nat>, i: nat, err: seq<nat>, j: nat): nat
    requires 1 <= j <= |err| <= i + 1 <= |s|
  {
    Dot(F, err[|err| - j..], s[i + 1 - j..i + 1])
  }

  lemma DiscrepancyStart(F: GF, s: seq<nat>, i: nat, err: seq<nat>)
    requires F.Primitive() && 1 <= |err| <= i + 1 <= |s| && err[|err| - 1] == 1 && F.InField(s[i])
    ensures PartialDelta(F, s, i, err, 1) == s[i]
  {
    hide Xor, GF.Mul, GF.Primitive;
    assert err[|err| - 1..] == [1] && s[i..i + 1] == [s[i]] && [1][1..] == [] && [s[i]][1..] == [];
    var e: seq<nat> := [];
    assert Dot(F, [1], [s[i]]) == Xor(F.Mul(1, s[i]), Dot(F, e, e));
    F.MulOne(s[i]);
    XorZero(s[i]);
  }

  lemma DiscrepancyNext(F: GF, s: seq<nat>, i: nat, err: seq<nat>, j: nat)
    requires 1 <= j < |err| <= i + 1 <= |s|
    ensures PartialDelta(F, s, i, err, j + 1)
         == Xor(PartialDelta(F, s, i, err, j), F.Mul(err[|err| - 1 - j], s[i - j]))
  {
    hide Xor, GF.Mul;
    var p, t := err[|err| - 1 - j..], s[i - j..i + 1];
    assert p[1..] == err[|err| - j..] && t[1..] == s[i + 1 - j..i + 1];
    XorComm(F.Mul(p[0], t[0]), Dot(F, p[1..], t[1..]));
  }

  lemma DiscrepancyDone(F: GF, s: seq<nat>, i: nat, err: seq<nat>)
    requires F.Primitive() && 1 <= |err| <= i + 1 <= |s|
    ensures PartialDelta(F, s, i, err, |err|) == BerlekampMassey.Delta(F, s, i, err)
    ensures F.InField(BerlekampMassey.Delta(F, s, i, err))
  {
    hide Xor, GF.Mul, GF.Primitive, Dot;
    assert err[0..] == err;
    BerlekampMassey.DeltaInField(F, s, i, err);
  }

  lemma RunStart(F: GF, s: seq<nat>)
    ensures BerlekampMassey.Run(F, s, 0) == BerlekampMassey.State([1], [1])
  {
  }

  /** What the loop relies on before syndrome i: the lengths add up, so no index is negative, and the
      locator's constant term is one. */
  lemma RunShape(F: GF, s: seq<nat>, i: nat)
    requires F.Primitive() && i <= |s| && Word(F, s)
    ensures var st := BerlekampMassey.Run(F, s, i);
      && 1 <= |st.err| <= i + 1 && 1 <= |st.prev| && st.err[|st.err| - 1] == 1
      && Word(F, st.err) && Word(F, st.prev)
  {
    hide Xor, GF.Mul, GF.Primitive, BerlekampMassey.Run;
    BerlekampMassey.RunConsistent(F, s, i);
  }

  lemma RunNext(F: GF, s: seq<nat>, i: nat)
    requires i < |s|
    ensures var st := BerlekampMassey.Run(F, s, i);
      var prev, d, err := st.prev + [0], BerlekampMassey.Delta(F, s, i, st.err), st.err;
      BerlekampMassey.Run(F, s, i + 1)
        == if d == 0 then BerlekampMassey.State(err, prev)
           else if |prev| > |err| then
             var next := Scale(F, err, F.Inv(d));
             BerlekampMassey.State(Add(Scale(F, prev, d), Scale(F, next, d)), next)
           else BerlekampMassey.State(Add(err, Scale(F, prev, d)), prev)
  {
    hide BerlekampMassey.Delta, Scale, Add, GF.Inv;
  }

  lemma ShiftInField(F: GF, p: seq<nat>)
    requires p != [] && Word(F, p[..|p| - 1]) && p[|p| - 1] == 0
    ensures Word(F, p)
  {
    forall i | 0 <= i < |p| ensures F.InField(p[i]) { if i < |p| - 1 { assert p[..|p| - 1][i] == p[i]; } }
  }

  lemma InverseInField(F: GF, d: nat)
    requires F.Primitive() && F.InField(d) && d != 0
    ensures F.InField(1) && Forney.Div(F, 1, d) == F.Inv(d) && F.InField(F.Inv(d))
  {
    hide GF.Mul, GF.Inv, GF.Primitive, GF.Order;
    F.OrderPositive();
    F.MulInv(d);
    F.MulOne(F.Inv(d));
  }

  lemma LocatedIs(c: Params, err: seq<nat>, n: nat, ps: seq<nat>)
    requires c.length <= c.field.Order() && err != [] && ps == Roots(c, err, c.length)
    ensures Located(c, err, n)
         == if 2 * (|err| - 1) > n then TooManyErrors(|err| - 1) else if |ps| != |err| - 1 then LogicError else Ok(ps)
  {
    hide Roots, GF.Order;
  }

  lemma RootsStart(c: Params, err: seq<nat>)
    requires c.length <= c.field.Order()
    ensures Roots(c, err, 0) == []
  {
  }

  lemma RootsNext(c: Params, err: seq<nat>, i: nat)
    requires i < c.length <= c.field.Order()
    ensures Roots(c, err, i + 1)
         == if Eval(c.field, err, c.RootPow(c.field.Order() - i)) == 0 then Roots(c, err, i) + [c.length - 1 - i] else Roots(c, err, i)
  {
    hide Eval, GF.Pow, GF.Order;
  }

  lemma LocatorStart(c: Params, ps: seq<nat>)
    requires c.field.Primitive() && forall i :: 0 <= i < |ps| ==> ps[i] < c.length
    ensures LocatorPoly(c, ps, 0) == [1] && Word(c.field, [1])
  {
    c.field.OrderPositive();
  }

  lemma LocatorNext(c: Params, ps: seq<nat>, m: nat, a: seq<nat>)
    requires c.field.Primitive() && m < |ps| && forall i :: 0 <= i < |ps| ==> ps[i] < c.length
    requires |a| == 2 && a[0] == c.RootPow(c.length - 1 - ps[m]) && c.field.InField(a[0]) && a[1] == 1
    ensures LocatorPoly(c, ps, m + 1) == Product(c.field, LocatorPoly(c, ps, m), a)
    ensures Word(c.field, a) && Word(c.field, LocatorPoly(c, ps, m + 1))
  {
    c.field.OrderPositive();
    hide GF.Pow, Product, GF.Primitive, GF.Order, GF.Size;
    assert a == [c.Locator(ps[m]), 1];
    ProductInField(c.field, LocatorPoly(c, ps, m), a);
  }

  lemma EvaluatorIs(F: GF, q: seq<nat>, s: seq<nat>, n: nat, p: seq<nat>)
    requires F.Primitive() && Word(F, s) && 0 < n <= |s| && |q| == n + 1 && |p| == n
    requires forall k :: 0 <= k < n ==> p[n - 1 - k] == s[k]
    ensures Word(F, p) && Forney.Evaluator(F, q, s[..n]) == Product(F, p, q)[n..]
    ensures Word(F, Forney.Evaluator(F, q, s[..n]))
  {
    hide Product, GF.Primitive;
    var t := s[..n];
    forall i | 0 <= i < n ensures p[i] == t[n - 1 - i] { assert p[n - 1 - (n - 1 - i)] == s[n - 1 - i]; }
    assert p == Forney.Reversed(t);
    Forney.EvaluatorInField(F, q, t);
  }

  lemma OddStart(q: seq<nat>)
    ensures |q| % 2 <= |q| && Forney.OddTerms(q[..|q| % 2]) == []
  {
  }

  lemma OddNext(q: seq<nat>, i: nat)
    requires i < |q| && i % 2 == |q| % 2
    ensures i + 2 <= |q| && Forney.OddTerms(q[..i + 2]) == Forney.OddTerms(q[..i]) + [q[i]]
  {
    assert q[..i + 2][..i] == q[..i];
  }

  lemma DerivativeNonempty(q: seq<nat>, d: seq<nat>)
    requires |q| >= 2 && d == Forney.OddTerms(q)
    ensures d != []
  {
  }

  lemma CorrectErrataIs(c: Params, w: seq<nat>, s: seq<nat>, ps: seq<nat>, q: seq<nat>, p: seq<nat>, d: seq<nat>)
    requires |w| == c.length <= c.field.Order() && 0 < |ps| <= |s| && forall i :: 0 <= i < |ps| ==> ps[i] < c.length
    requires q == LocatorPoly(c, ps, |ps|) && p == Forney.Evaluator(c.field, q, s[..|ps|]) && d == Forney.OddTerms(q)
    ensures Decoding.CorrectErrata(c, w, s, ps) == Corrected(c, w, p, d, ps, |ps|)
    ensures Corrected(c, w, p, d, ps, 0) == Ok(w)
  {
    hide LocatorPoly, Forney.Evaluator, Forney.OddTerms, GF.Order;
  }

  lemma InversePower(c: Params, p: nat)
    requires p < c.length <= c.field.Order()
    ensures InverseLocator(c, p) == c.RootPow(p + c.field.Order() + 1 - c.length)
  {
    hide GF.Pow, GF.Order;
  }

  lemma FactorPower(c: Params, p: nat)
    ensures CorrectionFactor(c, p) == c.RootPow(c.first * (p + 1))
  {
    hide GF.Pow;
    assert c.root * c.first * (p + 1) == c.root * (c.first * (p + 1));
  }

  lemma RatioInField(c: Params, y: nat, z: nat)
    requires c.field.Primitive()
    ensures c.field.InField(Forney.Div(c.field, y, z))
  {
    hide GF.Mul, GF.Inv, GF.Primitive;
    c.field.MulInField(y, c.field.Inv(z));
  }

  lemma CorrectedNext(c: Params, w: seq<nat>, num: seq<nat>, d: seq<nat>, ps: seq<nat>, m: nat, x: nat, y: nat, z: nat, v: seq<nat>)
    requires c.field.Primitive() && |w| == c.length <= c.field.Order()
    requires m < |ps| && forall i :: 0 <= i < |ps| ==> ps[i] < c.length
    requires x == InverseLocator(c, ps[m]) && y == Eval(c.field, num, x) && z == Eval(c.field, d, c.field.Mul(x, x))
    requires Corrected(c, w, num, d, ps, m) == Ok(v) && Word(c.field, v)
    ensures |v| == c.length
    ensures Corrected(c, w, num, d, ps, m + 1) == if c.field.Mul(x, z) == 0 then ValueTooSmall
      else Ok(v[ps[m] := Xor(v[ps[m]], c.field.Mul(CorrectionFactor(c, ps[m]), Forney.Div(c.field, y, c.field.Mul(x, z))))])
    ensures Corrected(c, w, num, d, ps, m + 1).Ok? ==> Word(c.field, Corrected(c, w, num, d, ps, m + 1).value)
  {
    hide Xor, GF.Mul, GF.Primitive, GF.Order, Eval, InverseLocator, CorrectionFactor, Forney.Div;
    CorrectionInField(c, num, d, ps[m]);
    XorBelow(v[ps[m]], Correction(c, num, d, ps[m]), c.field.bits);
  }

  lemma {:induction false} CorrectedStops(c: Params, w: seq<nat>, num: seq<nat>, d: seq<nat>, ps: seq<nat>, m: nat, n: nat)
    requires |w| == c.length <= c.field.Order()
    requires m <= n <= |ps| && forall i :: 0 <= i < |ps| ==> ps[i] < c.length
    requires Corrected(c, w, num, d, ps, m) == ValueTooSmall
    ensures Corrected(c, w, num, d, ps, n) == ValueTooSmall
  {
    hide GF.Order, Denominator, Correction, InverseLocator;
    if m < n { CorrectedStops(c, w, num, d, ps, m, n - 1); }
  }

  // ---------------------------------------------------------------- the cases of one word

  lemma ErasuresStart(c: Params, w: seq<nat>)
    ensures Erasures(c, w, 0) == []
  {
  }

  lemma ErasuresNext(c: Params, w: seq<nat>, i: nat)
    requires i < |w|
    ensures Erasures(c, w, i + 1) == if w[i] > c.field.Order() then Erasures(c, w, i) + [i] else Erasures(c, w, i)
    ensures Zeroed(c, w)[i] == if w[i] > c.field.Order() then 0 else w[i]
  {
  }

  lemma ErasedPositions(c: Params, w: seq<nat>)
    requires |w| == c.length && c.field.Primitive()
    ensures c.Positions(Erasures(c, w, |w|)) && (w != [] ==> Zeroed(c, w) != [])
    ensures Word(c.field, Zeroed(c, w))
  {
    hide GF.Primitive;
  }

  lemma BadLength(c: Params, w: seq<nat>)
    requires c.length <= c.field.Order() && |w| != c.length
    ensures Decoding.CorrectOneWord(c, w) == LogicError
  {
    hide GF.Order;
  }

  lemma TooManyErasures(c: Params, w: seq<nat>)
    requires c.length <= c.field.Order() && |w| == c.length && |Erasures(c, w, |w|)| > c.parity
    ensures Decoding.CorrectOneWord(c, w) == LogicError
  {
    hide GF.Order, Erasures;
  }

  lemma WordCases(c: Params, w: seq<nat>, er: seq<nat>, msg: seq<nat>, s: seq<nat>)
    requires c.length <= c.field.Order() && |w| == c.length && er == Erasures(c, w, |w|) && msg == Zeroed(c, w)
    requires |er| <= c.parity == |s| && s == c.Syndromes(msg) && c.Positions(er)
    ensures Decoding.CorrectOneWord(c, w) == if AllZero(s) then Ok(Repaired(msg, 0)) else Repair(c, msg, s, er)
  {
    hide GF.Order, Erasures, Zeroed, Repair, Params.Syndromes, AllZero;
  }

  /** The errors found after removing the erasures, and why there is always something to correct. */
  lemma RepairCases(c: Params, w: seq<nat>, s: seq<nat>, er: seq<nat>, fs: seq<nat>, found: Outcome<seq<nat>>)
    requires c.field.Primitive() && |w| == c.length <= c.field.Order() && |er| <= |s| && c.Positions(er)
    requires Word(c.field, s) && !AllZero(s)
    requires fs == ForneySyndromes(c, s, er, |er|) && found == Decoding.FindErrors(c, fs)
    ensures !found.Ok? ==> Repair(c, w, s, er) == Failed(found)
    ensures found.Ok? ==>
      && 0 < |er + found.value| <= |s|
      && (forall i :: 0 <= i < |er + found.value| ==> (er + found.value)[i] < c.length)
      && Repair(c, w, s, er) == RepairAt(c, w, s, er + found.value)
  {
    hide Decoding.FindErrors, RepairAt, ForneyStep, GF.Primitive, GF.Order, GF.Pow, AllZero, Word;
    if er == [] { SomethingFound(c, s); }
  }

  lemma RepairAtCases(c: Params, w: seq<nat>, s: seq<nat>, ps: seq<nat>, fixed: Outcome<seq<nat>>)
    requires |w| == c.length <= c.field.Order() && 0 < |ps| <= |s| && forall i :: 0 <= i < |ps| ==> ps[i] < c.length
    requires fixed == Decoding.CorrectErrata(c, w, s, ps)
    ensures RepairAt(c, w, s, ps)
         == if !fixed.Ok? then Failed(fixed)
            else if !AllZero(c.Syndromes(fixed.value)) then LogicError else Ok(Repaired(fixed.value, |ps|))
    ensures fixed == ValueTooSmall ==> RepairAt(c, w, s, ps) == ValueTooSmall
  {
    hide Decoding.CorrectErrata, AllZero, Params.Syndromes, GF.Order;
  }

  lemma SomeNonzero(s: seq<nat>, i: nat)
    requires i < |s| && s[i] > 0
    ensures !AllZero(s)
  {
  }

  lemma NoneNonzero(s: seq<nat>)
    requires forall k :: 0 <= k < |s| ==> s[k] == 0
    ensures AllZero(s)
  {
  }

  // ---------------------------------------------------------------- the rows of a message

  lemma Plain(c: Codec, w: seq<nat>)
    ensures !c.dual ==> c.Conventional(w) == w && c.Transmitted(w) == w
  {
  }

  lemma ReceivedAre(c: Codec, received: seq<nat>, rows: seq<seq<nat>>)
    requires rows == Interleaved(c.depth, c.code.length, c.code.length, c.Conventional(received))
    ensures rows == ReceivedRows(c, received)
  {
    hide Interleaved;
  }

  lemma {:induction false} RowsStop(c: Params, rows: seq<seq<nat>>, m: nat, n: nat)
    requires m <= n <= |rows| && c.length <= c.field.Order() && !CorrectRows(c, rows, m).Ok?
    ensures CorrectRows(c, rows, n) == CorrectRows(c, rows, m)
    ensures CorrectedCount(c, rows, n) == CorrectedCount(c, rows, m)
  {
    hide Decoding.CorrectOneWord, GF.Order;
    if m < n { RowsStop(c, rows, m, n - 1); }
  }

  lemma CorrectFails(c: Codec, received: seq<nat>, rows: seq<seq<nat>>)
    requires c.code.parity <= c.code.length <= c.code.field.Order() && c.depth >= 1 && rows == ReceivedRows(c, received)
    requires !CorrectRows(c.code, rows, c.depth).Ok?
    ensures Message.Correct(c, received) == Failed(CorrectRows(c.code, rows, c.depth))
  {
    hide CorrectRows, Interleaved, GF.Order, Codec.Conventional, Codec.Transmitted, Columns;
  }

  lemma CorrectCases(c: Codec, received: seq<nat>, rows: seq<seq<nat>>, done: Progress)
    requires c.code.parity <= c.code.length <= c.code.field.Order() && c.depth >= 1 && rows == ReceivedRows(c, received)
    requires CorrectRows(c.code, rows, c.depth) == Ok(done)
    ensures done.uncorrected > 0 ==> Message.Correct(c, received) == TooManyErrors(done.uncorrected)
    ensures done.uncorrected == 0 ==>
      && |done.words| == c.depth
      && Message.Correct(c, received) == Ok(c.Transmitted(Columns(done.words, 0, c.DataLength())))
  {
    hide CorrectRows, Interleaved, GF.Order, Codec.Conventional, Codec.Transmitted, Columns;
  }

  lemma RowsLengths(c: Params, rows: seq<seq<nat>>, words: seq<seq<nat>>, n: nat)
    requires c.length <= c.field.Order() && CorrectRows(c, rows, |rows|) == Ok(Progress(words, n, 0))
    ensures |words| == |rows| && forall r :: 0 <= r < |words| ==> |words[r]| == c.length
  {
    hide CorrectRows, GF.Order;
  }

  lemma {:induction false} RowsInField(c: Params, rows: seq<seq<nat>>, m: nat)
    requires c.field.Primitive() && c.length <= c.field.Order() && m <= |rows| && CorrectRows(c, rows, m).Ok?
    ensures forall r :: 0 <= r < |CorrectRows(c, rows, m).value.words| ==> Word(c.field, CorrectRows(c, rows, m).value.words[r])
  {
    hide Decoding.CorrectOneWord, GF.Order, GF.Primitive, Params.IsCodeword, Word;
    if m > 0 {
      RowsInField(c, rows, m - 1);
      if Decoding.CorrectOneWord(c, rows[m - 1]).Ok? {
        ReturnsCodeword(c, rows[m - 1]);
        CodewordLength(c, Decoding.CorrectOneWord(c, rows[m - 1]).value.word);
      }
    }
  }

  lemma RowsBytes(c: Codec, rows: seq<seq<nat>>, words: seq<seq<nat>>, n: nat)
    requires c.Proper() && c.dual && c.code.length <= c.code.field.Order()
    requires CorrectRows(c.code, rows, |rows|) == Ok(Progress(words, n, 0))
    ensures forall r, o :: 0 <= r < |words| && 0 <= o < |words[r]| ==> words[r][o] < 256
  {
    assert c.code.field.Size() == 256 by { assert Two(8) == 256; }
    ProperPrimitive(c.code);
    hide CorrectRows, GF.Primitive, Params.Proper;
    RowsInField(c.code, rows, |rows|);
    forall r, o | 0 <= r < |words| && 0 <= o < |words[r]| ensures words[r][o] < 256 {
      assert Word(c.code.field, words[r]);
    }
  }

  lemma ColumnsBytes(c: Codec, words: seq<seq<nat>>, out: seq<nat>)
    requires |words| > 0 && c.code.parity <= c.code.length && out == Columns(words, 0, c.DataLength())
    requires forall r, o :: 0 <= r < |words| && 0 <= o < |words[r]| ==> words[r][o] < 256
    ensures forall i :: 0 <= i < |out| ==> out[i] < 256
  {
  }

  lemma DecodeCases(c: Codec, received: seq<nat>, fill: nat)
    requires c.code.parity <= c.code.length <= c.code.field.Order() && c.depth >= 1
    requires c.code.parity * c.depth <= |received| <= c.code.length * c.depth
    requires fill == c.code.length * c.depth - |received|
    ensures var r := Message.Correct(c, received);
      if r.Ok? then fill <= |r.value| && Message.Decode(c, received) == Ok(r.value[fill..]) else Message.Decode(c, received) == r
  {
    hide Message.Correct, GF.Order;
    SymbolCounts(c);
  }
}
