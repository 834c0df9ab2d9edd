/** What correcting a message reports, for any message at all: which rows decide the outcome, what the counts are
    made of, and what a message that is returned has to do with the one received. */
module Reports {
  import opened Bits
  import opened Galois
  import opened Polynomial
  import opened Code
  import opened Decoding
  import opened Encoding
  import opened DualBasis
  import opened Message
  import opened Completeness
  import BerlekampMassey
  import Massey

  /** The exceptions of one row that end the correction of the message. */
  ghost predicate Escapes(c: Params, w: seq<nat>)
    requires c.length <= c.field.Order()
  {
    var r := CorrectOneWord(c, w);
    r.LogicError? || r.ValueTooSmall?
  }

  /** The errors that one row reports as too many. */
  ghost function Uncorrected(c: Params, w: seq<nat>): nat
    requires c.length <= c.field.Order()
  {
    match CorrectOneWord(c, w)
    case TooManyErrors(n) => n
    case _ => 0
  }

  /** The positions corrected in one row. */
  ghost function Corrections(c: Params, w: seq<nat>): nat
    requires c.length <= c.field.Order()
  {
    match CorrectOneWord(c, w)
    case Ok(x) => x.corrected
    case _ => 0
  }

  /** The syndromes that are left to search once the erasures are removed. */
  ghost function Left(c: Params, w: seq<nat>): (fs: seq<nat>)
    requires |w| == c.length <= c.field.Order() && |Erasures(c, w, |w|)| <= c.parity
  {
    ForneySyndromes(c, c.Syndromes(Zeroed(c, w)), Erasures(c, w, |w|), |Erasures(c, w, |w|)|)
  }

  lemma FindsTooMany(c: Params, s: seq<nat>, n: nat)
    requires c.field.Primitive() && c.length <= c.field.Order()
    ensures FindErrors(c, s) == TooManyErrors(n) <==> 2 * n > |s| && Massey.Complexity(c.field, s, n)
  {
    hide GF.Primitive, GF.Order, BerlekampMassey.Run, Roots, Massey.Complexity, Distinct, Params.Positions;
    Massey.ComplexityIff(c.field, s, n);
  }

  lemma RepairTooMany(c: Params, w: seq<nat>, s: seq<nat>, erased: seq<nat>, n: nat)
    requires |w| == c.length <= c.field.Order() && |erased| <= |s| && c.Positions(erased)
    ensures Repair(c, w, s, erased) == TooManyErrors(n) <==> FindErrors(c, ForneySyndromes(c, s, erased, |erased|)) == TooManyErrors(n)
  {
    hide FindErrors, ForneySyndromes, CorrectErrata, Params.Positions, Params.Syndromes, GF.Order;
  }

  /** A word has too many errors exactly when its syndromes are not all zero and the shortest recurrences for those
      left to search have more than half their number as degree; that degree is reported. */
  lemma TooManyIff(c: Params, w: seq<nat>, n: nat)
    requires c.field.Primitive() && |w| == c.length <= c.field.Order() && |Erasures(c, w, |w|)| <= c.parity
    ensures CorrectOneWord(c, w) == TooManyErrors(n)
       <==> !AllZero(c.Syndromes(Zeroed(c, w))) && 2 * n > |Left(c, w)| && Massey.Complexity(c.field, Left(c, w), n)
  {
    hide GF.Primitive, GF.Order, Repair, ForneySyndromes, FindErrors, Massey.Complexity, Params.Syndromes;
    FindsTooMany(c, Left(c, w), n);
    RepairTooMany(c, Zeroed(c, w), c.Syndromes(Zeroed(c, w)), Erasures(c, w, |w|), n);
  }

  /** The number reported is beyond the capability, and no codeword differs from the word in fewer places: never more
      errors are reported than there are. */
  lemma ReportsNoMore(c: Params, w: seq<nat>, v: seq<nat>, n: nat)
    requires c.Proper() && |w| == c.length <= c.field.Order() && c.IsCodeword(v) && Plain(c, Erasures(c, w, |w|))
    requires CorrectOneWord(c, w) == TooManyErrors(n)
    ensures n <= |Wrong(c, w, v)| && |Erasures(c, w, |w|)| + 2 * n > c.parity
  {
    hide *;
    ProperPrimitive(c);
    CodewordLength(c, v);
    var er, msg, wrong := ErrorPositions(c, w, v);
    FewErasures(c, w, n);
    TooManyIff(c, w, n);
    var s := c.Syndromes(msg);
    ZeroedWord(c, w);
    var ys := WordWeights(c, msg, v, er, wrong, s);
    var fs := ForneySyndromes(c, s, er, |er|);
    LeftIs(c, w);
    var zs := ForneyPattern(c, s, ys, er, wrong, fs);
    BerlekampMassey.LengthBound(c.field, fs, zs, c.Locators(wrong), |fs|);
    Massey.ComplexityIff(c.field, fs, n);
    LocatorCount(c, wrong);
  }

  lemma LocatorCount(c: Params, ps: seq<nat>)
    requires c.Positions(ps)
    ensures |c.Locators(ps)| == |ps|
  {
  }

  lemma ZeroedWord(c: Params, w: seq<nat>)
    requires c.field.Primitive()
    ensures |Zeroed(c, w)| == |w| && Word(c.field, Zeroed(c, w))
  {
    hide GF.Primitive;
    c.field.OrderPositive();
  }

  lemma LeftIs(c: Params, w: seq<nat>)
    requires |w| == c.length <= c.field.Order() && |Erasures(c, w, |w|)| <= c.parity
    ensures var er, s := Erasures(c, w, |w|), c.Syndromes(Zeroed(c, w));
      |s| == c.parity && Left(c, w) == ForneySyndromes(c, s, er, |er|) && |Left(c, w)| == c.parity - |er|
  {
    hide GF.Order, ForneySyndromes;
  }

  lemma FewErasures(c: Params, w: seq<nat>, n: nat)
    requires c.length <= c.field.Order() && CorrectOneWord(c, w) == TooManyErrors(n)
    ensures |w| == c.length && |Erasures(c, w, |w|)| <= c.parity
  {
    hide GF.Order, Repair;
  }

  function Sum(s: seq<nat>): nat {
    if s == [] then 0 else s[0] + Sum(s[1..])
  }

  lemma {:induction false} SumLast(s: seq<nat>, x: nat)
    ensures Sum(s + [x]) == Sum(s) + x
  {
    if s == [] {
      assert s + [x] == [x];
    } else {
      SumLast(s[1..], x);
      assert (s + [x])[1..] == s[1..] + [x];
    }
  }

  lemma {:induction false} SumPositive(s: seq<nat>)
    ensures Sum(s) > 0 <==> exists i :: 0 <= i < |s| && s[i] > 0
  {
    if s != [] {
      SumPositive(s[1..]);
      if i :| 0 <= i < |s| && s[i] > 0 && i > 0 { assert s[1..][i - 1] > 0; }
      if Sum(s[1..]) > 0 {
        var i :| 0 <= i < |s[1..]| && s[1..][i] > 0;
        assert s[i + 1] > 0;
      }
    }
  }

  ghost function UncorrectedRows(c: Params, rows: seq<seq<nat>>, m: nat): (s: seq<nat>)
    requires c.length <= c.field.Order() && m <= |rows|
    ensures |s| == m && forall r :: 0 <= r < m ==> s[r] == Uncorrected(c, rows[r])
  {
    seq(m, r requires 0 <= r < m => Uncorrected(c, rows[r]))
  }

  ghost function CorrectionRows(c: Params, rows: seq<seq<nat>>, m: nat): (s: seq<nat>)
    requires c.length <= c.field.Order() && m <= |rows|
    ensures |s| == m && forall r :: 0 <= r < m ==> s[r] == Corrections(c, rows[r])
  {
    seq(m, r requires 0 <= r < m => Corrections(c, rows[r]))
  }

  /** No row below m ends the correction. */
  ghost predicate Quiet(c: Params, rows: seq<seq<nat>>, m: nat)
    requires c.length <= c.field.Order() && m <= |rows|
  {
    forall r :: 0 <= r < m ==> !Escapes(c, rows[r])
  }

  ghost predicate AllCorrected(c: Params, rows: seq<seq<nat>>, words: seq<seq<nat>>, m: nat)
    requires c.length <= c.field.Order() && m <= |rows|
  {
    |words| == m && forall r :: 0 <= r < m ==> CorrectOneWord(c, rows[r]).Ok? && words[r] == CorrectOneWord(c, rows[r]).value.word
  }

  /** Without a row that ends the correction, the counts are the sums over the rows. */
  lemma {:induction false} RowsSum(c: Params, rows: seq<seq<nat>>, m: nat)
    requires c.length <= c.field.Order() && m <= |rows| && Quiet(c, rows, m)
    ensures var r := CorrectRows(c, rows, m);
      && r.Ok? && r.value.uncorrected == Sum(UncorrectedRows(c, rows, m))
      && CorrectedCount(c, rows, m) == Sum(CorrectionRows(c, rows, m))
      && (r.value.uncorrected == 0 ==> AllCorrected(c, rows, r.value.words, m))
  {
    hide CorrectOneWord, GF.Order, CorrectRows, CorrectedCount;
    if m == 0 {
      RowsStart(c, rows);
    } else {
      RowsSum(c, rows, m - 1);
      RowsNext(c, rows, m - 1);
      assert UncorrectedRows(c, rows, m) == UncorrectedRows(c, rows, m - 1) + [Uncorrected(c, rows[m - 1])];
      assert CorrectionRows(c, rows, m) == CorrectionRows(c, rows, m - 1) + [Corrections(c, rows[m - 1])];
      SumLast(UncorrectedRows(c, rows, m - 1), Uncorrected(c, rows[m - 1]));
      SumLast(CorrectionRows(c, rows, m - 1), Corrections(c, rows[m - 1]));
    }
  }

  lemma RowsStop(c: Params, rows: seq<seq<nat>>, m: nat)
    requires c.length <= c.field.Order() && m < |rows| && !CorrectRows(c, rows, m).Ok?
    ensures CorrectRows(c, rows, m + 1) == CorrectRows(c, rows, m)
    ensures CorrectedCount(c, rows, m + 1) == CorrectedCount(c, rows, m)
  {
    hide CorrectOneWord, GF.Order;
  }

  /** The first row that ends the correction decides the outcome, and the rows behind it count for nothing. */
  lemma {:induction false} RowsEnd(c: Params, rows: seq<seq<nat>>, m: nat, e: nat)
    requires c.length <= c.field.Order() && e < m <= |rows| && Quiet(c, rows, e) && Escapes(c, rows[e])
    ensures var r: Outcome<Progress> := Failed(CorrectOneWord(c, rows[e])); CorrectRows(c, rows, m) == r
    ensures CorrectedCount(c, rows, m) == Sum(CorrectionRows(c, rows, e))
  {
    hide CorrectOneWord, GF.Order, CorrectRows, CorrectedCount, CorrectionRows, UncorrectedRows, Sum, Quiet;
    if e + 1 == m {
      RowsSum(c, rows, e);
      RowsNext(c, rows, e);
    } else {
      RowsEnd(c, rows, m - 1, e);
      RowsStop(c, rows, m - 1);
    }
  }

  lemma FirstEscape(c: Params, rows: seq<seq<nat>>, m: nat) returns (e: nat)
    requires c.length <= c.field.Order() && m <= |rows|
    ensures e <= m && Quiet(c, rows, e) && (e < m ==> Escapes(c, rows[e]))
  {
    hide Escapes, GF.Order;
    e := 0;
    while e < m && !Escapes(c, rows[e])
      invariant e <= m && Quiet(c, rows, e)
    {
      e := e + 1;
    }
  }

  /** The outcome of the message, from the outcomes of its rows. */
  lemma OutcomeIs(c: Codec, received: seq<nat>, done: Outcome<Progress>)
    requires c.code.parity <= c.code.length <= c.code.field.Order() && c.depth >= 1
    requires done == CorrectRows(c.code, ReceivedRows(c, received), c.depth)
    ensures var r := Correct(c, received);
      && (!done.Ok? ==> r == Failed(done))
      && (done.Ok? ==> if done.value.uncorrected > 0 then r == TooManyErrors(done.value.uncorrected)
           else |done.value.words| == c.depth && r == Ok(c.Transmitted(Columns(done.value.words, 0, c.DataLength()))))
  {
    hide GF.Order, Codec.Conventional, Codec.Transmitted, CorrectRows, Columns, Interleaved;
  }

  /** Unless a row ends the correction, a message is returned exactly when every row is, otherwise the errors of all
      rows that have too many are reported together; the counter is the sum of the corrected positions. */
  lemma ReportIs(c: Codec, received: seq<nat>, rows: seq<seq<nat>>)
    requires c.code.parity <= c.code.length <= c.code.field.Order() && c.depth >= 1 && rows == ReceivedRows(c, received)
    requires Quiet(c.code, rows, c.depth)
    ensures var r, n := Correct(c, received), Sum(UncorrectedRows(c.code, rows, c.depth));
      && (r.Ok? <==> forall i :: 0 <= i < c.depth ==> CorrectOneWord(c.code, rows[i]).Ok?)
      && (!r.Ok? ==> n > 0 && r == TooManyErrors(n))
    ensures CorrectedCount(c.code, rows, c.depth) == Sum(CorrectionRows(c.code, rows, c.depth))
  {
    hide *;
    var done := CorrectRows(c.code, rows, c.depth);
    RowsSum(c.code, rows, c.depth);
    OutcomeIs(c, received, done);
    SumRows(c.code, rows, c.depth);
  }

  /** Nothing is left uncorrected exactly when every row is returned. */
  lemma SumRows(c: Params, rows: seq<seq<nat>>, m: nat)
    requires c.length <= c.field.Order() && m <= |rows| && Quiet(c, rows, m)
    ensures Sum(UncorrectedRows(c, rows, m)) == 0 <==> forall i :: 0 <= i < m ==> CorrectOneWord(c, rows[i]).Ok?
  {
    hide CorrectOneWord, GF.Order;
    var s := UncorrectedRows(c, rows, m);
    SumPositive(s);
    if Sum(s) > 0 {
      var i :| 0 <= i < |s| && s[i] > 0;
      assert !CorrectOneWord(c, rows[i]).Ok?;
    } else {
      forall i | 0 <= i < m ensures CorrectOneWord(c, rows[i]).Ok? { assert !Escapes(c, rows[i]) && s[i] == 0; }
    }
  }

  /** Otherwise the first row that ends the correction decides, and the counter holds what was corrected before it. */
  lemma ReportEnds(c: Codec, received: seq<nat>, rows: seq<seq<nat>>) returns (e: nat)
    requires c.code.parity <= c.code.length <= c.code.field.Order() && c.depth >= 1 && rows == ReceivedRows(c, received)
    requires !Quiet(c.code, rows, c.depth)
    ensures e < c.depth && Quiet(c.code, rows, e) && Escapes(c.code, rows[e])
    ensures var r: Outcome<seq<nat>> := Failed(CorrectOneWord(c.code, rows[e])); Correct(c, received) == r
    ensures CorrectedCount(c.code, rows, c.depth) == Sum(CorrectionRows(c.code, rows, e))
  {
    hide *;
    e := FirstEscape(c.code, rows, c.depth);
    RowsEnd(c.code, rows, c.depth, e);
    OutcomeIs(c, received, CorrectRows(c.code, rows, c.depth));
    FailedTwice(CorrectOneWord(c.code, rows[e]), CorrectRows(c.code, rows, c.depth), Correct(c, received));
  }

  lemma FailedTwice<T, U, V>(a: Outcome<T>, b: Outcome<U>, d: Outcome<V>)
    requires !a.Ok? && b == Failed(a) && d == Failed(b)
    ensures d == Failed(a)
  {
  }

  // ---------------------------------------------------------------- the message returned

  /** Row r of a message that is read from whole rows is the data part of that row. */
  lemma ColumnsRow(c: Codec, words: seq<seq<nat>>, r: nat)
    requires c.code.parity <= c.code.length && |words| == c.depth && r < c.depth && |words[r]| == c.code.length
    ensures DataRow(c, Columns(words, 0, c.DataLength()), r) == words[r][..c.DataLength()]
  {
    var d := c.DataLength();
    var msg := Columns(words, 0, d);
    forall o: nat | o < d ensures Symbol(c.depth, d, msg, r, o) == words[r][o] {
      FlatBound(o, d, c.depth, r);
      FlatSplit(o, c.depth, r);
      ColumnSymbol(words, d, o * c.depth + r, r, o);
    }
  }

  lemma ColumnSymbol(words: seq<seq<nat>>, d: nat, k: nat, r: nat, o: nat)
    requires 0 < |words| && r < |words| && o < |words[r]| && k < d * |words| && k % |words| == r && k / |words| == o
    ensures Columns(words, 0, d)[k] == words[r][o]
  {
  }

  lemma ColumnsWord(F: GF, words: seq<seq<nat>>, d: nat)
    requires 0 < |words| && F.Size() > 0 && forall r :: 0 <= r < |words| ==> Word(F, words[r])
    ensures Word(F, Columns(words, 0, d))
  {
    hide GF.Size;
  }

  lemma TransmittedWord(c: Codec, w: seq<nat>)
    requires c.Proper() && Word(c.code.field, w)
    ensures Word(c.code.field, c.Transmitted(w)) && c.Conventional(c.Transmitted(w)) == w
  {
    ProperBytes(c, w);
    ConversionInverse(c, w);
    hide ToDual, FromDual, GF.Primitive, GF.Order;
    if c.dual { assert Two(8) == 256; }
  }

  /** A message is returned only if every row is; it is the data part of the corrected rows. */
  lemma ReturnedRows(c: Codec, received: seq<nat>, msg: seq<nat>, rows: seq<seq<nat>>) returns (words: seq<seq<nat>>)
    requires c.code.parity <= c.code.length <= c.code.field.Order() && c.depth >= 1 && rows == ReceivedRows(c, received)
    requires Correct(c, received) == Ok(msg)
    ensures AllCorrected(c.code, rows, words, c.depth) && |words| == c.depth
    ensures msg == c.Transmitted(Columns(words, 0, c.DataLength()))
  {
    hide *;
    var done := CorrectRows(c.code, rows, c.depth);
    OutcomeIs(c, received, done);
    if !Quiet(c.code, rows, c.depth) {
      var e := ReportEnds(c, received, rows);
    }
    RowsSum(c.code, rows, c.depth);
    words := done.value.words;
  }

  lemma CorrectedRow(c: Params, rows: seq<seq<nat>>, words: seq<seq<nat>>, m: nat, r: nat)
    requires c.Proper() && c.length <= c.field.Order() && r < m <= |rows| && AllCorrected(c, rows, words, m)
    ensures r < |words| && |words[r]| == c.length && Word(c.field, words[r]) && c.IsCodeword(words[r])
    ensures Near(c, rows[r], words[r], Corrections(c, rows[r]))
  {
    ProperPrimitive(c);
    ReturnsNear(c, rows[r]);
    CodewordLength(c, CorrectOneWord(c, rows[r]).value.word);
    hide Params.Proper, CorrectOneWord, GF.Order, Near, Params.IsCodeword;
  }

  lemma SplitRow(c: Params, w: seq<nat>)
    requires c.Proper() && c.parity <= c.length && c.IsCodeword(w) && |w| == c.length
    ensures w == w[..c.length - c.parity] + Parity(c, w[..c.length - c.parity])
  {
    var d := c.length - c.parity;
    assert w == w[..d] + w[d..];
    hide *;
    ParityUnique(c, w[..d], w[d..]);
  }

  /** Encoding the message that is returned gives in every row the codeword found there, which lies within the
      corrected positions of the row received. */
  lemma ReturnedIsNear(c: Codec, received: seq<nat>, msg: seq<nat>, rows: seq<seq<nat>>)
    requires c.Proper() && rows == ReceivedRows(c, received)
    requires c.code.parity <= c.code.length <= c.code.field.Order() && Correct(c, received) == Ok(msg)
    ensures Word(c.code.field, msg) && |msg| == c.DataLength() * c.depth
    ensures forall r :: 0 <= r < c.depth ==> var v := SentRows(c, msg)[r];
      c.code.IsCodeword(v) && Near(c.code, rows[r], v, Corrections(c.code, rows[r]))
  {
    hide *;
    CodecIs(c);
    var words := ReturnedRows(c, received, msg, rows);
    var cols := Columns(words, 0, c.DataLength());
    forall r: nat | r < c.depth
      ensures r < |words| && |words[r]| == c.code.length && Word(c.code.field, words[r]) && c.code.IsCodeword(words[r])
      ensures Near(c.code, rows[r], words[r], Corrections(c.code, rows[r]))
    {
      CorrectedRow(c.code, rows, words, c.depth, r);
    }
    ColumnsWord(c.code.field, words, c.DataLength());
    TransmittedWord(c, cols);
    forall r: nat | r < c.depth ensures SentRows(c, msg)[r] == words[r] {
      SentRowIs(c, msg, cols, r);
      ColumnsRow(c, words, r);
      SplitRow(c.code, words[r]);
    }
  }

  lemma CodecIs(c: Codec)
    requires c.Proper()
    ensures c.depth >= 1 && c.code.Proper() && c.code.field.Size() > 0
    ensures c.DataLength() == c.code.length - c.code.parity
  {
    ProperPrimitive(c.code);
    hide Params.Proper, GF.Primitive;
  }
}
