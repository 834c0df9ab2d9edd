/** Whole messages: interleaving with virtual fill, the dual basis, encoding and decoding. */
module Message {
  import opened Bits
  import opened Galois
  import opened Polynomial
  import opened Code
  import opened Decoding
  import opened Completeness
  import opened Encoding
  import opened DualBasis

  datatype Codec = Codec(code: Params, depth: nat, dual: bool) {

    /** The parameters the codec is built for; the dual basis exists only for bytes. */
    ghost predicate Proper() {
      code.Proper() && depth >= 1 && (dual ==> code.field.bits == 8)
    }

    function DataLength(): int { code.length - code.parity }

    /** What the codec computes with, for symbols as they are transmitted. */
    function Conventional(w: seq<nat>): (v: seq<nat>)
      ensures |v| == |w|
    {
      if dual then seq(|w|, i requires 0 <= i < |w| => if w[i] < 256 then FromDual(w[i]) else w[i]) else w
    }

    function Transmitted(w: seq<nat>): (v: seq<nat>)
      ensures |v| == |w|
    {
      if dual then seq(|w|, i requires 0 <= i < |w| => if w[i] < 256 then ToDual(w[i]) else w[i]) else w
    }
  }

  /** Symbol o of row r: messages shorter than width * depth are preceded by zeros. */
  function Symbol(depth: nat, width: nat, msg: seq<nat>, r: nat, o: nat): nat {
    var k, fill := o * depth + r, width * depth - |msg|;
    if fill <= k < width * depth then msg[k - fill] else 0
  }

  /** The rows of a message dealt out symbol by symbol, `width` symbols to a row of `length`. */
  function Interleaved(depth: nat, width: nat, length: nat, msg: seq<nat>): (rows: seq<seq<nat>>)
    ensures |rows| == depth && forall r :: 0 <= r < depth ==> |rows[r]| == length
  {
    seq(depth, r requires 0 <= r < depth => seq(length, o requires 0 <= o < length => Symbol(depth, width, msg, r, o)))
  }

  /** The k-th symbol of the rows read column by column. */
  function Gathered(rows: seq<seq<nat>>, k: nat, from: nat): nat
    requires |rows| > 0
  {
    var r, o := k % |rows|, k / |rows| + from;
    if o < |rows[r]| then rows[r][o] else 0
  }

  /** `width` columns of the rows from column `from` on, read column by column. */
  function Columns(rows: seq<seq<nat>>, from: nat, width: nat): (msg: seq<nat>)
    requires |rows| > 0
    ensures |msg| == width * |rows|
  {
    seq(width * |rows|, k requires 0 <= k < width * |rows| => Gathered(rows, k, from))
  }

  ghost function Encode(c: Codec, msg: seq<nat>): (parity: seq<nat>)
    requires c.code.parity <= c.code.length && c.depth >= 1
    ensures |parity| == c.code.parity * c.depth
  {
    var rows := Interleaved(c.depth, c.DataLength(), c.code.length, c.Conventional(msg));
    var encoded := seq(c.depth, r requires 0 <= r < c.depth => Divided(c.code, rows[r], c.DataLength()));
    c.Transmitted(Columns(encoded, c.DataLength(), c.code.parity))
  }

  /** Corrected rows, and the totals of corrected and uncorrectable errors. */
  datatype Progress = Progress(words: seq<seq<nat>>, corrected: nat, uncorrected: nat)

  ghost function CorrectRows(c: Params, rows: seq<seq<nat>>, m: nat): (r: Outcome<Progress>)
    requires m <= |rows| && c.length <= c.field.Order()
    ensures r.Ok? && r.value.uncorrected == 0 ==> |r.value.words| == m
    ensures r.Ok? ==> forall i :: 0 <= i < |r.value.words| ==> |r.value.words[i]| == c.length
  {
    if m == 0 then Ok(Progress([], 0, 0))
    else
      var before := CorrectRows(c, rows, m - 1);
      if !before.Ok? then before
      else
        match CorrectOneWord(c, rows[m - 1])
        case Ok(x) => Ok(Progress(before.value.words + [x.word], before.value.corrected + x.corrected, before.value.uncorrected))
        case TooManyErrors(n) => Ok(Progress(before.value.words, before.value.corrected, before.value.uncorrected + n))
        case LogicError => LogicError
        case ValueTooSmall => ValueTooSmall
  }

  /** What the counter of corrected errors holds after m rows; rows after an exception that escapes add nothing. */
  ghost function CorrectedCount(c: Params, rows: seq<seq<nat>>, m: nat): nat
    requires m <= |rows| && c.length <= c.field.Order()
  {
    if m == 0 then 0
    else
      CorrectedCount(c, rows, m - 1)
      + if CorrectRows(c, rows, m - 1).Ok? && CorrectOneWord(c, rows[m - 1]).Ok? then CorrectOneWord(c, rows[m - 1]).value.corrected else 0
  }

  lemma RowsStart(c: Params, rows: seq<seq<nat>>)
    requires c.length <= c.field.Order()
    ensures CorrectRows(c, rows, 0) == Ok(Progress([], 0, 0)) && CorrectedCount(c, rows, 0) == 0
  {
  }

  lemma RowsNext(c: Params, rows: seq<seq<nat>>, m: nat)
    requires m < |rows| && c.length <= c.field.Order() && CorrectRows(c, rows, m).Ok?
    ensures var before, fixed := CorrectRows(c, rows, m).value, CorrectOneWord(c, rows[m]);
      && CorrectRows(c, rows, m + 1)
         == (match fixed
             case Ok(x) => Ok(Progress(before.words + [x.word], before.corrected + x.corrected, before.uncorrected))
             case TooManyErrors(n) => Ok(Progress(before.words, before.corrected, before.uncorrected + n))
             case LogicError => LogicError
             case ValueTooSmall => ValueTooSmall)
      && CorrectedCount(c, rows, m + 1) == CorrectedCount(c, rows, m) + if fixed.Ok? then fixed.value.corrected else 0
  {
    hide CorrectOneWord, GF.Order;
  }

  /** Correct every row, then drop the parity; too many errors in any row are reported together. */
  ghost function Correct(c: Codec, received: seq<nat>): (r: Outcome<seq<nat>>)
    requires c.code.parity <= c.code.length <= c.code.field.Order() && c.depth >= 1
    ensures r.Ok? ==> |r.value| == c.DataLength() * c.depth
  {
    var rows := Interleaved(c.depth, c.code.length, c.code.length, c.Conventional(received));
    var done := CorrectRows(c.code, rows, c.depth);
    if !done.Ok? then Failed(done)
    else if done.value.uncorrected > 0 then TooManyErrors(done.value.uncorrected)
    else Ok(c.Transmitted(Columns(done.value.words, 0, c.DataLength())))
  }

  /** Correct, then drop the virtual fill. */
  ghost function Decode(c: Codec, received: seq<nat>): (r: Outcome<seq<nat>>)
    requires c.code.parity <= c.code.length <= c.code.field.Order() && c.depth >= 1
    requires c.code.parity * c.depth <= |received| <= c.code.length * c.depth
  {
    var r := Correct(c, received);
    var fill := c.code.length * c.depth - |received|;
    if r.Ok? && fill <= |r.value| then Ok(r.value[fill..]) else r
  }

  // ---------------------------------------------------------------- interleaving

  lemma FlatSplit(o: nat, depth: nat, r: nat)
    requires r < depth
    ensures (o * depth + r) / depth == o && (o * depth + r) % depth == r
  {
    ModUnique(o * depth + r, depth, o, r);
  }

  lemma FlatBound(o: nat, width: nat, depth: nat, r: nat)
    requires r < depth
    ensures o * depth + r < width * depth <==> o < width
  {
    if o < width { MulMonotone(depth, o + 1, width); } else { MulMonotone(depth, width, o); }
  }

  /** The symbol at index k of a message of `width` columns preceded by its fill. */
  function Filled(msg: seq<nat>, total: nat, k: nat): nat {
    if total - |msg| <= k < total then msg[k - (total - |msg|)] else 0
  }

  lemma SymbolFilled(depth: nat, width: nat, msg: seq<nat>, r: nat, o: nat)
    requires |msg| <= width * depth
    ensures Symbol(depth, width, msg, r, o) == Filled(msg, width * depth, o * depth + r)
  {
  }

  /** Reading the columns of an interleaved message gives the message preceded by its fill. */
  lemma ColumnsOfInterleaved(depth: nat, width: nat, length: nat, msg: seq<nat>)
    requires depth >= 1 && width <= length && |msg| <= width * depth
    ensures Columns(Interleaved(depth, width, length, msg), 0, width) == Zeros(width * depth - |msg|) + msg
  {
    var rows := Interleaved(depth, width, length, msg);
    var out := Columns(rows, 0, width);
    forall k | 0 <= k < width * depth ensures out[k] == (Zeros(width * depth - |msg|) + msg)[k] {
      var r, o := k % depth, k / depth;
      DivMod(k, depth);
      FlatBound(o, width, depth, r);
      assert out[k] == rows[r][o];
    }
  }

  // ---------------------------------------------------------------- conversions

  lemma ConversionInverse(c: Codec, w: seq<nat>)
    requires c.dual ==> forall i :: 0 <= i < |w| ==> w[i] < 256
    ensures c.Transmitted(c.Conventional(w)) == w && c.Conventional(c.Transmitted(w)) == w
  {
    hide ToDual, FromDual;
    if c.dual {
      forall i | 0 <= i < |w| ensures FromDual(ToDual(w[i])) == w[i] && ToDual(FromDual(w[i])) == w[i] { Inverse(w[i]); }
    }
  }

  lemma ConversionConcat(c: Codec, a: seq<nat>, b: seq<nat>)
    ensures c.Conventional(a + b) == c.Conventional(a) + c.Conventional(b)
    ensures c.Transmitted(a + b) == c.Transmitted(a) + c.Transmitted(b)
  {
    hide ToDual, FromDual;
  }

  lemma ProperBytes(c: Codec, w: seq<nat>)
    requires c.Proper() && Word(c.code.field, w)
    ensures c.dual ==> forall i :: 0 <= i < |w| ==> w[i] < 256
    ensures Word(c.code.field, c.Conventional(w))
  {
    hide ToDual, FromDual, GF.Primitive, GF.Order;
    if c.dual { assert Two(8) == 256; }
  }

  // ---------------------------------------------------------------- what is sent

  /** The data part of row r. */
  function DataRow(c: Codec, conv: seq<nat>, r: nat): (d: seq<nat>)
    requires c.code.parity <= c.code.length
    ensures |d| == c.DataLength()
  {
    seq(c.DataLength(), o requires 0 <= o < c.DataLength() => Symbol(c.depth, c.DataLength(), conv, r, o))
  }

  lemma DataRowWord(c: Codec, conv: seq<nat>, r: nat)
    requires c.code.parity <= c.code.length && Word(c.code.field, conv)
    ensures Word(c.code.field, DataRow(c, conv, r))
  {
    hide GF.Size;
  }

  lemma EncodedRow(c: Codec, conv: seq<nat>, r: nat)
    requires c.code.parity <= c.code.length && r < c.depth && |conv| <= c.DataLength() * c.depth
    ensures Interleaved(c.depth, c.DataLength(), c.code.length, conv)[r] == DataRow(c, conv, r) + Zeros(c.code.parity)
  {
    var row := Interleaved(c.depth, c.DataLength(), c.code.length, conv)[r];
    forall o | 0 <= o < c.code.length ensures row[o] == (DataRow(c, conv, r) + Zeros(c.code.parity))[o] {
      FlatBound(o, c.DataLength(), c.depth, r);
    }
  }

  /** The parity symbols before conversion: column by column over the rows. */
  ghost function ParityColumns(c: Codec, conv: seq<nat>): (p: seq<nat>)
    requires c.code.parity <= c.code.length && c.depth >= 1
    ensures |p| == c.code.parity * c.depth
  {
    seq(c.code.parity * c.depth, k requires 0 <= k < c.code.parity * c.depth =>
      if k / c.depth < c.code.parity then Parity(c.code, DataRow(c, conv, k % c.depth))[k / c.depth] else 0)
  }

  lemma EncodeIsParity(c: Codec, msg: seq<nat>, conv: seq<nat>)
    requires c.code.parity <= c.code.length && c.depth >= 1 && conv == c.Conventional(msg)
    requires |msg| <= c.DataLength() * c.depth
    ensures Encode(c, msg) == c.Transmitted(ParityColumns(c, conv))
  {
    hide Divided, Codec.Conventional, Codec.Transmitted;
    var d := c.DataLength();
    var rows := Interleaved(c.depth, d, c.code.length, conv);
    var encoded := seq(c.depth, r requires 0 <= r < c.depth => Divided(c.code, rows[r], d));
    var out, p := Columns(encoded, d, c.code.parity), ParityColumns(c, conv);
    forall k | 0 <= k < c.code.parity * c.depth ensures out[k] == p[k] {
      var r, o := k % c.depth, k / c.depth;
      DivMod(k, c.depth);
      FlatBound(o, c.code.parity, c.depth, r);
      EncodedRow(c, conv, r);
    }
    assert out == p;
  }

  /** Row r of the transmitted message is the codeword of its data row. */
  lemma SentRow(c: Codec, conv: seq<nat>, r: nat)
    requires c.code.parity <= c.code.length && c.depth >= 1 && r < c.depth
    requires |conv| <= c.DataLength() * c.depth
    ensures var d := DataRow(c, conv, r);
      Interleaved(c.depth, c.code.length, c.code.length, conv + ParityColumns(c, conv))[r] == d + Parity(c.code, d)
  {
    var d, p := DataRow(c, conv, r), ParityColumns(c, conv);
    hide Parity, ParityColumns, DataRow, Symbol;
    var row := Interleaved(c.depth, c.code.length, c.code.length, conv + p)[r];
    forall o: nat | o < c.code.length ensures row[o] == (d + Parity(c.code, d))[o] { SentSymbol(c, conv, r, o); }
  }

  lemma SentSymbol(c: Codec, conv: seq<nat>, r: nat, o: nat)
    requires c.code.parity <= c.code.length && c.depth >= 1 && r < c.depth && o < c.code.length
    requires |conv| <= c.DataLength() * c.depth
    ensures var d := DataRow(c, conv, r);
      Symbol(c.depth, c.code.length, conv + ParityColumns(c, conv), r, o) == (d + Parity(c.code, d))[o]
  {
    hide *;
    var k := FlatIndex(o, c.depth, r);
    SentFilled(c, conv, ParityColumns(c, conv), r, o, k);
    if o < c.DataLength() {
      DataRowAt(c, conv, r, o);
    } else {
      var i := o - c.DataLength();
      var j := FlatIndex(i, c.depth, r);
      FlatSum(i, c.DataLength(), c.depth, r, o, k);
      SentParity(c, conv, r, i, j);
    }
  }

  lemma DataRowAt(c: Codec, conv: seq<nat>, r: nat, o: nat)
    requires c.code.parity <= c.code.length && o < c.DataLength()
    ensures DataRow(c, conv, r)[o] == Symbol(c.depth, c.DataLength(), conv, r, o)
  {
    hide Symbol;
  }

  /** A symbol of the sent row is a symbol of the data row, or one of the parity symbols. */
  lemma SentFilled(c: Codec, conv: seq<nat>, p: seq<nat>, r: nat, o: nat, k: nat)
    requires c.code.parity <= c.code.length && r < c.depth && o < c.code.length && k == o * c.depth + r
    requires |conv| <= c.DataLength() * c.depth && |p| == c.code.parity * c.depth
    ensures o >= c.DataLength() ==> 0 <= k - c.DataLength() * c.depth < |p|
    ensures Symbol(c.depth, c.code.length, conv + p, r, o)
         == if o < c.DataLength() then Symbol(c.depth, c.DataLength(), conv, r, o) else p[k - c.DataLength() * c.depth]
  {
    var total: nat := c.DataLength() * c.depth;
    SymbolCounts(c);
    SymbolFilled(c.depth, c.code.length, conv + p, r, o);
    SymbolFilled(c.depth, c.DataLength(), conv, r, o);
    FlatBound(o, c.code.length, c.depth, r);
    FlatBound(o, c.DataLength(), c.depth, r);
    FilledConcat(conv, p, total, k);
    hide Symbol, Filled;
  }

  /** A message and its parity, preceded by the fill of the message. */
  lemma FilledConcat(a: seq<nat>, p: seq<nat>, d: nat, k: nat)
    requires |a| <= d && k < d + |p|
    ensures Filled(a + p, d + |p|, k) == if k < d then Filled(a, d, k) else p[k - d]
  {
  }

  lemma SentParity(c: Codec, conv: seq<nat>, r: nat, i: nat, j: nat)
    requires c.code.parity <= c.code.length && c.depth >= 1 && r < c.depth && i < c.code.parity && j == i * c.depth + r
    ensures j < |ParityColumns(c, conv)| && ParityColumns(c, conv)[j] == Parity(c.code, DataRow(c, conv, r))[i]
  {
    hide *;
    FlatBound(i, c.code.parity, c.depth, r);
    FlatSplit(i, c.depth, r);
    ParityIs(c, conv, j, r, i);
  }

  lemma FlatIndex(o: nat, depth: nat, r: nat) returns (k: nat)
    ensures k == o * depth + r
  {
    k := o * depth + r;
  }

  lemma FlatSum(i: nat, d: nat, depth: nat, r: nat, o: nat, k: nat)
    requires o == i + d && k == o * depth + r
    ensures k - d * depth == i * depth + r
  {
  }

  lemma ParityIs(c: Codec, conv: seq<nat>, j: nat, r: nat, i: nat)
    requires c.code.parity <= c.code.length && c.depth >= 1 && r < c.depth && i < c.code.parity
    requires j < c.code.parity * c.depth && j / c.depth == i && j % c.depth == r
    ensures ParityColumns(c, conv)[j] == Parity(c.code, DataRow(c, conv, r))[i]
  {
    hide Parity, DataRow;
  }

  /** What the receiver's rows should be. */
  ghost function SentRows(c: Codec, msg: seq<nat>): (rows: seq<seq<nat>>)
    requires c.code.parity <= c.code.length && c.depth >= 1
    ensures |rows| == c.depth
  {
    Interleaved(c.depth, c.code.length, c.code.length, c.Conventional(msg + Encode(c, msg)))
  }

  ghost function ReceivedRows(c: Codec, received: seq<nat>): (rows: seq<seq<nat>>)
    ensures |rows| == c.depth
  {
    Interleaved(c.depth, c.code.length, c.code.length, c.Conventional(received))
  }

  lemma SentRowIs(c: Codec, msg: seq<nat>, conv: seq<nat>, r: nat)
    requires c.Proper() && Word(c.code.field, msg) && |msg| <= c.DataLength() * c.depth
    requires conv == c.Conventional(msg) && r < c.depth
    ensures var d := DataRow(c, conv, r); SentRows(c, msg)[r] == d + Parity(c.code, d)
    ensures c.code.IsCodeword(SentRows(c, msg)[r])
  {
    ProperPrimitive(c.code);
    ProperBytes(c, msg);
    DataRowWord(c, conv, r);
    Systematic(c.code, DataRow(c, conv, r));
    ParityColumnsWord(c, conv);
    ProperBytes(c, ParityColumns(c, conv));
    hide Encode, ParityColumns, Codec.Conventional, Codec.Transmitted, Interleaved, Params.Proper, GF.Primitive, Parity, DataRow, Params.IsCodeword;
    EncodeIsParity(c, msg, conv);
    ConversionConcat(c, msg, Encode(c, msg));
    ConversionInverse(c, ParityColumns(c, conv));
    SentRow(c, conv, r);
  }

  lemma ParitySymbol(c: Codec, conv: seq<nat>, r: nat, i: nat)
    requires c.code.Proper() && Word(c.code.field, conv) && i < c.code.parity
    ensures c.code.field.InField(Parity(c.code, DataRow(c, conv, r))[i])
  {
    ProperPrimitive(c.code);
    hide Parity, DataRow, GF.Primitive, Params.Proper, Params.Syndromes;
    var d := DataRow(c, conv, r);
    DataRowWord(c, conv, r);
    Systematic(c.code, d);
    assert Parity(c.code, d)[i] == (d + Parity(c.code, d))[|d| + i];
  }

  lemma ParityColumnAt(c: Codec, conv: seq<nat>, k: nat)
    requires c.code.Proper() && c.depth >= 1 && Word(c.code.field, conv) && k < c.code.parity * c.depth
    ensures c.code.parity <= c.code.length && c.code.field.InField(ParityColumns(c, conv)[k])
  {
    ProperPrimitive(c.code);
    c.code.field.OrderPositive();
    DivMod(k, c.depth);
    FlatBound(k / c.depth, c.code.parity, c.depth, k % c.depth);
    hide Parity, DataRow, GF.Primitive, GF.Order, GF.Size, Params.Proper;
    ParitySymbol(c, conv, k % c.depth, k / c.depth);
  }

  lemma ParityColumnsWord(c: Codec, conv: seq<nat>)
    requires c.Proper() && Word(c.code.field, conv)
    ensures c.code.parity <= c.code.length && Word(c.code.field, ParityColumns(c, conv))
  {
    ProperPrimitive(c.code);
    hide ParityColumns, GF.InField, Params.Proper;
    forall k: nat | k < |ParityColumns(c, conv)| ensures c.code.field.InField(ParityColumns(c, conv)[k]) {
      ParityColumnAt(c, conv, k);
    }
  }

  // ---------------------------------------------------------------- decoding a message

  /** A received row that the decoder is sure to turn into the sent one. */
  ghost predicate Recoverable(c: Params, w: seq<nat>, v: seq<nat>)
    requires c.field.Order() > 0
  {
    && Correctable(c, w, v)
    && (Zeroed(c, w) == v || (Aligned(c) && Removable(c, Erasures(c, w, |w|))))
  }

  lemma RowRecovered(c: Params, w: seq<nat>, v: seq<nat>)
    requires c.Proper() && c.field.Order() > 0 && Recoverable(c, w, v)
    ensures var r := CorrectOneWord(c, w); r.Ok? && r.value.word == v && (w == v ==> r.value.corrected == 0)
  {
    ZeroedSent(c, w, v);
    hide Params.Proper, GF.Primitive, CorrectOneWord, Zeroed, Erasures, Wrong, Aligned, Removable, Correctable;
    Decodes(c, w, v);
  }

  lemma ZeroedSent(c: Params, w: seq<nat>, v: seq<nat>)
    requires Correctable(c, w, v)
    ensures w == v ==> Zeroed(c, w) == v
  {
  }

  ghost predicate AllRecoverable(c: Params, rows: seq<seq<nat>>, sent: seq<seq<nat>>)
    requires |rows| == |sent| && c.field.Order() > 0
  {
    forall r :: 0 <= r < |rows| ==> Recoverable(c, rows[r], sent[r])
  }

  lemma RecoverableAt(c: Params, rows: seq<seq<nat>>, sent: seq<seq<nat>>, r: nat)
    requires |rows| == |sent| && c.field.Order() > 0 && r < |rows| && AllRecoverable(c, rows, sent)
    ensures Recoverable(c, rows[r], sent[r])
  {
    hide Recoverable;
  }

  /** Recoverable rows are corrected to the sent rows, and nothing is reported uncorrectable. */
  lemma {:induction false} RowsRecovered(c: Params, rows: seq<seq<nat>>, sent: seq<seq<nat>>, m: nat)
    requires c.Proper() && c.length <= c.field.Order() && c.field.Order() > 0 && m <= |rows| == |sent|
    requires AllRecoverable(c, rows, sent)
    ensures var r := CorrectRows(c, rows, m);
      && r.Ok? && r.value.words == sent[..m] && r.value.uncorrected == 0
      && ((forall r :: 0 <= r < m ==> rows[r] == sent[r]) ==> r.value.corrected == 0)
  {
    hide *;
    if m == 0 {
      RowsStart(c, rows);
    } else {
      RowsRecovered(c, rows, sent, m - 1);
      assert sent[..m] == sent[..m - 1] + [sent[m - 1]];
      RecoverableAt(c, rows, sent, m - 1);
      RowRecovered(c, rows[m - 1], sent[m - 1]);
      RowsNext(c, rows, m - 1);
    }
  }

  /** The data columns of the sent rows are the message, preceded by its fill. */
  lemma SentColumns(c: Codec, msg: seq<nat>, conv: seq<nat>)
    requires c.Proper() && Word(c.code.field, msg) && |msg| <= c.DataLength() * c.depth && conv == c.Conventional(msg)
    ensures Columns(SentRows(c, msg), 0, c.DataLength()) == Zeros(c.DataLength() * c.depth - |msg|) + conv
  {
    hide Params.Proper, GF.Primitive, Encode, Parity, Codec.Conventional, SentRows, Params.IsCodeword;
    var d, sent := c.DataLength(), SentRows(c, msg);
    var rows := Interleaved(c.depth, d, c.code.length, conv);
    ProperPrimitive(c.code);
    ColumnsOfInterleaved(c.depth, d, c.code.length, conv);
    var a, b := Columns(sent, 0, d), Columns(rows, 0, d);
    forall k | 0 <= k < d * c.depth ensures a[k] == b[k] {
      var r, o := k % c.depth, k / c.depth;
      DivMod(k, c.depth);
      FlatBound(o, d, c.depth, r);
      SentRowIs(c, msg, conv, r);
      assert sent[r][o] == DataRow(c, conv, r)[o];
    }
    assert a == b;
  }

  lemma DecodeFromRows(c: Codec, msg: seq<nat>, conv: seq<nat>, received: seq<nat>, sent: seq<seq<nat>>, fill: nat)
    requires c.code.parity <= c.code.length <= c.code.field.Order() && c.depth >= 1
    requires c.code.parity * c.depth <= |received| <= c.code.length * c.depth
    requires fill == c.code.length * c.depth - |received| && |conv| == |msg|
    requires |sent| > 0 && Columns(sent, 0, c.DataLength()) == Zeros(fill) + conv
    requires c.Transmitted(conv) == msg
    requires var r := CorrectRows(c.code, ReceivedRows(c, received), c.depth);
      r.Ok? && r.value.words == sent && r.value.uncorrected == 0
    ensures Decode(c, received) == Ok(msg)
  {
    ConversionConcat(c, Zeros(fill), conv);
    hide GF.Order, Codec.Conventional, Codec.Transmitted, CorrectRows, Columns;
    assert (c.Transmitted(Zeros(fill)) + msg)[fill..] == msg;
  }

  /** A received message decodes to the sent one whenever every row is recoverable. */
  lemma DecodeRecovers(c: Codec, msg: seq<nat>, received: seq<nat>)
    requires c.Proper() && Word(c.code.field, msg) && |msg| <= c.DataLength() * c.depth
    requires |received| == |msg| + c.code.parity * c.depth
    requires forall r :: 0 <= r < c.depth ==> Recoverable(c.code, ReceivedRows(c, received)[r], SentRows(c, msg)[r])
    ensures c.code.parity * c.depth <= |received| <= c.code.length * c.depth
    ensures Decode(c, received) == Ok(msg)
  {
    ProperPrimitive(c.code);
    ProperBytes(c, msg);
    ConversionInverse(c, msg);
    SymbolCounts(c);
    var conv, sent, rows := c.Conventional(msg), SentRows(c, msg), ReceivedRows(c, received);
    RecoveredRows(c.code, rows, sent);
    SentColumns(c, msg, conv);
    hide *;
    DecodeFromRows(c, msg, conv, received, sent, c.code.length * c.depth - |received|);
  }

  lemma RecoveredRows(c: Params, rows: seq<seq<nat>>, sent: seq<seq<nat>>)
    requires c.Proper() && |rows| == |sent| && c.field.Order() > 0 && AllRecoverable(c, rows, sent)
    ensures var r := CorrectRows(c, rows, |rows|);
      r.Ok? && r.value.words == sent && r.value.uncorrected == 0
  {
    ProperPrimitive(c);
    hide *;
    RowsRecovered(c, rows, sent, |rows|);
    assert sent[..|rows|] == sent;
  }

  lemma SymbolCounts(c: Codec)
    ensures c.code.length * c.depth == c.DataLength() * c.depth + c.code.parity * c.depth
  {
  }

  /** Decoding what was encoded gives the message back, with nothing corrected. */
  lemma RoundTrip(c: Codec, msg: seq<nat>)
    requires c.Proper() && Word(c.code.field, msg) && |msg| <= c.DataLength() * c.depth
    ensures var received := msg + Encode(c, msg);
      && c.code.parity * c.depth <= |received| <= c.code.length * c.depth
      && Decode(c, received) == Ok(msg)
      && CorrectRows(c.code, ReceivedRows(c, received), c.depth).Ok?
      && CorrectRows(c.code, ReceivedRows(c, received), c.depth).value.corrected == 0
  {
    ProperPrimitive(c.code);
    var conv, sent := c.Conventional(msg), SentRows(c, msg);
    hide Params.Proper, GF.Primitive, Codec.Conventional, Codec.Transmitted, CorrectRows, Interleaved, Recoverable, Encode, Decode;
    var received := msg + Encode(c, msg);
    assert ReceivedRows(c, received) == sent;
    forall r | 0 <= r < c.depth ensures Recoverable(c.code, sent[r], sent[r]) {
      SentRowIs(c, msg, conv, r);
      CodewordRecoverable(c.code, sent[r]);
    }
    DecodeRecovers(c, msg, received);
    RowsRecovered(c.code, sent, sent, c.depth);
  }

  lemma CodewordRecoverable(c: Params, v: seq<nat>)
    requires c.Proper() && c.IsCodeword(v)
    ensures Recoverable(c, v, v)
  {
    CodewordLength(c, v);
    hide Params.Proper, GF.Primitive, GF.Order, Aligned, Removable;
    NothingErased(c, v, |v|);
    assert Wrong(c, v, v) == {};
  }

  lemma {:induction false} NothingErased(c: Params, w: seq<nat>, m: nat)
    requires m <= |w| && Word(c.field, w)
    ensures Erasures(c, w, m) == []
  {
    if m > 0 { NothingErased(c, w, m - 1); }
  }
}
