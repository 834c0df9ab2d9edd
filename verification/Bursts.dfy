/** What interleaving is for: a burst of changed symbols is dealt out to all rows, so that messages survive bursts as many
    times longer as there are rows. */
module Bursts {
  import opened Bits
  import opened Galois
  import opened Polynomial
  import opened Code
  import opened Decoding
  import opened Completeness
  import opened Exactness
  import opened DualBasis
  import opened Message

  /** The positions at which two words differ. */
  function Differ(w: seq<nat>, v: seq<nat>): set<nat>
    requires |w| == |v|
  {
    set o: nat | o < |w| && w[o] != v[o]
  }

  /** The words differ only within n symbols from index `at` on. */
  predicate Burst(w: seq<nat>, v: seq<nat>, at: nat, n: nat)
    requires |w| == |v|
  {
    forall i :: 0 <= i < |w| && w[i] != v[i] ==> at <= i < at + n
  }

  lemma {:induction false} WithinCount(d: set<nat>, lo: int, t: nat)
    requires forall o :: o in d ==> lo <= o < lo + t
    ensures |d| <= t
  {
    if t == 0 {
      assert d == {};
    } else {
      var last := lo + t - 1;
      if last >= 0 && last in d {
        WithinCount(d - {last}, lo, t - 1);
      } else {
        WithinCount(d, lo, t - 1);
      }
    }
  }

  /** A word that differs from a codeword in at most half as many positions as there is parity is within capability. */
  lemma FewDiffer(c: Params, w: seq<nat>, v: seq<nat>)
    requires |w| == |v| == c.length && c.IsCodeword(v) && 2 * |Differ(w, v)| <= c.parity
    ensures Correctable(c, w, v)
  {
    CodewordLength(c, v);
    hide GF.InField, Params.IsCodeword;
    var er, d := Erasures(c, w, |w|), Differ(w, v);
    var e, f := Elements(er), Wrong(c, w, v);
    DistinctCount(er);
    forall p | p in e ensures p in d && p !in f {
      ElementsIn(er, p);
      assert c.field.InField(v[p]);
    }
    SubsetCount(e + f, d);
  }

  /** The symbols of one row are `depth` apart. */
  lemma Apart(x: int, depth: nat, o: nat, t: nat)
    requires depth >= 1 && x <= o * depth < x + depth * t
    ensures Start(x, depth) <= o < Start(x, depth) + t
  {
    var s := Start(x, depth);
    if o < s { Times(o + 1, s, depth); }
    if o >= s + t { Times(s + t, o, depth); }
  }

  /** The first row index whose symbol is at x or behind it. */
  function Start(x: int, depth: nat): (s: int)
    requires depth >= 1
    ensures x <= s * depth < x + depth
  {
    (x + depth - 1) / depth
  }

  lemma Times(a: int, b: int, depth: nat)
    requires a <= b
    ensures a * depth <= b * depth
  {
  }

  /** Where the symbol at column o of row r comes from: an index of the message, or the fill. */
  lemma RowSymbols(depth: nat, width: nat, w: seq<nat>, v: seq<nat>, r: nat, o: nat) returns (i: int)
    requires |w| == |v|
    ensures i == o * depth + r - (width * depth - |w|)
    ensures Symbol(depth, width, w, r, o) != Symbol(depth, width, v, r, o) ==> 0 <= i < |w| && w[i] != v[i]
  {
    i := o * depth + r - (width * depth - |w|);
  }

  /** Of a burst that is `depth` times t symbols long, a row gets at most t. */
  lemma BurstInRow(depth: nat, width: nat, w: seq<nat>, v: seq<nat>, at: nat, t: nat, r: nat)
    requires depth >= 1 && |w| == |v| && Burst(w, v, at, depth * t) && r < depth
    ensures |Differ(Interleaved(depth, width, width, w)[r], Interleaved(depth, width, width, v)[r])| <= t
  {
    var a, b := Interleaved(depth, width, width, w)[r], Interleaved(depth, width, width, v)[r];
    var x := at + (width * depth - |w|) - r;
    forall o | o in Differ(a, b) ensures Start(x, depth) <= o < Start(x, depth) + t {
      var i := RowSymbols(depth, width, w, v, r, o);
      assert at <= i < at + depth * t;
      Apart(x, depth, o, t);
    }
    WithinCount(Differ(a, b), Start(x, depth), t);
  }

  lemma ConversionBurst(c: Codec, w: seq<nat>, v: seq<nat>, at: nat, n: nat)
    requires |w| == |v| && Burst(w, v, at, n)
    ensures Burst(c.Conventional(w), c.Conventional(v), at, n)
  {
    hide FromDual;
  }

  /** A row that a faultless code corrects is one that decoding a message recovers. */
  lemma FaultlessRow(c: Params, w: seq<nat>, v: seq<nat>)
    requires c.Proper() && c.field.Order() > 0 && Faultless(c) && Bytes(w) && Correctable(c, w, v) && (c.parity >= 2 || w == v)
    ensures Recoverable(c, w, v)
  {
    ProperPrimitive(c);
    CorrectableIs(c, w, v);
    var er := Erasures(c, w, |w|);
    if c.field.bits == 8 { NoErasures(c, w); }
    if er == [] || PlainRoot(c) { PlainRootRemoves(c, er); }
    ZeroedSent(c, w, v);
    hide Params.Proper, GF.Primitive, GF.Order, Aligned, Erasures, Zeroed, Wrong, PlainRoot, Plain, Removable, Correctable;
  }

  lemma RowBytes(c: Codec, w: seq<nat>, r: nat)
    requires Bytes(w) && r < c.depth
    ensures Bytes(ReceivedRows(c, w)[r])
  {
    forall i | 0 <= i < |w| ensures c.Conventional(w)[i] < 256 {}
    hide Codec.Conventional, FromDual;
    var row := ReceivedRows(c, w)[r];
    forall o | 0 <= o < |row| ensures row[o] < 256 {}
  }

  lemma RowsAre(c: Codec, msg: seq<nat>, received: seq<nat>)
    requires c.code.parity <= c.code.length && c.depth >= 1
    ensures SentRows(c, msg) == ReceivedRows(c, msg + Encode(c, msg))
    ensures ReceivedRows(c, received) == Interleaved(c.depth, c.code.length, c.code.length, c.Conventional(received))
  {
    hide Encode, Interleaved, Codec.Conventional;
  }

  lemma CodecIs(c: Codec)
    requires c.Proper()
    ensures c.depth >= 1 && c.code.Proper() && c.code.parity < c.code.length <= c.code.field.Order()
  {
    ProperPrimitive(c.code);
    hide Params.Proper, GF.Primitive, GF.Order;
  }

  lemma NoDiffer(w: seq<nat>, v: seq<nat>)
    requires |w| == |v| && |Differ(w, v)| == 0
    ensures w == v
  {
    forall o: nat | o < |w| ensures w[o] == v[o] { assert o !in Differ(w, v); }
  }

  lemma RowRecoverable(c: Codec, msg: seq<nat>, received: seq<nat>, at: nat, n: nat, t: nat, r: nat)
    requires c.Proper() && c.code.field.Order() > 0 && Faultless(c.code) && c.code.parity <= c.code.length
    requires Word(c.code.field, msg) && |msg| <= c.DataLength() * c.depth && r < c.depth && Bytes(received)
    requires n == c.depth * t && t == c.code.parity / 2
    requires |received| == |msg + Encode(c, msg)| && Burst(received, msg + Encode(c, msg), at, n)
    ensures Recoverable(c.code, ReceivedRows(c, received)[r], SentRows(c, msg)[r])
  {
    hide *;
    CodecIs(c);
    var sent := msg + Encode(c, msg);
    var w, v := ReceivedRows(c, received)[r], SentRows(c, msg)[r];
    SentRowIs(c, msg, c.Conventional(msg), r);
    CodewordLength(c.code, v);
    RowsAre(c, msg, received);
    RowsAre(c, msg, sent);
    ConversionBurst(c, received, sent, at, n);
    BurstInRow(c.depth, c.code.length, c.Conventional(received), c.Conventional(sent), at, t, r);
    FewDiffer(c.code, w, v);
    RowBytes(c, received, r);
    if c.code.parity < 2 { NoDiffer(w, v); }
    FaultlessRow(c.code, w, v);
  }

  lemma RowsRecoverable(c: Codec, msg: seq<nat>, received: seq<nat>, at: nat, n: nat, t: nat)
    requires c.Proper() && c.code.field.Order() > 0 && Faultless(c.code) && c.code.parity <= c.code.length && c.depth >= 1
    requires Word(c.code.field, msg) && |msg| <= c.DataLength() * c.depth && Bytes(received)
    requires n == c.depth * t && t == c.code.parity / 2
    requires |received| == |msg + Encode(c, msg)| && Burst(received, msg + Encode(c, msg), at, n)
    ensures forall r :: 0 <= r < c.depth ==> Recoverable(c.code, ReceivedRows(c, received)[r], SentRows(c, msg)[r])
  {
    hide *;
    forall r: nat | r < c.depth ensures Recoverable(c.code, ReceivedRows(c, received)[r], SentRows(c, msg)[r]) {
      RowRecoverable(c, msg, received, at, n, t, r);
    }
  }

  /** With parameters for which the decoder is faultless, every burst of at most depth times half the parity symbols
      is corrected, wherever it starts and whatever it puts there. */
  lemma BurstRecovers(c: Codec, msg: seq<nat>, received: seq<nat>, at: nat)
    requires c.Proper() && c.code.field.Order() > 0 && Faultless(c.code)
    requires Word(c.code.field, msg) && |msg| <= c.DataLength() * c.depth
    requires c.code.parity <= c.code.length && |received| == |msg| + c.code.parity * c.depth && Bytes(received)
    requires Burst(received, msg + Encode(c, msg), at, c.depth * (c.code.parity / 2))
    ensures c.code.parity * c.depth <= |received| <= c.code.length * c.depth
    ensures Decode(c, received) == Ok(msg)
  {
    hide *;
    CodecIs(c);
    EncodeLength(c, msg);
    RowsRecoverable(c, msg, received, at, c.depth * (c.code.parity / 2), c.code.parity / 2);
    DecodeRecovers(c, msg, received);
  }

  lemma EncodeLength(c: Codec, msg: seq<nat>)
    requires c.code.parity <= c.code.length && c.depth >= 1
    ensures |msg + Encode(c, msg)| == |msg| + c.code.parity * c.depth
  {
    hide Encode;
  }
}
