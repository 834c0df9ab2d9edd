/** Byte stuffing of PPP frames: escaping the mapped bytes between the flags, and undoing it. */
module PppFrameModule {

  const FLAG_SEQ: bv8 := 0x7E
  const ESC_SEQ: bv8 := 0x7D

  function Flipped(b: bv8): bv8 { b ^ 0x20 }

  /** The bytes between the first and the last. */
  function Inner(frame: seq<bv8>): seq<bv8> {
    if |frame| < 2 then [] else frame[1..|frame| - 1]
  }

  function Stuffed(bytes: seq<bv8>, accm: set<bv8>): (r: seq<bv8>)
    ensures |bytes| <= |r| <= 2 * |bytes|
    decreases |bytes|
  {
    if bytes == [] then []
    else
      var b := bytes[|bytes| - 1];
      Stuffed(bytes[..|bytes| - 1], accm) + if b in accm then [ESC_SEQ, Flipped(b)] else [b]
  }

  function Escaped(frame: seq<bv8>, accm: set<bv8>): seq<bv8> {
    [FLAG_SEQ] + Stuffed(Inner(frame), accm) + [FLAG_SEQ]
  }

  /** What unescaping has written, and whether the last byte read was an escape. */
  datatype Reading = Reading(out: seq<bv8>, escaped: bool)

  function Read(s: seq<bv8>): (r: Reading)
    ensures |r.out| <= |s|
    decreases |s|
  {
    if s == [] then Reading([], false)
    else
      var before, b := Read(s[..|s| - 1]), s[|s| - 1];
      if before.escaped then Reading(before.out + [Flipped(b)], false)
      else if b == ESC_SEQ then Reading(before.out, true)
      else Reading(before.out + [b], false)
  }

  function Unescaped(frame: seq<bv8>): seq<bv8> { Read(frame).out }

  lemma InnerIs(frame: seq<bv8>)
    ensures |Inner(frame)| == if |frame| < 2 then 0 else |frame| - 2
    ensures forall k :: 0 <= k < |Inner(frame)| ==> Inner(frame)[k] == frame[k + 1]
  {
  }

  lemma EscapedIs(frame: seq<bv8>, accm: set<bv8>)
    ensures Escaped(frame, accm) == [FLAG_SEQ] + Stuffed(Inner(frame), accm) + [FLAG_SEQ]
  {
    hide Stuffed, Inner;
  }

  lemma StuffedNothing(bytes: seq<bv8>, accm: set<bv8>)
    ensures Stuffed(bytes[..0], accm) == []
  {
  }

  lemma StuffedNext(bytes: seq<bv8>, i: nat, accm: set<bv8>)
    requires i < |bytes|
    ensures Stuffed(bytes[..i + 1], accm)
         == Stuffed(bytes[..i], accm) + if bytes[i] in accm then [ESC_SEQ, Flipped(bytes[i])] else [bytes[i]]
  {
    hide Flipped;
    assert bytes[..i + 1][..i] == bytes[..i];
  }

  class PppFrame {
    var unit: array<bv8>

    constructor (contents: seq<bv8>)
      ensures unit[..] == contents && fresh(unit)
    {
      unit := new bv8[|contents|](i requires 0 <= i < |contents| => contents[i]);
    }

    /** Replace the buffer by the first n bytes of another. */
    method ReplicateBuffer(buf: array<bv8>, n: nat)
      requires n <= buf.Length
      modifies this
      ensures fresh(unit) && unit[..] == buf[..n]
    {
      unit := new bv8[n](i requires 0 <= i < n && n <= buf.Length reads buf => buf[i]);
    }

    method Escape(accm: set<bv8>)
      requires unit.Length >= 1
      modifies this
      ensures fresh(unit) && unit[..] == Escaped(old(unit[..]), accm)
    {
      hide *;
      ghost var frame := unit[..];
      var buf := new bv8[2 * unit.Length];
      buf[0] := FLAG_SEQ;
      var bufIdx := StuffInner(unit, buf, accm);
      buf[bufIdx] := FLAG_SEQ;
      assert buf[..bufIdx + 1] == buf[..bufIdx] + [FLAG_SEQ];
      ReplicateBuffer(buf, bufIdx + 1);
      EscapedIs(frame, accm);
    }

    /** The loop over the bytes between the flags. */
    static method StuffInner(src: array<bv8>, buf: array<bv8>, accm: set<bv8>) returns (bufIdx: nat)
      requires src != buf && src.Length >= 1 && buf.Length == 2 * src.Length && buf[0] == FLAG_SEQ
      modifies buf
      ensures 1 <= bufIdx < buf.Length
      ensures buf[..bufIdx] == [FLAG_SEQ] + Stuffed(Inner(src[..]), accm)
    {
      ghost var frame, inner := src[..], Inner(src[..]);
      InnerIs(frame);
      hide *;
      bufIdx := 1;
      StuffedNothing(inner, accm);
      assert buf[..1] == [FLAG_SEQ];
      var idx := 1;
      while idx < src.Length - 1
        invariant 1 <= idx && (idx <= |inner| + 1) && 1 <= bufIdx <= 2 * idx - 1
        invariant buf[..bufIdx] == [FLAG_SEQ] + Stuffed(inner[..idx - 1], accm)
      {
        StuffedNext(inner, idx - 1, accm);
        assert inner[idx - 1] == frame[idx] == src[idx];
        bufIdx := Stuff(buf, bufIdx, src[idx], accm);
        idx := idx + 1;
      }
      assert inner[..idx - 1] == inner;
    }

    /** Write one byte, escaped when it is mapped, and return the next free index. */
    static method Stuff(buf: array<bv8>, bufIdx: nat, cur: bv8, accm: set<bv8>) returns (next: nat)
      requires bufIdx + 1 < buf.Length
      modifies buf
      ensures next <= bufIdx + 2 && next <= buf.Length
      ensures buf[..next] == old(buf[..bufIdx]) + if cur in accm then [ESC_SEQ, Flipped(cur)] else [cur]
    {
      hide Flipped;
      if cur in accm {
        buf[bufIdx] := ESC_SEQ;
        buf[bufIdx + 1] := Flipped(cur);
        next := bufIdx + 2;
      } else {
        buf[bufIdx] := cur;
        next := bufIdx + 1;
      }
    }

    method Unescape()
      modifies this
      ensures fresh(unit) && unit[..] == Unescaped(old(unit[..]))
    {
      hide Flipped;
      ghost var s := unit[..];
      var buf := new bv8[2 * unit.Length];
      var bufIdx := 0;
      var escaped := false;
      for idx := 0 to unit.Length
        invariant unit == old(unit) && unit[..] == s
        invariant 0 <= bufIdx <= idx
        invariant Read(s[..idx]) == Reading(buf[..bufIdx], escaped)
      {
        assert s[..idx + 1][..idx] == s[..idx];
        var cur := unit[idx];
        if escaped {
          buf[bufIdx] := Flipped(cur);
          bufIdx := bufIdx + 1;
          escaped := false;
        } else if cur == ESC_SEQ {
          escaped := true;
        } else {
          buf[bufIdx] := cur;
          bufIdx := bufIdx + 1;
        }
      }
      assert s[..unit.Length] == s;
      ReplicateBuffer(buf, bufIdx);
    }
  }

  // ---------------------------------------------------------------- round trip

  predicate Delimited(frame: seq<bv8>) {
    |frame| >= 2 && frame[0] == FLAG_SEQ && frame[|frame| - 1] == FLAG_SEQ
  }

  lemma FlippedTwice(b: bv8)
    ensures Flipped(Flipped(b)) == b
  {
  }

  lemma ReadOne(s: seq<bv8>, b: bv8)
    ensures Read(s + [b]) == var before := Read(s);
      if before.escaped then Reading(before.out + [Flipped(b)], false)
      else if b == ESC_SEQ then Reading(before.out, true)
      else Reading(before.out + [b], false)
  {
    hide Flipped;
    assert (s + [b])[..|s|] == s;
  }

  /** Stuffed bytes read back as they were, as long as the escape itself is mapped. */
  lemma {:induction false} ReadStuffed(pre: seq<bv8>, bytes: seq<bv8>, accm: set<bv8>)
    requires ESC_SEQ in accm && !Read(pre).escaped
    ensures Read(pre + Stuffed(bytes, accm)) == Reading(Read(pre).out + bytes, false)
    decreases |bytes|
  {
    hide Flipped, Read;
    if bytes == [] {
      assert pre + Stuffed(bytes, accm) == pre;
    } else {
      var w := |bytes| - 1;
      var b, s := bytes[w], pre + Stuffed(bytes[..w], accm);
      ReadStuffed(pre, bytes[..w], accm);
      if b in accm {
        ReadOne(s, ESC_SEQ);
        ReadOne(s + [ESC_SEQ], Flipped(b));
        FlippedTwice(b);
        assert pre + Stuffed(bytes, accm) == s + [ESC_SEQ] + [Flipped(b)];
      } else {
        ReadOne(s, b);
        assert pre + Stuffed(bytes, accm) == s + [b];
      }
    }
  }

  lemma UnescapeEscape(frame: seq<bv8>, accm: set<bv8>)
    requires Delimited(frame) && ESC_SEQ in accm
    ensures Unescaped(Escaped(frame, accm)) == frame
  {
    hide *;
    var inner := Inner(frame);
    var e: seq<bv8>, s := [], [FLAG_SEQ] + Stuffed(inner, accm);
    ReadNothing();
    ReadOne(e, FLAG_SEQ);
    FlagIsPlain();
    assert e + [FLAG_SEQ] == [FLAG_SEQ];
    ReadStuffed([FLAG_SEQ], inner, accm);
    ReadOne(s, FLAG_SEQ);
    Parts(frame, accm);
  }

  lemma FlagIsPlain()
    ensures FLAG_SEQ != ESC_SEQ
  {
  }

  lemma Parts(frame: seq<bv8>, accm: set<bv8>)
    requires Delimited(frame)
    ensures frame == [FLAG_SEQ] + Inner(frame) + [FLAG_SEQ]
    ensures Unescaped(Escaped(frame, accm)) == Read([FLAG_SEQ] + Stuffed(Inner(frame), accm) + [FLAG_SEQ]).out
  {
    hide Stuffed, Read;
  }

  lemma ReadNothing()
    ensures Read([]) == Reading([], false)
  {
  }

  /** Unescaping undoes escaping on all delimited frames if and only if the escape itself is mapped. */
  lemma RoundTripIff(accm: set<bv8>)
    ensures (forall frame :: Delimited(frame) ==> Unescaped(Escaped(frame, accm)) == frame) <==> ESC_SEQ in accm
  {
    if ESC_SEQ in accm {
      forall frame | Delimited(frame) ensures Unescaped(Escaped(frame, accm)) == frame { UnescapeEscape(frame, accm); }
    } else {
      var frame := [FLAG_SEQ, ESC_SEQ, FLAG_SEQ];
      EscapeAlone(frame, accm);
      assert Delimited(frame);
    }
  }

  lemma EscapeAlone(frame: seq<bv8>, accm: set<bv8>)
    requires frame == [FLAG_SEQ, ESC_SEQ, FLAG_SEQ] && ESC_SEQ !in accm
    ensures Unescaped(Escaped(frame, accm)) != frame
  {
    hide Flipped;
    assert Inner(frame) == [ESC_SEQ] && [ESC_SEQ][..0] == [];
    assert Escaped(frame, accm) == frame;
    assert frame[..2] == [FLAG_SEQ, ESC_SEQ] && [FLAG_SEQ, ESC_SEQ][..1] == [FLAG_SEQ] && [FLAG_SEQ][..0] == [];
    assert Read([FLAG_SEQ]) == Reading([FLAG_SEQ], false);
    assert Read([FLAG_SEQ, ESC_SEQ]) == Reading([FLAG_SEQ], true);
    assert |Read(frame).out| == 2;
  }

  /** Escaping a byte adds 0x20 when that bit is clear and takes it away when it is set. */
  lemma FlippedIs(b: bv8)
    ensures Flipped(b) == if b & 0x20 == 0 then b + 0x20 else b - 0x20
  {
  }

  // ---------------------------------------------------------------- transparency

  /** x stands for itself, follows an escape or is an escape. */
  predicate Occurs(bytes: seq<bv8>, accm: set<bv8>, x: bv8) {
    || (x !in accm && x in bytes) || (Flipped(x) in accm && Flipped(x) in bytes)
    || (x == ESC_SEQ && exists b :: b in bytes && b in accm)
  }

  predicate StandsFor(x: bv8, b: bv8, accm: set<bv8>) {
    if b in accm then x == ESC_SEQ || x == Flipped(b) else x == b
  }

  lemma StuffedLast(pre: seq<bv8>, b: bv8, accm: set<bv8>, x: bv8)
    ensures x in Stuffed(pre + [b], accm) <==> x in Stuffed(pre, accm) || StandsFor(x, b, accm)
  {
    hide Flipped;
    assert (pre + [b])[..|pre|] == pre;
  }

  lemma OccursLast(pre: seq<bv8>, b: bv8, accm: set<bv8>, x: bv8)
    ensures Occurs(pre + [b], accm, x) <==> Occurs(pre, accm, x) || StandsFor(x, b, accm)
  {
    FlippedTwice(b);
    FlippedTwice(x);
    hide Flipped;
    assert forall y :: y in pre + [b] <==> y in pre || y == b;
    if y :| y in pre && y in accm { assert y in pre + [b]; }
    if b in accm { assert b in pre + [b]; }
  }

  lemma {:induction false} StuffedHas(bytes: seq<bv8>, accm: set<bv8>, x: bv8)
    ensures x in Stuffed(bytes, accm) <==> Occurs(bytes, accm, x)
    decreases |bytes|
  {
    if bytes != [] {
      hide *;
      var pre, b := bytes[..|bytes| - 1], bytes[|bytes| - 1];
      assert bytes == pre + [b];
      StuffedHas(pre, accm, x);
      StuffedLast(pre, b, accm, x);
      OccursLast(pre, b, accm, x);
    }
  }

  /** No frame contains x between its flags after escaping. */
  ghost predicate Hidden(x: bv8, accm: set<bv8>) {
    forall frame :: x !in Inner(Escaped(frame, accm))
  }

  /** A byte is hidden if and only if it is mapped, is not the escape, and no mapped byte escapes to it. */
  lemma HiddenIff(x: bv8, accm: set<bv8>)
    ensures Hidden(x, accm) <==> x in accm && x != ESC_SEQ && Flipped(x) !in accm
  {
    hide Flipped, Stuffed;
    forall frame ensures Inner(Escaped(frame, accm)) == Stuffed(Inner(frame), accm) {}
    FlippedTwice(x);
    if x in accm && x != ESC_SEQ && Flipped(x) !in accm {
      forall frame ensures x !in Inner(Escaped(frame, accm)) { StuffedHas(Inner(frame), accm, x); }
    } else {
      var b := if x in accm && x != ESC_SEQ then Flipped(x) else x;
      var frame := [FLAG_SEQ, b, FLAG_SEQ];
      assert Inner(frame) == [b] && b in Inner(frame);
      StuffedHas(Inner(frame), accm, x);
      assert x in Inner(Escaped(frame, accm));
    }
  }

  /** No frame contains a flag between its flags after escaping if and only if the flag is mapped and the
      byte that escapes to a flag is not. */
  lemma TransparentIff(accm: set<bv8>)
    ensures Hidden(FLAG_SEQ, accm) <==> FLAG_SEQ in accm && 0x5E !in accm
  {
    HiddenIff(FLAG_SEQ, accm);
  }

  /** With some control characters, the escape and the flag mapped, exactly these but for the escape are hidden. */
  lemma LineHides(controls: set<bv8>, x: bv8)
    requires forall b :: b in controls ==> b < 0x20
    ensures Hidden(x, controls + {ESC_SEQ, FLAG_SEQ}) <==> x in controls || x == FLAG_SEQ
  {
    HiddenIff(x, controls + {ESC_SEQ, FLAG_SEQ});
    FlippedIs(x);
    hide Hidden;
  }
}
