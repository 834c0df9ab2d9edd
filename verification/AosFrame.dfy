/** The frame error control field of AOS transfer frames: a 16-bit CRC computed a byte at a time.
    Words are strings of bits, most significant first, so that every truncation is visible. */
module AosFrameModule {
  import opened Cyclic

  type Byte = b: seq<bool> | |b| == 8 witness None(8)
  type Word = w: seq<bool> | |w| == 16 witness None(16)

  function Shl(w: Word, k: nat): Word
    requires k <= 16
  {
    w[k..] + None(k)
  }

  function Shr(w: Word, k: nat): Word
    requires k <= 16
  {
    None(k) + w[..16 - k]
  }

  function Or(a: Word, b: Word): Word { seq(16, i requires 0 <= i < 16 => a[i] || b[i]) }

  /** The word stored in two bytes, high byte first. */
  function Joined(hi: Byte, lo: Byte): Word {
    var h: seq<bool>, l: seq<bool> := hi, lo;
    h + l
  }

  function LowByte(w: Word): Word { None(8) + w[8..] }

  /** x^16 + x^12 + x^5 + 1 without its leading term. */
  const POLYNOMIAL: Word := [false, false, false, true, false, false, false, false, false, false, true, false, false, false, false, true]

  /** What the CRC starts from: all ones. */
  const CRC_INITIAL: Word := All(16)

  /** The loop body: one byte at a time. */
  function ByteStep(crc: Word, b: Byte): Word {
    var c1: Word := Or(LowByte(Shr(crc, 8)), Shl(crc, 8));
    var c2: Word := Plus(c1, None(8) + b);
    var c3: Word := Plus(c2, Shr(LowByte(c2), 4));
    var c4: Word := Plus(c3, Shl(Shl(c3, 8), 4));
    Plus(c4, Shl(Shl(LowByte(c4), 4), 1))
  }

  function Crc(initial: Word, data: seq<Byte>): Word
    decreases |data|
  {
    if data == [] then initial else ByteStep(Crc(initial, data[..|data| - 1]), data[|data| - 1])
  }

  /** The bits of a frame in the order in which they are sent. */
  function FrameBits(data: seq<Byte>): (r: seq<bool>)
    ensures |r| == 8 * |data|
    decreases |data|
  {
    if data == [] then [] else FrameBits(data[..|data| - 1]) + data[|data| - 1]
  }

  method ComputeCcitt16Crc(data: seq<Byte>, initial: Word) returns (crc: Word)
    ensures crc == Crc(initial, data)
  {
    hide ByteStep;
    crc := initial;
    for i := 0 to |data|
      invariant crc == Crc(initial, data[..i])
    {
      assert data[..i + 1][..i] == data[..i];
      crc := ByteStep(crc, data[i]);
    }
    assert data[..|data|] == data;
  }

  // ---------------------------------------------------------------- the fast form

  /** Four zero bits shifted into the register: no tap reaches the top before the fifth. */
  function Four(y: Word): Word {
    seq(16, i requires 0 <= i < 16 =>
      (if i < 12 then y[i + 4] else false)
      != (if i < 4 then y[i] else if 7 <= i <= 10 then y[i - 7] else if 12 <= i then y[i - 12] else false))
  }

  lemma ZeroStep(y: Word, i: nat)
    requires i < 16
    ensures Step(POLYNOMIAL, y, false)[i] == ((i < 15 && y[i + 1]) != ((i == 3 || i == 10 || i == 15) && y[0]))
  {
    assert POLYNOMIAL[i] == (i == 3 || i == 10 || i == 15);
  }

  lemma FourAre(y: Word, y1: Word, y2: Word, y3: Word, y4: Word)
    requires y1 == Step(POLYNOMIAL, y, false) && y2 == Step(POLYNOMIAL, y1, false)
    requires y3 == Step(POLYNOMIAL, y2, false) && y4 == Step(POLYNOMIAL, y3, false)
    ensures y4 == Four(y)
  {
    hide Step;
    forall i: nat | i < 16 ensures y4[i] == Four(y)[i] {
      ZeroStep(y3, i);
      ZeroStep(y3, 0);
      ZeroStep(y2, 0);
      ZeroStep(y1, 0);
      if i < 15 { ZeroStep(y2, i + 1); }
      if i < 14 { ZeroStep(y1, i + 2); }
      if i < 13 { ZeroStep(y, i + 3); }
      ZeroStep(y2, 1);
      ZeroStep(y1, 1);
      ZeroStep(y1, 2);
      ZeroStep(y, 0);
      ZeroStep(y, 1);
      ZeroStep(y, 2);
      ZeroStep(y, 3);
    }
  }

  lemma FourZeros(y: Word)
    ensures Remainder(POLYNOMIAL, y, None(4)) == Four(y)
  {
    var y1 := Step(POLYNOMIAL, y, false);
    var y2 := Step(POLYNOMIAL, y1, false);
    var y3 := Step(POLYNOMIAL, y2, false);
    hide Step, Four;
    FourAre(y, y1, y2, y3, Step(POLYNOMIAL, y3, false));
    assert None(4)[..3] == None(3) && None(3)[..2] == None(2) && None(2)[..1] == None(1) && None(1)[..0] == [];
    assert Remainder(POLYNOMIAL, y, None(1)) == y1;
    assert Remainder(POLYNOMIAL, y, None(2)) == y2;
    assert Remainder(POLYNOMIAL, y, None(3)) == y3;
  }

  /** One byte of the loop is eight steps of the division. */
  lemma ByteIsDivision(crc: Word, b: Byte)
    ensures ByteStep(crc, b) == Remainder(POLYNOMIAL, crc, b)
  {
    var y: Word := Plus(crc, b + None(8));
    FastIsFour(crc, b, y);
    hide ByteStep, Four, Remainder, Plus;
    Feed(POLYNOMIAL, crc, b);
    assert None(8) == None(4) + None(4);
    RemainderConcat(POLYNOMIAL, y, None(4), None(4));
    FourZeros(y);
    FourZeros(Four(y));
  }

  /** The register's first byte, folded onto itself by a nibble. */
  function Folded(y: Word, k: nat): bool
    requires k < 8
  {
    y[k] != (k >= 4 && y[k - 4])
  }

  /** Bit i of the register after eight zero bits. */
  function Spread(y: Word, i: nat): bool
    requires i < 16
  {
    (if i < 8 then y[8 + i] != (i < 4 && Folded(y, 4 + i)) else Folded(y, i - 8)) != (3 <= i < 11 && Folded(y, i - 3))
  }

  lemma FourAt(y: Word, i: nat)
    requires i < 16
    ensures Four(y)[i] == ((i < 12 && y[i + 4]) != (if i < 4 then y[i] else if 7 <= i <= 10 then y[i - 7] else 12 <= i && y[i - 12]))
  {
  }

  lemma FourTwice(y: Word, i: nat)
    requires i < 16
    ensures Four(Four(y))[i] == Spread(y, i)
  {
    hide Four;
    FourAt(Four(y), i);
    if i < 12 { FourAt(y, i + 4); }
    if i < 4 { FourAt(y, i); }
    if 7 <= i <= 10 { FourAt(y, i - 7); }
    if 12 <= i { FourAt(y, i - 12); }
  }

  lemma Swapped(crc: Word, b: Byte, i: nat)
    requires i < 8
    ensures var c2: Word := Plus(Or(LowByte(Shr(crc, 8)), Shl(crc, 8)), None(8) + b);
      c2[i] == crc[8 + i] && c2[8 + i] == (crc[i] != b[i])
  {
  }

  lemma NibbleAdded(c2: Word, i: nat)
    requires i < 8
    ensures var c3: Word := Plus(c2, Shr(LowByte(c2), 4));
      c3[i] == c2[i] && c3[8 + i] == (c2[8 + i] != (i >= 4 && c2[4 + i]))
  {
  }

  lemma HighAdded(c3: Word, i: nat)
    requires i < 8
    ensures var c4: Word := Plus(c3, Shl(Shl(c3, 8), 4));
      c4[i] == (c3[i] != (i < 4 && c3[12 + i])) && c4[8 + i] == c3[8 + i]
  {
  }

  lemma LowAdded(c4: Word, i: nat)
    requires i < 16
    ensures Plus(c4, Shl(Shl(LowByte(c4), 4), 1))[i] == (c4[i] != (3 <= i < 11 && c4[i + 5]))
  {
  }

  lemma FoldedAre(crc: Word, b: Byte, y: Word, c2: Word, c3: Word, k: nat)
    requires k < 8 && y == Plus(crc, b + None(8))
    requires c2 == Plus(Or(LowByte(Shr(crc, 8)), Shl(crc, 8)), None(8) + b) && c3 == Plus(c2, Shr(LowByte(c2), 4))
    ensures c3[k] == y[8 + k] && c3[8 + k] == Folded(y, k)
  {
    Swapped(crc, b, k);
    NibbleAdded(c2, k);
    if k >= 4 { Swapped(crc, b, k - 4); }
  }

  lemma SpreadStart(crc: Word, b: Byte, y: Word, c2: Word, c3: Word, c4: Word, k: nat)
    requires k < 8 && y == Plus(crc, b + None(8))
    requires c2 == Plus(Or(LowByte(Shr(crc, 8)), Shl(crc, 8)), None(8) + b) && c3 == Plus(c2, Shr(LowByte(c2), 4))
    requires c4 == Plus(c3, Shl(Shl(c3, 8), 4))
    ensures c4[k] == (y[8 + k] != (k < 4 && Folded(y, 4 + k))) && c4[8 + k] == Folded(y, k)
  {
    hide Plus, Shl, Shr, Or, LowByte, None, Folded;
    HighAdded(c3, k);
    FoldedAre(crc, b, y, c2, c3, k);
    if k < 4 { FoldedAre(crc, b, y, c2, c3, k + 4); }
  }

  lemma FastAt(crc: Word, b: Byte, y: Word, i: nat)
    requires i < 16 && y == Plus(crc, b + None(8))
    ensures ByteStep(crc, b)[i] == Spread(y, i)
  {
    var c2: Word := Plus(Or(LowByte(Shr(crc, 8)), Shl(crc, 8)), None(8) + b);
    var c3: Word := Plus(c2, Shr(LowByte(c2), 4));
    var c4: Word := Plus(c3, Shl(Shl(c3, 8), 4));
    LowAdded(c4, i);
    hide Plus, Shl, Shr, Or, LowByte, None, Folded;
    SpreadStart(crc, b, y, c2, c3, c4, if i < 8 then i else i - 8);
    if 3 <= i < 11 { SpreadStart(crc, b, y, c2, c3, c4, i - 3); }
  }

  lemma FastIsFour(crc: Word, b: Byte, y: Word)
    requires y == Plus(crc, b + None(8))
    ensures ByteStep(crc, b) == Four(Four(y))
  {
    hide ByteStep, Four, Plus, Spread, None;
    forall i: nat | i < 16 ensures ByteStep(crc, b)[i] == Four(Four(y))[i] {
      FastAt(crc, b, y, i);
      FourTwice(y, i);
    }
  }

  // ---------------------------------------------------------------- whole frames

  /** The fast form computes the remainder of the frame's bits. */
  lemma {:induction false} CrcIsRemainder(c: Word, data: seq<Byte>)
    ensures Crc(c, data) == Remainder(POLYNOMIAL, c, FrameBits(data))
    decreases |data|
  {
    hide ByteStep;
    if data == [] {
      EmptyMessage(POLYNOMIAL, c);
    } else {
      var w := |data| - 1;
      CrcIsRemainder(c, data[..w]);
      ByteIsDivision(Crc(c, data[..w]), data[w]);
      RemainderConcat(POLYNOMIAL, c, FrameBits(data[..w]), data[w]);
    }
  }

  lemma {:induction false} FrameBitsConcat(a: seq<Byte>, b: seq<Byte>)
    ensures FrameBits(a + b) == FrameBits(a) + FrameBits(b)
    decreases |b|
  {
    hide *;
    if b == [] {
      assert a + b == a;
      FrameBitsStep(b);
    } else {
      var s, p, x := a + b, b[..|b| - 1], b[|b| - 1];
      FrameBitsConcat(a, p);
      assert s[..|s| - 1] == a + p && s[|s| - 1] == x;
      FrameBitsStep(s);
      FrameBitsStep(b);
    }
  }

  lemma FrameBitsStep(s: seq<Byte>)
    ensures FrameBits(s) == if s == [] then [] else FrameBits(s[..|s| - 1]) + s[|s| - 1]
  {
  }

  lemma TwoBytes(hi: Byte, lo: Byte)
    ensures FrameBits([hi, lo]) == Joined(hi, lo)
  {
    assert [hi, lo][..1] == [hi] && [hi][..0] == [];
    assert FrameBits([hi]) == hi;
  }

  /** A frame checks as valid exactly when its last two bytes are the CRC of the rest, high byte first. */
  lemma ValidIff(c: Word, data: seq<Byte>, hi: Byte, lo: Byte)
    ensures Crc(c, data + [hi, lo]) == None(16) <==> Joined(hi, lo) == Crc(c, data)
  {
    CrcIsRemainder(c, data);
    CrcIsRemainder(c, data + [hi, lo]);
    FrameBitsConcat(data, [hi, lo]);
    TwoBytes(hi, lo);
    hide Crc, Remainder, FrameBits;
    RemainderConcat(POLYNOMIAL, c, FrameBits(data), Joined(hi, lo));
    ZeroResidue(POLYNOMIAL, Crc(c, data), Joined(hi, lo));
  }

  lemma {:induction false} FrameBitsInjective(w: seq<Byte>, v: seq<Byte>)
    requires |w| == |v| && FrameBits(w) == FrameBits(v)
    ensures w == v
    decreases |w|
  {
    if w != [] {
      var n := |w| - 1;
      assert FrameBits(w)[..8 * n] == FrameBits(w[..n]) && FrameBits(v)[..8 * n] == FrameBits(v[..n]);
      assert FrameBits(w)[8 * n..] == w[n] && FrameBits(v)[8 * n..] == v[n];
      FrameBitsInjective(w[..n], v[..n]);
      assert w == w[..n] + [w[n]] && v == v[..n] + [v[n]];
    }
  }

  /** Flipping bits of a valid frame within 16 consecutive bits makes it invalid. */
  lemma BurstInvalidates(c: Word, w: seq<Byte>, v: seq<Byte>, p: nat)
    requires |w| == |v| && w != v && Crc(c, w) == None(16)
    requires forall i :: 0 <= i < |FrameBits(w)| && FrameBits(w)[i] != FrameBits(v)[i] ==> p <= i < p + 16
    ensures Crc(c, v) != None(16)
  {
    CrcIsRemainder(c, w);
    CrcIsRemainder(c, v);
    hide Crc, Remainder, FrameBits;
    if FrameBits(w) == FrameBits(v) { FrameBitsInjective(w, v); }
    BurstDetected(POLYNOMIAL, c, FrameBits(w), FrameBits(v), p);
  }

  /** A changed frame keeps its CRC exactly when the changed bits are a multiple of the generator polynomial. */
  lemma UndetectedFrames(c: Word, w: seq<Byte>, v: seq<Byte>)
    requires |w| == |v|
    ensures Crc(c, w) == Crc(c, v)
       <==> exists q :: |q| == |FrameBits(w)| && Times(q, POLYNOMIAL) == Plus(FrameBits(w), FrameBits(v)) + None(16)
  {
    CrcIsRemainder(c, w);
    CrcIsRemainder(c, v);
    hide Crc, Remainder, FrameBits, Times;
    UndetectedIff(POLYNOMIAL, c, FrameBits(w), FrameBits(v));
  }

  /** The initial value complements the first sixteen bits of a frame before it is divided. */
  lemma InitialComplements(data: seq<Byte>)
    requires |data| >= 2
    ensures Crc(CRC_INITIAL, data)
         == Remainder(POLYNOMIAL, None(16), seq(8 * |data|, i requires 0 <= i < 8 * |data| => FrameBits(data)[i] != (i < 16)))
  {
    CrcIsRemainder(CRC_INITIAL, data);
    hide Crc, FrameBits, Remainder;
    var bits := FrameBits(data);
    StartAdded(POLYNOMIAL, CRC_INITIAL, bits[..16], bits[16..]);
    assert bits[..16] + bits[16..] == bits;
    var z := seq(|bits|, i requires 0 <= i < |bits| => bits[i] != (i < 16));
    forall i | 0 <= i < 16 ensures Plus(bits[..16], CRC_INITIAL)[i] == z[i] { assert CRC_INITIAL[i]; }
    assert Plus(bits[..16], CRC_INITIAL) + bits[16..] == z;
  }

  // ---------------------------------------------------------------- the frame

  datatype Field = Value(word: Word) | MissingField

  class AosTransferFrame {
    const hasFrameErrorControl: bool
    const unit: array<Byte>

    constructor (contents: seq<Byte>, hasFrameErrorControl: bool)
      ensures this.hasFrameErrorControl == hasFrameErrorControl && unit[..] == contents && fresh(unit)
    {
      this.hasFrameErrorControl := hasFrameErrorControl;
      unit := new Byte[|contents|](i requires 0 <= i < |contents| => contents[i]);
    }

    /** The CRC of everything but the error control field. */
    method GetFrameCrc16(crc: Word) returns (r: Word)
      requires unit.Length >= 2
      ensures r == Crc(crc, unit[..unit.Length - 2])
    {
      r := ComputeCcitt16Crc(unit[..unit.Length - 2], crc);
    }

    /** Write the field in the last two bytes, high byte first. */
    method SetFrameErrorControl(value: Word)
      requires unit.Length >= 2 && hasFrameErrorControl
      modifies unit
      ensures unit[..] == old(unit[..unit.Length - 2]) + [value[..8], value[8..]]
    {
      var n := unit.Length;
      unit[n - 2] := value[..8];
      unit[n - 1] := value[8..];
    }

    /** Compute the field; a frame so prepared is valid. */
    method InitializeCrc() returns (r: Field)
      requires unit.Length >= 2
      modifies unit
      ensures !hasFrameErrorControl ==> r == MissingField && unit[..] == old(unit[..])
      ensures hasFrameErrorControl ==>
        && unit[..unit.Length - 2] == old(unit[..unit.Length - 2])
        && r == Value(Crc(CRC_INITIAL, unit[..unit.Length - 2]))
        && r == Value(Joined(unit[unit.Length - 2], unit[unit.Length - 1]))
        && Crc(CRC_INITIAL, unit[..]) == None(16)
    {
      if !hasFrameErrorControl { return MissingField; }
      var n := unit.Length;
      var crc := GetFrameCrc16(CRC_INITIAL);
      ghost var data := unit[..n - 2];
      SetFrameErrorControl(crc);
      assert unit[..] == data + [crc[..8], crc[8..]];
      assert unit[..n - 2] == data;
      assert Joined(crc[..8], crc[8..]) == crc;
      ValidIff(CRC_INITIAL, data, crc[..8], crc[8..]);
      return Value(Joined(unit[n - 2], unit[n - 1]));
    }

    /** Valid exactly when the error control field is the CRC of the rest. */
    method HasValidCrc() returns (valid: bool)
      ensures valid <==> Crc(CRC_INITIAL, unit[..]) == None(16)
      ensures unit.Length >= 2 ==>
        (valid <==> Joined(unit[unit.Length - 2], unit[unit.Length - 1]) == Crc(CRC_INITIAL, unit[..unit.Length - 2]))
    {
      var crc := ComputeCcitt16Crc(unit[..], CRC_INITIAL);
      valid := crc == None(16);
      if unit.Length >= 2 {
        var n := unit.Length;
        assert unit[..] == unit[..n - 2] + [unit[n - 2], unit[n - 1]];
        ValidIff(CRC_INITIAL, unit[..n - 2], unit[n - 2], unit[n - 1]);
      }
    }
  }
}
