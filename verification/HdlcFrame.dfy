/** The HDLC frame check sequences of 16 and 32 bits, computed with tables. Registers are reflected: the
    least significant bit is the coefficient of the highest power. */
module HdlcFrameModule {
  import opened Cyclic
  import opened FcsTables

  const INIT_FCS_16: bv32 := 0xFFFF
  const GOOD_FCS_16: bv32 := 0xF0B8
  const INIT_FCS_32: bv32 := 0xFFFFFFFF
  const GOOD_FCS_32: bv32 := 0xDEBB20E3

  function Low(c: bv32): bool { c & 1 != 0 }

  function Half(c: bv32): bv32 { c >> 1 }

  function XorW(c: bv32, d: bv32): bv32 { c ^ d }

  /** The n lowest bits of a word, lowest first. */
  function Bits(c: bv32, n: nat): (r: seq<bool>)
    ensures |r| == n
    decreases n
  {
    if n == 0 then [] else [Low(c)] + Bits(Half(c), n - 1)
  }

  function Halved(c: bv32, n: nat): bv32
    decreases n
  {
    if n == 0 then c else Halved(Half(c), n - 1)
  }

  /** The word fits n bits. */
  predicate Fits(c: bv32, n: nat) { Halved(c, n) == 0 }

  // ---------------------------------------------------------------- words and bits

  lemma HalfXor(c: bv32, d: bv32)
    ensures Half(XorW(c, d)) == XorW(Half(c), Half(d))
  {
  }

  lemma LowXor(c: bv32, d: bv32)
    ensures Low(XorW(c, d)) == (Low(c) != Low(d))
  {
  }

  lemma XorZeroW()
    ensures XorW(0, 0) == 0 && Half(0) == 0 && !Low(0)
  {
  }

  lemma {:induction false} BitsXor(c: bv32, d: bv32, n: nat)
    ensures Bits(XorW(c, d), n) == Plus(Bits(c, n), Bits(d, n))
    decreases n
  {
    hide Low, Half, XorW;
    if n > 0 {
      HalfXor(c, d);
      LowXor(c, d);
      BitsXor(Half(c), Half(d), n - 1);
    }
  }

  lemma {:induction false} HalvedXor(c: bv32, d: bv32, n: nat)
    ensures Halved(XorW(c, d), n) == XorW(Halved(c, n), Halved(d, n))
    decreases n
  {
    hide Half, XorW;
    if n > 0 {
      HalfXor(c, d);
      HalvedXor(Half(c), Half(d), n - 1);
    }
  }

  lemma {:induction false} BitsSplit(c: bv32, m: nat, n: nat)
    ensures Bits(c, m + n) == Bits(c, m) + Bits(Halved(c, m), n)
    decreases m
  {
    hide Low, Half;
    if m > 0 { BitsSplit(Half(c), m - 1, n); }
  }

  lemma {:induction false} HalvedAdd(c: bv32, m: nat, n: nat)
    ensures Halved(c, m + n) == Halved(Halved(c, m), n)
    decreases m
  {
    hide Half;
    if m > 0 { HalvedAdd(Half(c), m - 1, n); }
  }

  lemma {:induction false} BitsZero(n: nat)
    ensures Bits(0, n) == None(n) && Halved(0, n) == 0
  {
    hide Low, Half;
    XorZeroW();
    if n > 0 { BitsZero(n - 1); }
  }

  /** Words that fit n bits are determined by them. */
  lemma {:induction false} BitsInjective(c: bv32, d: bv32, n: nat)
    requires Bits(c, n) == Bits(d, n) && Halved(c, n) == Halved(d, n)
    ensures c == d
    decreases n
  {
    hide Low, Half;
    if n > 0 {
      assert Bits(c, n)[0] == Bits(d, n)[0] && Bits(c, n)[1..] == Bits(d, n)[1..];
      BitsInjective(Half(c), Half(d), n - 1);
      LowAndHalf(c, d);
    }
  }

  lemma LowAndHalf(c: bv32, d: bv32)
    requires Low(c) == Low(d) && Half(c) == Half(d)
    ensures c == d
  {
  }

  function Shr8(c: bv32): bv32 { c >> 8 }

  lemma Halved8(c: bv32)
    ensures Halved(c, 8) == Shr8(c)
  {
    var c4 := Half(Half(Half(Half(c))));
    Halved4(c);
    Halved4(c4);
    assert Half(Half(Half(Half(c4)))) == c >> 8;
    hide Half;
    HalvedAdd(c, 4, 4);
  }

  lemma Halved4(c: bv32)
    ensures Halved(c, 4) == Half(Half(Half(Half(c))))
  {
    hide Half;
    assert Halved(c, 4) == Halved(Half(c), 3) == Halved(Half(Half(c)), 2) == Halved(Half(Half(Half(c))), 1);
  }

  // ---------------------------------------------------------------- one bit of the division

  lemma BitStepIs(p: bv32, c: bv32, b: bool)
    ensures BitStep(p, c, b) == if Low(c) != b then XorW(Half(c), p) else Half(c)
  {
  }

  lemma FirstBit(c: bv32, n: nat)
    requires n > 0 && Fits(c, n)
    ensures Bits(c, n)[0] == Low(c) && Bits(c, n)[1..] + [false] == Bits(Half(c), n)
    ensures Fits(Half(c), n)
  {
    hide Low, Half;
    TopBit(Half(c), n - 1);
  }

  /** The bit above a word that fits is clear. */
  lemma {:induction false} TopBit(c: bv32, m: nat)
    requires Fits(c, m)
    ensures Bits(c, m + 1) == Bits(c, m) + [false] && Fits(c, m + 1)
    decreases m
  {
    if m == 0 {
      BitsZero(1);
    } else {
      hide Low, Half;
      TopBit(Half(c), m - 1);
    }
  }

  lemma BitIsStep(p: bv32, c: bv32, b: bool, n: nat)
    requires n > 0 && Fits(c, n) && Fits(p, n)
    ensures Bits(BitStep(p, c, b), n) == Step(Bits(p, n), Bits(c, n), b)
    ensures Fits(BitStep(p, c, b), n)
  {
    FirstBit(c, n);
    BitStepIs(p, c, b);
    hide BitStep, Low, Half, XorW, Bits, Halved;
    var shifted := Bits(c, n)[1..] + [false];
    if Low(c) != b {
      BitsXor(Half(c), p, n);
      HalvedXor(Half(c), p, n);
      XorZeroW();
    } else {
      PlusNone(shifted, None(n));
    }
  }

  function Fed(p: bv32, c: bv32, n: nat): bv32 {
    if n == 0 then c else BitStep(p, Fed(p, c, n - 1), false)
  }

  lemma {:induction false} FedIs(p: bv32, c: bv32, k: nat, n: nat)
    requires n > 0 && Fits(c, n) && Fits(p, n)
    ensures Bits(Fed(p, c, k), n) == Remainder(Bits(p, n), Bits(c, n), None(k))
    ensures Fits(Fed(p, c, k), n)
    decreases k
  {
    hide BitStep, Bits, Step, Halved, Fits;
    if k > 0 {
      FedIs(p, c, k - 1, n);
      BitIsStep(p, Fed(p, c, k - 1), false, n);
      assert None(k)[..k - 1] == None(k - 1);
    }
  }

  lemma EntryIsFed(p: bv32, c: bv32)
    ensures Entry(p, c) == Fed(p, c, 8)
  {
    hide BitStep;
    assert Fed(p, c, 0) == c;
    assert Fed(p, c, 2) == BitStep(p, BitStep(p, c, false), false);
    assert Fed(p, c, 4) == BitStep(p, BitStep(p, Fed(p, c, 2), false), false);
    assert Fed(p, c, 6) == BitStep(p, BitStep(p, Fed(p, c, 4), false), false);
    assert Fed(p, c, 8) == BitStep(p, BitStep(p, Fed(p, c, 6), false), false);
  }

  // ---------------------------------------------------------------- one byte

  function Byte(b: bv8): bv32 { b as bv32 }

  function LowByte(c: bv32): bv32 { c & 0xFF }

  function HighBytes(c: bv32): bv32 { c & 0xFFFFFF00 }

  /** One byte of the loop, with the table entry written out. */
  function ByteStep(p: bv32, c: bv32, b: bv8): bv32 {
    XorW(Shr8(c), Entry(p, LowByte(XorW(c, Byte(b)))))
  }

  lemma BytesApart(c: bv32)
    ensures c == XorW(LowByte(c), HighBytes(c))
  {
  }

  lemma HighShifted(c: bv32, b: bv8)
    ensures Shr8(HighBytes(XorW(c, Byte(b)))) == Shr8(c)
  {
    assert ((c ^ (b as bv32)) & 0xFFFFFF00) >> 8 == c >> 8;
  }

  lemma ByteFits(b: bv8)
    ensures Fits(Byte(b), 8)
  {
    Halved8(Byte(b));
  }

  lemma {:induction false} FitsMore(c: bv32, m: nat, n: nat)
    requires Fits(c, m) && m <= n
    ensures Fits(c, n)
  {
    hide Half;
    HalvedAdd(c, m, n - m);
    BitsZero(n - m);
  }

  lemma LowByteFits(c: bv32)
    ensures Fits(LowByte(c), 8)
  {
    Halved8(LowByte(c));
    assert (c & 0xFF) >> 8 == 0;
  }

  lemma XorNeutral(c: bv32)
    ensures XorW(0, c) == c && XorW(c, 0) == c
  {
  }

  lemma HighByteFits(c: bv32, n: nat)
    requires n >= 8 && Fits(c, n)
    ensures Fits(HighBytes(c), n)
  {
    hide *;
    FitsIs(c, n);
    FitsIs(LowByte(c), n);
    FitsIs(HighBytes(c), n);
    BytesApart(c);
    HalvedXor(LowByte(c), HighBytes(c), n);
    LowByteFits(c);
    FitsMore(LowByte(c), 8, n);
    XorNeutral(Halved(HighBytes(c), n));
  }

  lemma FitsIs(c: bv32, n: nat)
    ensures Fits(c, n) <==> Halved(c, n) == 0
  {
  }

  lemma HighBitsNone(c: bv32)
    ensures Bits(HighBytes(c), 8) == None(8)
  {
    var h := HighBytes(c);
    var h1 := Half(h);
    var h2 := Half(h1);
    var h3 := Half(h2);
    var h4 := Half(h3);
    var h5 := Half(h4);
    var h6 := Half(h5);
    var h7 := Half(h6);
    assert !Low(h) && !Low(h1) && !Low(h2) && !Low(h3) && !Low(h4) && !Low(h5) && !Low(h6) && !Low(h7);
    hide Low, Half, HighBytes;
    BitsPrepend(h7, 0);
    BitsPrepend(h6, 1);
    BitsPrepend(h5, 2);
    BitsPrepend(h4, 3);
    BitsPrepend(h3, 4);
    BitsPrepend(h2, 5);
    BitsPrepend(h1, 6);
    BitsPrepend(h, 7);
  }

  lemma BitsPrepend(c: bv32, n: nat)
    ensures !Low(c) && Bits(Half(c), n) == None(n) ==> Bits(c, n + 1) == None(n + 1)
    ensures Bits(c, 0) == None(0)
  {
    hide Low, Half;
  }

  /** One byte of the loop is eight steps of the division. */
  lemma ByteIsDivision(p: bv32, c: bv32, b: bv8, n: nat)
    requires n >= 8 && Fits(c, n) && Fits(p, n)
    ensures Bits(ByteStep(p, c, b), n) == Remainder(Bits(p, n), Bits(c, n), Bits(Byte(b), 8))
    ensures Fits(ByteStep(p, c, b), n)
  {
    hide *;
    var g, y := Bits(p, n), XorW(c, Byte(b));
    var lo, hi := LowByte(y), HighBytes(y);
    ByteWidened(b, n);
    Feed(g, Bits(c, n), Bits(Byte(b), 8));
    BitsXor(c, Byte(b), n);
    SumFits(c, Byte(b), n);
    BytesApart(y);
    BitsXor(lo, hi, n);
    NonePlus(8);
    Linear(g, Bits(lo, n), Bits(hi, n), None(8), None(8));
    LowByteFits(y);
    FitsMore(lo, 8, n);
    HighByteFits(y, n);
    FedIs(p, lo, 8, n);
    EntryIsFed(p, lo);
    HighContribution(p, c, b, n);
    ByteStepIs(p, c, b);
    CommW(Shr8(c), Entry(p, lo));
    BitsXor(Entry(p, lo), Shr8(c), n);
    SumFits(Entry(p, lo), Shr8(c), n);
  }

  lemma ByteStepIs(p: bv32, c: bv32, b: bv8)
    ensures ByteStep(p, c, b) == XorW(Shr8(c), Entry(p, LowByte(XorW(c, Byte(b)))))
  {
    hide XorW, Shr8, Entry, LowByte, Byte;
  }

  lemma CommW(c: bv32, d: bv32)
    ensures XorW(c, d) == XorW(d, c)
  {
  }

  lemma NonePlus(n: nat)
    ensures Plus(None(n), None(n)) == None(n)
  {
  }

  lemma SumFits(c: bv32, d: bv32, n: nat)
    requires Fits(c, n) && Fits(d, n)
    ensures Fits(XorW(c, d), n)
  {
    XorZeroW();
    hide XorW;
    HalvedXor(c, d, n);
  }

  lemma ByteWidened(b: bv8, n: nat)
    requires n >= 8
    ensures Fits(Byte(b), n) && Bits(Byte(b), 8) + None(n - 8) == Bits(Byte(b), n)
  {
    hide Byte, Bits, Halved;
    ByteFits(b);
    FitsMore(Byte(b), 8, n);
    BitsSplit(Byte(b), 8, n - 8);
    BitsZero(n - 8);
  }

  /** The bytes above the lowest are only shifted. */
  lemma HighContribution(p: bv32, c: bv32, b: bv8, n: nat)
    requires n >= 8 && Fits(c, n)
    ensures Remainder(Bits(p, n), Bits(HighBytes(XorW(c, Byte(b))), n), None(8)) == Bits(Shr8(c), n)
    ensures Fits(Shr8(c), n)
  {
    hide *;
    var y := XorW(c, Byte(b));
    var h := HighBytes(y);
    ByteWidened(b, n);
    SumFits(c, Byte(b), n);
    HighByteFits(y, n);
    HighBitsNone(y);
    HighShifted(c, b);
    Halved8(h);
    Halved8(c);
    ShiftedBits(h, n);
    ShiftedBits(c, n);
    assert forall i :: 0 <= i < 8 ==> !Bits(h, n)[i] by { BitsSplit(h, 8, n - 8); }
    ShiftOut(Bits(p, n), Bits(h, n), 8);
  }

  lemma ShiftedBits(h: bv32, n: nat)
    requires n >= 8 && Fits(h, n)
    ensures Bits(h, n)[8..] + None(8) == Bits(Halved(h, 8), n) && Fits(Halved(h, 8), n)
  {
    hide Bits, Half;
    BitsSplit(h, 8, n - 8);
    HalvedAdd(h, 8, n - 8);
    BitsSplit(Halved(h, 8), n - 8, 8);
    BitsZero(8);
    FitsMore(Halved(h, 8), n - 8, n);
  }

  // ---------------------------------------------------------------- whole frames

  /** The bits of a frame in the order in which they are sent: the low bit of each byte first. */
  function FrameBits(data: seq<bv8>): (r: seq<bool>)
    ensures |r| == 8 * |data|
    decreases |data|
  {
    if data == [] then [] else FrameBits(data[..|data| - 1]) + Bits(Byte(data[|data| - 1]), 8)
  }

  function Fcs(p: bv32, c: bv32, data: seq<bv8>): bv32
    decreases |data|
  {
    if data == [] then c else ByteStep(p, Fcs(p, c, data[..|data| - 1]), data[|data| - 1])
  }

  /** The table-driven form computes the remainder of the frame's bits. */
  lemma {:induction false} FcsIsRemainder(p: bv32, c: bv32, data: seq<bv8>, n: nat)
    requires n >= 8 && Fits(c, n) && Fits(p, n)
    ensures Bits(Fcs(p, c, data), n) == Remainder(Bits(p, n), Bits(c, n), FrameBits(data))
    ensures Fits(Fcs(p, c, data), n)
    decreases |data|
  {
    hide Bits, ByteStep, Byte, Fits;
    if data == [] {
      EmptyMessage(Bits(p, n), Bits(c, n));
    } else {
      var w := |data| - 1;
      FcsIsRemainder(p, c, data[..w], n);
      ByteIsDivision(p, Fcs(p, c, data[..w]), data[w], n);
      RemainderConcat(Bits(p, n), Bits(c, n), FrameBits(data[..w]), Bits(Byte(data[w]), 8));
    }
  }

  lemma {:induction false} FrameBitsConcat(a: seq<bv8>, b: seq<bv8>)
    ensures FrameBits(a + b) == FrameBits(a) + FrameBits(b)
    decreases |b|
  {
    hide Bits, Byte;
    if b == [] {
      assert a + b == a;
    } else {
      FrameBitsConcat(a, b[..|b| - 1]);
      assert (a + b)[..|a + b| - 1] == a + b[..|b| - 1];
    }
  }

  lemma ByteBitsInjective(a: bv8, b: bv8)
    requires Bits(Byte(a), 8) == Bits(Byte(b), 8)
    ensures a == b
  {
    assert Byte(a) == Byte(b) ==> a == b;
    hide *;
    ByteFits(a);
    ByteFits(b);
    FitsIs(Byte(a), 8);
    FitsIs(Byte(b), 8);
    BitsInjective(Byte(a), Byte(b), 8);
  }

  lemma {:induction false} FrameBitsInjective(w: seq<bv8>, v: seq<bv8>)
    requires |w| == |v| && FrameBits(w) == FrameBits(v)
    ensures w == v
    decreases |w|
  {
    hide Bits, Byte;
    if w != [] {
      var n := |w| - 1;
      assert FrameBits(w)[..8 * n] == FrameBits(w[..n]) && FrameBits(v)[..8 * n] == FrameBits(v[..n]);
      assert FrameBits(w)[8 * n..] == Bits(Byte(w[n]), 8) && FrameBits(v)[8 * n..] == Bits(Byte(v[n]), 8);
      FrameBitsInjective(w[..n], v[..n]);
      ByteBitsInjective(w[n], v[n]);
      assert w == w[..n] + [w[n]] && v == v[..n] + [v[n]];
    }
  }

  // ---------------------------------------------------------------- the trailer

  function FirstByte(c: bv32): bv8 { (c & 0xFF) as bv8 }

  /** The k low bytes of a word, lowest first, as the frame stores them. */
  function Trailer(c: bv32, k: nat): (t: seq<bv8>)
    ensures |t| == k
    decreases k
  {
    if k == 0 then [] else [FirstByte(c)] + Trailer(Shr8(c), k - 1)
  }

  lemma FirstByteBits(c: bv32)
    ensures Bits(Byte(FirstByte(c)), 8) == Bits(c, 8)
  {
    assert Byte(FirstByte(c)) == LowByte(c);
    hide *;
    BytesApart(c);
    BitsXor(LowByte(c), HighBytes(c), 8);
    HighBitsNone(c);
    PlusNone(Bits(LowByte(c), 8), None(8));
  }

  lemma {:induction false} TrailerBits(c: bv32, k: nat)
    ensures FrameBits(Trailer(c, k)) == Bits(c, 8 * k)
    decreases k
  {
    if k == 0 {
      NoTrailer(c);
    } else {
      hide *;
      TrailerBits(Shr8(c), k - 1);
      TrailerFirst(c, k);
      var first, rest := FirstByte(c), Trailer(Shr8(c), k - 1);
      FrameBitsConcat([first], rest);
      OneByteBits(first);
      FirstByteBits(c);
      BitsFrom8(c, 8 * (k - 1), 8 * k);
    }
  }

  lemma NoTrailer(c: bv32)
    ensures FrameBits(Trailer(c, 0)) == Bits(c, 8 * 0)
  {
    hide Low, Half;
  }

  lemma BitsFrom8(c: bv32, n: nat, m: nat)
    requires m == 8 + n
    ensures Bits(c, m) == Bits(c, 8) + Bits(Shr8(c), n)
  {
    hide *;
    Halved8(c);
    BitsSplit(c, 8, n);
  }

  lemma TrailerFirst(c: bv32, k: nat)
    requires k > 0
    ensures Trailer(c, k) == [FirstByte(c)] + Trailer(Shr8(c), k - 1)
  {
  }

  lemma OneByteBits(b: bv8)
    ensures FrameBits([b]) == Bits(Byte(b), 8)
  {
    hide Bits, Byte;
    assert [b][..0] == [];
  }

  /** p is a reflected generator polynomial of 8 * k bits, ones is all ones and good the residue. */
  predicate Division(p: bv32, ones: bv32, good: bv32, k: nat) {
    && k >= 1 && Fits(p, 8 * k) && Generator(Bits(p, 8 * k))
    && Bits(ones, 8 * k) == All(8 * k) && Fits(ones, 8 * k) && Fits(good, 8 * k)
    && Bits(good, 8 * k) == Remainder(Bits(p, 8 * k), None(8 * k), All(8 * k))
  }

  /** A frame ends in the good residue exactly when its last bytes are the complement of the check sequence
      of the rest, low byte first. */
  lemma GoodIff(p: bv32, ones: bv32, good: bv32, k: nat, c: bv32, data: seq<bv8>, t: seq<bv8>)
    requires Division(p, ones, good, k) && Fits(c, 8 * k) && |t| == k
    ensures Fcs(p, c, data + t) == good <==> t == Trailer(XorW(Fcs(p, c, data), ones), k)
  {
    var n := 8 * k;
    var r := Fcs(p, c, data);
    var u := XorW(r, ones);
    FcsIsRemainder(p, c, data, n);
    FcsIsRemainder(p, c, data + t, n);
    FrameBitsConcat(data, t);
    RemainderConcat(Bits(p, n), Bits(c, n), FrameBits(data), FrameBits(t));
    hide Bits, Fcs, Remainder, FrameBits, Trailer, XorW;
    ComplementResidue(Bits(p, n), Bits(r, n), FrameBits(t));
    BitsXor(r, ones, n);
    TrailerBits(u, k);
    if FrameBits(t) == Bits(u, n) { FrameBitsInjective(t, Trailer(u, k)); }
    if Bits(Fcs(p, c, data + t), n) == Bits(good, n) { BitsInjective(Fcs(p, c, data + t), good, n); }
  }

  /** Changing bits of a frame within one check sequence's width changes the check sequence. */
  lemma BurstChanges(p: bv32, ones: bv32, good: bv32, k: nat, c: bv32, w: seq<bv8>, v: seq<bv8>, at: nat)
    requires Division(p, ones, good, k) && Fits(c, 8 * k) && |w| == |v| && w != v
    requires forall i :: 0 <= i < |FrameBits(w)| && FrameBits(w)[i] != FrameBits(v)[i] ==> at <= i < at + 8 * k
    ensures Fcs(p, c, w) != Fcs(p, c, v)
  {
    var n := 8 * k;
    FcsIsRemainder(p, c, w, n);
    FcsIsRemainder(p, c, v, n);
    hide Bits, Fcs, Remainder, FrameBits, Fits;
    if FrameBits(w) == FrameBits(v) { FrameBitsInjective(w, v); }
    BurstDetected(Bits(p, n), Bits(c, n), FrameBits(w), FrameBits(v), at);
  }

  // ---------------------------------------------------------------- the two check sequences

  const POLY_16: bv32 := 0x8408
  const POLY_32: bv32 := 0xEDB88320

  lemma {:induction false} BitsLast(c: bv32, n: nat)
    ensures Bits(c, n + 1)[n] == Low(Halved(c, n))
    decreases n
  {
    hide Low, Half;
    if n > 0 { BitsLast(Half(c), n - 1); }
  }

  lemma Fits16(c: bv32)
    requires c < 0x10000
    ensures Fits(c, 16)
  {
    Halved8(c);
    Halved8(Shr8(c));
    assert (c >> 8) >> 8 == 0;
    hide Half;
    HalvedAdd(c, 8, 8);
  }

  lemma Widths16()
    ensures Fits(POLY_16, 16) && Fits(INIT_FCS_16, 16)
  {
    Fits16(0x8408);
    Fits16(0xFFFF);
  }

  lemma Fits32(c: bv32)
    ensures Fits(c, 32)
  {
    hide *;
    Halved8(c);
    Halved8(Shr8(c));
    Halved8(Shr8(Shr8(c)));
    Halved8(Shr8(Shr8(Shr8(c))));
    AllShifted(c);
    HalvedAdd(c, 8, 8);
    HalvedAdd(c, 16, 8);
    HalvedAdd(c, 24, 8);
    FitsIs(c, 32);
  }

  lemma AllShifted(c: bv32)
    ensures Shr8(Shr8(Shr8(Shr8(c)))) == 0
  {
  }

  lemma OnesBits()
    ensures Bits(Byte(0xFF), 8) == All(8)
  {
    var h := Byte(0xFF);
    assert h == 0xFF;
    OneBits(0xFF, 0x7F, 7);
    OneBits(0x7F, 0x3F, 6);
    OneBits(0x3F, 0x1F, 5);
    OneBits(0x1F, 0x0F, 4);
    OneBits(0x0F, 0x07, 3);
    OneBits(0x07, 0x03, 2);
    OneBits(0x03, 0x01, 1);
    OneBits(0x01, 0x00, 0);
  }

  lemma OneBits(c: bv32, d: bv32, n: nat)
    requires c == (d << 1) | 1 && Half(c) == d
    ensures Bits(d, 0) == All(0)
    ensures Bits(d, n) == All(n) ==> Bits(c, n + 1) == All(n + 1)
  {
    assert Low(c);
    hide Low, Half;
  }

  /** Feeding all ones from zero, a byte at a time. */
  lemma GoodResidue(p: bv32, good: bv32, ones: seq<bv8>)
    requires forall i :: 0 <= i < |ones| ==> ones[i] == 0xFF
    requires |ones| >= 1 && Fits(p, 8 * |ones|) && Fcs(p, 0, ones) == good
    ensures Bits(good, 8 * |ones|) == Remainder(Bits(p, 8 * |ones|), None(8 * |ones|), All(8 * |ones|))
    ensures Fits(good, 8 * |ones|)
  {
    hide *;
    var n := 8 * |ones|;
    BitsZero(n);
    FitsIs(0, n);
    FcsIsRemainder(p, 0, ones, n);
    OnesFrame(ones);
  }

  lemma {:induction false} OnesFrame(ones: seq<bv8>)
    requires forall i :: 0 <= i < |ones| ==> ones[i] == 0xFF
    ensures FrameBits(ones) == All(8 * |ones|)
    decreases |ones|
  {
    hide Bits, Byte;
    if ones != [] {
      OnesFrame(ones[..|ones| - 1]);
      OnesBits();
    }
  }

  lemma {:induction false} TrailerOfOnes(c: bv32, ones: seq<bv8>)
    requires ones == Trailer(c, |ones|) && forall i :: 0 <= i < |ones| ==> ones[i] == 0xFF
    ensures Bits(c, 8 * |ones|) == All(8 * |ones|)
  {
    hide Bits, FrameBits, Trailer;
    TrailerBits(c, |ones|);
    OnesFrame(ones);
  }

  lemma Fcs2(p: bv32, a: bv8, b: bv8)
    ensures Fcs(p, 0, [a, b]) == ByteStep(p, ByteStep(p, 0, a), b)
  {
    hide ByteStep;
    assert [a, b][..1] == [a] && [a][..0] == [];
    assert Fcs(p, 0, [a]) == ByteStep(p, 0, a);
  }

  lemma Fcs4(p: bv32, a: bv8, b: bv8, c: bv8, d: bv8)
    ensures Fcs(p, 0, [a, b, c, d]) == ByteStep(p, ByteStep(p, ByteStep(p, ByteStep(p, 0, a), b), c), d)
  {
    hide ByteStep;
    Fcs2(p, a, b);
    assert [a, b, c, d][..3] == [a, b, c] && [a, b, c][..2] == [a, b];
    assert Fcs(p, 0, [a, b, c]) == ByteStep(p, Fcs(p, 0, [a, b]), c);
  }

  lemma Good16()
    ensures ByteStep(POLY_16, ByteStep(POLY_16, 0, 0xFF), 0xFF) == GOOD_FCS_16
  {
  }

  lemma Good32()
    ensures ByteStep(POLY_32, ByteStep(POLY_32, ByteStep(POLY_32, ByteStep(POLY_32, 0, 0xFF), 0xFF), 0xFF), 0xFF) == GOOD_FCS_32
  {
  }

  lemma Tops()
    ensures Low(Halved(POLY_16, 15)) && Low(Halved(POLY_32, 31))
  {
    Halved8(0x8408);
    Halved4(0x84);
    assert Halved(8, 3) == Halved(Half(8), 2) == Halved(Half(Half(8)), 1) == Half(Half(Half(8)));
    HalvedAdd(0x8408, 8, 4);
    HalvedAdd(0x8408, 12, 3);
    Halved8(0xEDB88320);
    Halved8(0xEDB883);
    Halved8(0xEDB8);
    Halved4(0xED);
    assert Halved(0xE, 3) == Halved(Half(0xE), 2) == Halved(Half(Half(0xE)), 1) == Half(Half(Half(0xE)));
    HalvedAdd(0xEDB88320, 8, 8);
    HalvedAdd(0xEDB88320, 16, 8);
    HalvedAdd(0xEDB88320, 24, 4);
    HalvedAdd(0xEDB88320, 28, 3);
  }

  lemma IsGenerator(p: bv32, n: nat)
    requires Low(Halved(p, n))
    ensures Generator(Bits(p, n + 1))
  {
    hide Bits, Low, Halved;
    BitsLast(p, n);
  }

  lemma Trailers()
    ensures Trailer(INIT_FCS_16, 2) == [0xFF, 0xFF] && Trailer(INIT_FCS_32, 4) == [0xFF, 0xFF, 0xFF, 0xFF]
  {
    assert Trailer(0xFFFF, 2) == [FirstByte(0xFFFF)] + Trailer(Shr8(0xFFFF), 1);
    assert Trailer(0xFF, 1) == [FirstByte(0xFF)] + Trailer(Shr8(0xFF), 0);
    assert Trailer(0xFFFFFFFF, 4) == [FirstByte(0xFFFFFFFF)] + Trailer(Shr8(0xFFFFFFFF), 3);
    assert Trailer(0xFFFFFF, 3) == [FirstByte(0xFFFFFF)] + Trailer(Shr8(0xFFFFFF), 2);
  }

  lemma Division16()
    ensures Division(POLY_16, INIT_FCS_16, GOOD_FCS_16, 2)
  {
    hide *;
    Widths16();
    Tops();
    IsGenerator(POLY_16, 15);
    Fcs2(POLY_16, 0xFF, 0xFF);
    Good16();
    GoodResidue(POLY_16, GOOD_FCS_16, [0xFF, 0xFF]);
    Trailers();
    TrailerOfOnes(INIT_FCS_16, [0xFF, 0xFF]);
    DivisionIs(POLY_16, INIT_FCS_16, GOOD_FCS_16, 2);
  }

  lemma Division32()
    ensures Division(POLY_32, INIT_FCS_32, GOOD_FCS_32, 4)
  {
    hide *;
    Fits32(POLY_32);
    Fits32(INIT_FCS_32);
    Tops();
    IsGenerator(POLY_32, 31);
    Fcs4(POLY_32, 0xFF, 0xFF, 0xFF, 0xFF);
    Good32();
    GoodResidue(POLY_32, GOOD_FCS_32, [0xFF, 0xFF, 0xFF, 0xFF]);
    Trailers();
    TrailerOfOnes(INIT_FCS_32, [0xFF, 0xFF, 0xFF, 0xFF]);
    DivisionIs(POLY_32, INIT_FCS_32, GOOD_FCS_32, 4);
  }

  lemma DivisionIs(p: bv32, ones: bv32, good: bv32, k: nat)
    requires k >= 1 && Fits(p, 8 * k) && Generator(Bits(p, 8 * k))
    requires Bits(ones, 8 * k) == All(8 * k) && Fits(ones, 8 * k) && Fits(good, 8 * k)
    requires Bits(good, 8 * k) == Remainder(Bits(p, 8 * k), None(8 * k), All(8 * k))
    ensures Division(p, ones, good, k)
  {
    hide Fits, Bits, Remainder, All, None, Generator;
  }

  // ---------------------------------------------------------------- the loops

  function Pick(row: seq<bv32>, k: bv32): bv32
    requires |row| == 8
  {
    match k
    case 0 => row[0] case 1 => row[1] case 2 => row[2] case 3 => row[3]
    case 4 => row[4] case 5 => row[5] case 6 => row[6] case _ => row[7]
  }

  function Table16(x: bv32): bv32 { Pick(Row16(x >> 3), x & 7) }

  function Table32(x: bv32): bv32 { Pick(Row32(x >> 3), x & 7) }

  lemma PickEntry(p: bv32, c: bv32, k: bv32)
    requires k < 8
    ensures Pick(Entries(p, c), k) == Entry(p, XorW(c, k))
  {
    PickCase(p, c);
    hide Entry, Entries, Pick, XorW;
    EightCases(k);
  }

  lemma EightCases(k: bv32)
    requires k < 8
    ensures k == 0 || k == 1 || k == 2 || k == 3 || k == 4 || k == 5 || k == 6 || k == 7
  {
  }

  lemma PickCase(p: bv32, c: bv32)
    ensures var r := Entries(p, c);
      && Pick(r, 0) == Entry(p, XorW(c, 0)) && Pick(r, 1) == Entry(p, XorW(c, 1))
      && Pick(r, 2) == Entry(p, XorW(c, 2)) && Pick(r, 3) == Entry(p, XorW(c, 3))
      && Pick(r, 4) == Entry(p, XorW(c, 4)) && Pick(r, 5) == Entry(p, XorW(c, 5))
      && Pick(r, 6) == Entry(p, XorW(c, 6)) && Pick(r, 7) == Entry(p, XorW(c, 7))
  {
    hide Entry;
    XorNeutral(c);
  }

  lemma RowAndPlace(x: bv32)
    requires x < 256
    ensures x >> 3 < 32 && x & 7 < 8
    ensures XorW(8 * (x >> 3), x & 7) == x
  {
  }

  /** Every entry of the tables is eight steps of the division. */
  lemma TablesAre(x: bv32)
    requires x < 256
    ensures Table16(x) == Entry(POLY_16, x) && Table32(x) == Entry(POLY_32, x)
  {
    RowAndPlace(x);
    TableAt(x, x >> 3, x & 7);
  }

  lemma TableAt(x: bv32, r: bv32, k: bv32)
    requires r == x >> 3 && k == x & 7 && r < 32 && k < 8 && XorW(8 * r, k) == x
    ensures Table16(x) == Entry(POLY_16, x) && Table32(x) == Entry(POLY_32, x)
  {
    hide Row16, Row32, Entries, Entry, Pick, XorW;
    Rows16(r);
    Rows32(r);
    PickEntry(POLY_16, 8 * r, k);
    PickEntry(POLY_32, 8 * r, k);
  }

  lemma LowByteBound(c: bv32)
    ensures LowByte(c) < 256
  {
  }

  method Fcs16(initial: bv32, cp: seq<bv8>) returns (fcs: bv32)
    ensures fcs == Fcs(POLY_16, initial, cp)
  {
    hide *;
    fcs := initial;
    FcsStart(POLY_16, initial, cp);
    for i := 0 to |cp|
      invariant fcs == Fcs(POLY_16, initial, cp[..i])
    {
      FcsNext(POLY_16, initial, cp, i);
      var x := LowByte(XorW(fcs, Byte(cp[i])));
      LowByteBound(XorW(fcs, Byte(cp[i])));
      TablesAre(x);
      fcs := XorW(Shr8(fcs), Table16(x));
    }
    assert cp[..|cp|] == cp;
  }

  method Fcs32(initial: bv32, cp: seq<bv8>) returns (fcs: bv32)
    ensures fcs == Fcs(POLY_32, initial, cp)
  {
    hide *;
    fcs := initial;
    FcsStart(POLY_32, initial, cp);
    for i := 0 to |cp|
      invariant fcs == Fcs(POLY_32, initial, cp[..i])
    {
      FcsNext(POLY_32, initial, cp, i);
      var x := LowByte(XorW(fcs, Byte(cp[i])));
      LowByteBound(XorW(fcs, Byte(cp[i])));
      TablesAre(x);
      fcs := XorW(Shr8(fcs), Table32(x));
    }
    assert cp[..|cp|] == cp;
  }

  lemma FcsStart(p: bv32, c: bv32, cp: seq<bv8>)
    ensures Fcs(p, c, cp[..0]) == c
  {
  }

  lemma FcsNext(p: bv32, c: bv32, cp: seq<bv8>, i: nat)
    requires i < |cp|
    ensures Fcs(p, c, cp[..i + 1]) == XorW(Shr8(Fcs(p, c, cp[..i])), Entry(p, LowByte(XorW(Fcs(p, c, cp[..i]), Byte(cp[i])))))
  {
    hide XorW, Shr8, Entry, LowByte, Byte;
    assert cp[..i + 1][..i] == cp[..i];
  }

  /** A frame checks as good exactly when its trailer is the complement of the check sequence of the rest. */
  lemma GoodFcs16Iff(data: seq<bv8>, t: seq<bv8>)
    requires |t| == 2
    ensures Fcs(POLY_16, INIT_FCS_16, data + t) == GOOD_FCS_16
       <==> t == Trailer(XorW(Fcs(POLY_16, INIT_FCS_16, data), INIT_FCS_16), 2)
  {
    hide *;
    Division16();
    Widths16();
    GoodIff(POLY_16, INIT_FCS_16, GOOD_FCS_16, 2, INIT_FCS_16, data, t);
  }

  lemma GoodFcs32Iff(data: seq<bv8>, t: seq<bv8>)
    requires |t| == 4
    ensures Fcs(POLY_32, INIT_FCS_32, data + t) == GOOD_FCS_32
       <==> t == Trailer(XorW(Fcs(POLY_32, INIT_FCS_32, data), INIT_FCS_32), 4)
  {
    hide *;
    Division32();
    Fits32(INIT_FCS_32);
    GoodIff(POLY_32, INIT_FCS_32, GOOD_FCS_32, 4, INIT_FCS_32, data, t);
  }

  /** A good frame stops being good when bits within 16, or 32, of each other are changed. */
  lemma BurstSpoils16(w: seq<bv8>, v: seq<bv8>, at: nat)
    requires |w| == |v| && w != v && Fcs(POLY_16, INIT_FCS_16, w) == GOOD_FCS_16
    requires forall i :: 0 <= i < |FrameBits(w)| && FrameBits(w)[i] != FrameBits(v)[i] ==> at <= i < at + 16
    ensures Fcs(POLY_16, INIT_FCS_16, v) != GOOD_FCS_16
  {
    hide *;
    Division16();
    Widths16();
    BurstChanges(POLY_16, INIT_FCS_16, GOOD_FCS_16, 2, INIT_FCS_16, w, v, at);
  }

  lemma BurstSpoils32(w: seq<bv8>, v: seq<bv8>, at: nat)
    requires |w| == |v| && w != v && Fcs(POLY_32, INIT_FCS_32, w) == GOOD_FCS_32
    requires forall i :: 0 <= i < |FrameBits(w)| && FrameBits(w)[i] != FrameBits(v)[i] ==> at <= i < at + 32
    ensures Fcs(POLY_32, INIT_FCS_32, v) != GOOD_FCS_32
  {
    hide *;
    Division32();
    Fits32(INIT_FCS_32);
    BurstChanges(POLY_32, INIT_FCS_32, GOOD_FCS_32, 4, INIT_FCS_32, w, v, at);
  }
}
