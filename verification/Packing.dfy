/** Packing symbols of 1 to 8 bits next to each other into bytes, most significant bit first, and back. */
module Packing {
  import opened Bits

  type Byte = x: nat | x < 256

  /** Bit k of a number. */
  function Bit(x: nat, k: nat): bool {
    if k == 0 then x % 2 == 1 else Bit(x / 2, k - 1)
  }

  /** Bit p of a buffer, counted from the top of its first byte. */
  function BufferBit(buf: seq<Byte>, p: nat): bool
    requires p < 8 * |buf|
  {
    Bit(buf[p / 8], 7 - p % 8)
  }

  // ---------------------------------------------------------------- bits of numbers

  lemma DivTwice(a: nat, h: nat)
    requires h > 0
    ensures a / (2 * h) == a / 2 / h && a % (2 * h) / 2 == a / 2 % h && a % (2 * h) % 2 == a % 2
  {
    ModTwice(a, h);
    DivMod(a, 2 * h);
    DivMod(a / 2, h);
    var q := a / 2 / h;
    assert a == 2 * (h * q + (a / 2) % h) + a % 2;
    ModUnique(a, 2 * h, q, 2 * ((a / 2) % h) + a % 2);
  }

  lemma TwiceProduct(a: nat, h: nat, p: nat)
    requires p == 2 * h
    ensures a * p == 2 * (a * h)
  {
  }

  lemma {:induction false} BitShiftLeft(x: nat, e: nat, k: nat)
    ensures Bit(x * Two(e), k) == (k >= e && Bit(x, k - e))
    decreases k
  {
    if e > 0 {
      TwiceProduct(x, Two(e - 1), Two(e));
      if k > 0 { BitShiftLeft(x, e - 1, k - 1); }
    }
  }

  function Right(x: nat, e: nat): nat {
    DivMod(x, Two(e));
    x / Two(e)
  }

  lemma {:induction false} BitShiftRight(x: nat, e: nat, k: nat)
    ensures Bit(Right(x, e), k) == Bit(x, k + e)
    decreases e
  {
    if e > 0 {
      DivTwice(x, Two(e - 1));
      BitShiftRight(x / 2, e - 1, k);
    }
  }

  lemma {:induction false} BitMask(x: nat, w: nat, k: nat)
    ensures Bit(x % Two(w), k) == (k < w && Bit(x, k))
    decreases w, k
  {
    if w == 0 {
      ZeroBits(k);
    } else {
      DivTwice(x, Two(w - 1));
      if k > 0 { BitMask(x / 2, w - 1, k - 1); }
    }
  }

  lemma {:induction false} ZeroBits(k: nat)
    ensures !Bit(0, k)
  {
    if k > 0 { ZeroBits(k - 1); }
  }

  lemma {:induction false} BitOr(a: nat, b: nat, k: nat)
    ensures Bit(Or(a, b), k) == (Bit(a, k) || Bit(b, k))
    decreases k
  {
    OrHalf(a, b);
    if k > 0 { BitOr(a / 2, b / 2, k - 1); }
  }

  lemma OrHalf(a: nat, b: nat)
    ensures Or(a, b) / 2 == Or(a / 2, b / 2) && Or(a, b) % 2 == if a % 2 == 1 || b % 2 == 1 then 1 else 0
  {
  }

  /** Numbers below Two(w) with the same w bits are equal. */
  lemma {:induction false} SameBits(x: nat, y: nat, w: nat)
    requires x < Two(w) && y < Two(w) && forall k: nat :: k < w ==> Bit(x, k) == Bit(y, k)
    ensures x == y
    decreases w
  {
    if w > 0 {
      assert Bit(x, 0) == Bit(y, 0);
      forall k: nat | k < w - 1 ensures Bit(x / 2, k) == Bit(y / 2, k) { assert Bit(x, k + 1) == Bit(y, k + 1); }
      SameBits(x / 2, y / 2, w - 1);
    }
  }

  // ---------------------------------------------------------------- one symbol

  /** The symbol moved up so that it ends `after` bits above the bottom. */
  function Placed(s: nat, w: nat, after: nat): nat { s % Two(w) * Two(after) }

  lemma PlacedBit(s: nat, w: nat, after: nat, k: nat)
    ensures Bit(Placed(s, w, after), k) == (after <= k < after + w && Bit(s, k - after))
  {
    BitShiftLeft(s % Two(w), after, k);
    if k >= after { BitMask(s, w, k - after); }
  }

  lemma PlacedBound(s: nat, w: nat, after: nat)
    ensures Placed(s, w, after) < Two(w + after)
  {
    ShiftedBound(s % Two(w), w, after);
  }

  lemma {:induction false} ShiftedBound(t: nat, w: nat, after: nat)
    requires t < Two(w)
    ensures t * Two(after) < Two(w + after)
    decreases after
  {
    if after > 0 {
      ShiftedBound(t, w, after - 1);
      TwiceProduct(t, Two(after - 1), Two(after));
    }
  }

  lemma EightBits()
    ensures Two(8) == 256 && Two(16) == 0x10000
  {
    assert Two(4) == 16 && Two(12) == 4096;
  }

  function OrByte(a: Byte, b: Byte): Byte {
    EightBits();
    OrBelow(a, b, 8);
    Or(a, b)
  }

  /** Bit p of a stream of symbols, of which the first n are present. */
  predicate Packed(syms: seq<Byte>, w: nat, n: nat, p: nat)
    requires w > 0 && n <= |syms|
  {
    p / w < n && Bit(syms[p / w], w - 1 - p % w)
  }

  /** The number of symbols that fit into so many bits. */
  function Fit(symbols: nat, w: nat, room: nat): (fit: nat)
    requires w > 0
    ensures fit <= symbols && fit * w <= room && (fit == symbols || (fit + 1) * w > room)
  {
    var whole := Whole(room, w);
    NoMore(whole, symbols, w, room);
    if symbols * w <= room then symbols else whole
  }

  /** The number of symbols that fit behind the first `off` bits and are wanted. */
  function Count(symbols: nat, w: nat, maxSymbols: nat, bytes: nat, off: nat): (n: nat)
    requires w > 0 && off <= bytes * 8
    ensures n <= symbols && n <= maxSymbols && off + n * w <= 8 * bytes
    ensures n == symbols || n == maxSymbols || off + (n + 1) * w > 8 * bytes
  {
    var fit := Fit(symbols, w, bytes * 8 - off);
    var n := if maxSymbols < fit then maxSymbols else fit;
    MulBound(n, fit, w);
    n
  }

  lemma MulBound(n: nat, fit: nat, w: nat)
    requires n <= fit
    ensures n * w <= fit * w
  {
  }

  function Whole(room: nat, w: nat): (q: nat)
    requires w > 0
    ensures q * w <= room < (q + 1) * w
  {
    DivMod(room, w);
    OneMore(room / w, w);
    room / w
  }

  lemma OneMore(q: nat, w: nat)
    ensures (q + 1) * w == q * w + w
  {
  }

  lemma NoMore(q: nat, symbols: nat, w: nat, room: nat)
    requires q * w <= room
    ensures symbols * w > room ==> q <= symbols
  {
    if q > symbols { MulBound(symbols, q, w); }
  }

  /** No symbol reaches beyond its second byte, so that no shift is negative; so without an offset. */
  ghost predicate Shiftable(w: nat, off: nat) {
    forall i: nat :: InTwoBytes(i, w, off)
  }

  predicate InTwoBytes(i: nat, w: nat, off: nat) { i * w % 8 + off + w <= 16 }

  lemma PlainOffset(w: nat)
    requires w <= 8
    ensures Shiftable(w, 0)
  {
    forall i: nat ensures InTwoBytes(i, w, 0) { DivMod(i * w, 8); }
  }

  lemma SymbolPlace(i: nat, w: nat, n: nat, bytes: nat, off: nat)
    requires 1 <= w <= 8 && i < n && off + n * w <= 8 * bytes && Shiftable(w, off)
    ensures var o, b := i * w / 8, i * w % 8 + off;
      8 * o + b == i * w + off && b + w <= 16 && 8 * o + b + w <= 8 * bytes
  {
    assert InTwoBytes(i, w, off);
    MulBound(i + 1, n, w);
    assert (i + 1) * w == i * w + w;
  }

  /** The bits that symbol i occupies. */
  lemma PackedNext(syms: seq<Byte>, w: nat, i: nat, p: nat)
    requires w > 0 && i < |syms|
    ensures Packed(syms, w, i + 1, p)
       <==> Packed(syms, w, i, p) || (i * w <= p < i * w + w && Bit(syms[i], w - 1 - (p - i * w)))
  {
    DivMod(p, w);
    if i * w <= p < i * w + w { ModUnique(p, w, i, p - i * w); }
  }

  /** The buffer with one symbol added `b` bits behind the start of byte o. */
  function WithSymbol(buf: seq<Byte>, s: Byte, w: nat, o: nat, b: nat): (r: seq<Byte>)
    requires 1 <= w <= 8 && b + w <= 16 && 8 * o + b + w <= 8 * |buf|
    ensures |r| == |buf|
  {
    if b + w > 8 then
      var wide := Placed(s, w, 16 - b - w);
      WideBound(s, w, 16 - b - w);
      buf[o := OrByte(buf[o], wide / 256)][o + 1 := OrByte(buf[o + 1], wide % 256)]
    else
      NarrowBound(s, w, 8 - b - w);
      buf[o := OrByte(buf[o], Placed(s, w, 8 - b - w))]
  }

  lemma WideBound(s: nat, w: nat, after: nat)
    requires w + after <= 16
    ensures Placed(s, w, after) / 256 < 256
  {
    PlacedBound(s, w, after);
    EightBits();
    TwoMonotone(w + after, 16);
    hide Placed;
  }

  lemma NarrowBound(s: nat, w: nat, after: nat)
    requires w + after <= 8
    ensures Placed(s, w, after) < 256
  {
    PlacedBound(s, w, after);
    EightBits();
    TwoMonotone(w + after, 8);
    hide Placed;
  }

  lemma WideBits(wide: nat, k: nat)
    requires k < 8
    ensures Bit(wide / 256, k) == Bit(wide, k + 8) && Bit(wide % 256, k) == Bit(wide, k)
  {
    EightBits();
    BitShiftRight(wide, 8, k);
    BitMask(wide, 8, k);
  }

  lemma ByteAndBit(p: nat, n: nat) returns (k: nat, j: nat)
    requires p < 8 * n
    ensures p == 8 * k + j && j < 8 && k < n
  {
    k, j := p / 8, p % 8;
  }

  lemma BufferBitAt(buf: seq<Byte>, k: nat, j: nat)
    requires k < |buf| && j < 8
    ensures BufferBit(buf, 8 * k + j) == Bit(buf[k], 7 - j)
  {
    hide Bit;
  }

  /** Adding a symbol sets exactly the bits of the symbol. */
  lemma SymbolBits(buf: seq<Byte>, s: Byte, w: nat, o: nat, b: nat, p: nat)
    requires 1 <= w <= 8 && b + w <= 16 && 8 * o + b + w <= 8 * |buf| && p < 8 * |buf|
    ensures var at := 8 * o + b;
      BufferBit(WithSymbol(buf, s, w, o, b), p) == (BufferBit(buf, p) || (at <= p < at + w && Bit(s, w - 1 - (p - at))))
  {
    hide *;
    var k, j := ByteAndBit(p, |buf|);
    var r := WithSymbol(buf, s, w, o, b);
    BufferBitAt(buf, k, j);
    BufferBitAt(r, k, j);
    if b + w > 8 { WideSymbol(buf, s, w, o, b, k, j); } else { NarrowSymbol(buf, s, w, o, b, k, j); }
  }

  lemma WideSymbol(buf: seq<Byte>, s: Byte, w: nat, o: nat, b: nat, k: nat, j: nat)
    requires 1 <= w <= 8 && 8 < b + w <= 16 && 8 * o + b + w <= 8 * |buf| && k < |buf| && j < 8
    ensures var p, at := 8 * k + j, 8 * o + b;
      Bit(WithSymbol(buf, s, w, o, b)[k], 7 - j) == (Bit(buf[k], 7 - j) || (at <= p < at + w && Bit(s, w - 1 - (p - at))))
  {
    var e := 16 - b - w;
    var wide := Placed(s, w, e);
    WideBound(s, w, e);
    hide Placed, Bit, Or;
    WideBits(wide, 7 - j);
    if k == o {
      PlacedBit(s, w, e, 15 - j);
      BitOr(buf[o], wide / 256, 7 - j);
    }
    if k == o + 1 {
      PlacedBit(s, w, e, 7 - j);
      BitOr(buf[o + 1], wide % 256, 7 - j);
    }
  }

  lemma NarrowSymbol(buf: seq<Byte>, s: Byte, w: nat, o: nat, b: nat, k: nat, j: nat)
    requires 1 <= w <= 8 && b + w <= 8 && 8 * o + b + w <= 8 * |buf| && k < |buf| && j < 8
    ensures var p, at := 8 * k + j, 8 * o + b;
      Bit(WithSymbol(buf, s, w, o, b)[k], 7 - j) == (Bit(buf[k], 7 - j) || (at <= p < at + w && Bit(s, w - 1 - (p - at))))
  {
    var e := 8 - b - w;
    NarrowBound(s, w, e);
    hide Placed, Bit, Or;
    if k == o {
      PlacedBit(s, w, e, 7 - j);
      BitOr(buf[o], Placed(s, w, e), 7 - j);
    }
  }

  // ---------------------------------------------------------------- packing and unpacking

  /** The buffer holds the first n symbols behind `off` bits, and zeros. */
  predicate Holds(buf: seq<Byte>, syms: seq<Byte>, w: nat, n: nat, off: nat)
    requires w > 0 && n <= |syms|
  {
    forall p: nat :: p < 8 * |buf| ==> BufferBit(buf, p) == (p >= off && Packed(syms, w, n, p - off))
  }

  lemma HoldsNext(buf: seq<Byte>, syms: seq<Byte>, w: nat, i: nat, off: nat, o: nat, b: nat)
    requires 1 <= w <= 8 && i < |syms| && b + w <= 16 && 8 * o + b + w <= 8 * |buf| && 8 * o + b == i * w + off
    requires Holds(buf, syms, w, i, off)
    ensures Holds(WithSymbol(buf, syms[i], w, o, b), syms, w, i + 1, off)
  {
    hide Packed, BufferBit, WithSymbol;
    var r := WithSymbol(buf, syms[i], w, o, b);
    forall p: nat | p < 8 * |r| ensures BufferBit(r, p) == (p >= off && Packed(syms, w, i + 1, p - off)) {
      SymbolBits(buf, syms[i], w, o, b, p);
      if p >= off { PackedNext(syms, w, i, p - off); }
    }
  }

  lemma HoldsNothing(buf: seq<Byte>, syms: seq<Byte>, w: nat, off: nat)
    requires w > 0 && forall k :: 0 <= k < |buf| ==> buf[k] == 0
    ensures Holds(buf, syms, w, 0, off)
  {
    hide Bit;
    forall p: nat | p < 8 * |buf| ensures BufferBit(buf, p) == (p >= off && Packed(syms, w, 0, p - off)) {
      ZeroBits(7 - p % 8);
      if p >= off { DivMod(p - off, w); }
    }
  }

  /** Pack symbols into the buffer behind its first `off` bits; what is left over is cleared. */
  method Pack(w: nat, syms: seq<Byte>, maxSymbols: nat, buf: array<Byte>, off: nat)
    requires 1 <= w <= 8 && off <= 8 * buf.Length && Shiftable(w, off)
    modifies buf
    ensures Holds(buf[..], syms, w, Count(|syms|, w, maxSymbols, buf.Length, off), off)
  {
    hide Holds, WithSymbol, Placed, Count, Shiftable;
    var symCount := Count(|syms|, w, maxSymbols, buf.Length, off);
    for k := 0 to buf.Length
      invariant forall j :: 0 <= j < k ==> buf[j] == 0
    {
      buf[k] := 0;
    }
    HoldsNothing(buf[..], syms, w, off);
    for i := 0 to symCount
      invariant Holds(buf[..], syms, w, i, off)
    {
      SymbolPlace(i, w, symCount, buf.Length, off);
      var bufOffset, bitOffset := i * w / 8, i * w % 8 + off;
      HoldsNext(buf[..], syms, w, i, off, bufOffset, bitOffset);
      PackSymbol(buf, syms[i], w, bufOffset, bitOffset);
    }
  }

  /** Put one symbol into the one or two bytes it falls in. */
  method PackSymbol(buf: array<Byte>, s: Byte, w: nat, bufOffset: nat, bitOffset: nat)
    requires 1 <= w <= 8 && bitOffset + w <= 16 && 8 * bufOffset + bitOffset + w <= 8 * buf.Length
    modifies buf
    ensures buf[..] == WithSymbol(old(buf[..]), s, w, bufOffset, bitOffset)
  {
    hide Placed, Or;
    if bitOffset > 8 - w {
      var wide := Placed(s, w, 16 - bitOffset - w);
      WideBound(s, w, 16 - bitOffset - w);
      buf[bufOffset] := OrByte(buf[bufOffset], wide / 256);
      buf[bufOffset + 1] := OrByte(buf[bufOffset + 1], wide % 256);
    } else {
      NarrowBound(s, w, 8 - bitOffset - w);
      buf[bufOffset] := OrByte(buf[bufOffset], Placed(s, w, 8 - bitOffset - w));
    }
  }

  /** The symbol `b` bits behind the start of byte o. */
  function SymbolAt(buf: seq<Byte>, w: nat, o: nat, b: nat): nat
    requires 1 <= w <= 8 && b + w <= 16 && 8 * o + b + w <= 8 * |buf|
  {
    if b + w > 8 then
      var hi: nat := buf[o];
      Right(hi * 256 + buf[o + 1], 16 - b - w) % Two(w)
    else Right(buf[o], 8 - b - w) % Two(w)
  }

  lemma SymbolAtBit(buf: seq<Byte>, w: nat, o: nat, b: nat, k: nat)
    requires 1 <= w <= 8 && b + w <= 16 && 8 * o + b + w <= 8 * |buf| && k < w
    ensures Bit(SymbolAt(buf, w, o, b), k) == BufferBit(buf, 8 * o + b + w - 1 - k)
  {
    InByte(buf, o, b + w - 1 - k);
    hide BufferBit, Bit, Right;
    if b + w > 8 {
      var e := 16 - b - w;
      WideSymbolBit(buf[o], buf[o + 1], w, e, k);
    } else {
      BitMask(Right(buf[o], 8 - b - w), w, k);
      BitShiftRight(buf[o], 8 - b - w, k);
    }
  }

  /** Bit j of the two bytes from byte o on. */
  lemma InByte(buf: seq<Byte>, o: nat, j: nat)
    requires j < 16 && 8 * o + j < 8 * |buf|
    ensures BufferBit(buf, 8 * o + j) == if j < 8 then Bit(buf[o], 7 - j) else Bit(buf[o + 1], 15 - j)
  {
    hide Bit;
  }

  lemma WideSymbolBit(hi: Byte, lo: Byte, w: nat, e: nat, k: nat)
    requires k < w && k + e < 16
    ensures var h: nat := hi;
      Bit(Right(h * 256 + lo, e) % Two(w), k) == if k + e >= 8 then Bit(hi, k + e - 8) else Bit(lo, k + e)
  {
    var h: nat := hi;
    var x: nat := h * 256 + lo;
    hide Bit, Right;
    BitMask(Right(x, e), w, k);
    BitShiftRight(x, e, k);
    if k + e >= 8 { WideBits(x, k + e - 8); } else { WideBits(x, k + e); }
    assert x / 256 == hi && x % 256 == lo;
  }

  /** The i-th symbol behind the first `off` bits. */
  ghost function Symbol(buf: seq<Byte>, w: nat, off: nat, i: nat): nat
    requires 1 <= w <= 8 && InTwoBytes(i, w, off) && off + i * w + w <= 8 * |buf|
  {
    DivMod(i * w, 8);
    SymbolAt(buf, w, i * w / 8, i * w % 8 + off)
  }

  method Unpack(w: nat, buf: array<Byte>, maxSymbols: nat, off: nat) returns (syms: seq<nat>)
    requires 1 <= w <= 8 && off <= 8 * buf.Length && Shiftable(w, off)
    ensures |syms| == Count(maxSymbols, w, maxSymbols, buf.Length, off)
    ensures forall i: nat :: i < |syms| ==>
      InTwoBytes(i, w, off) && off + i * w + w <= 8 * buf.Length && syms[i] == Symbol(buf[..], w, off, i)
  {
    hide SymbolAt, Count, Shiftable, InTwoBytes;
    var symCount := Count(maxSymbols, w, maxSymbols, buf.Length, off);
    syms := [];
    for i := 0 to symCount
      invariant |syms| == i
      invariant forall k: nat :: k < i ==>
        InTwoBytes(k, w, off) && off + k * w + w <= 8 * buf.Length && syms[k] == Symbol(buf[..], w, off, k)
    {
      SymbolPlace(i, w, symCount, buf.Length, off);
      SymbolInside(i, w, symCount, buf.Length, off);
      var bufOffset, bitOffset := i * w / 8, i * w % 8 + off;
      syms := syms + [SymbolAt(buf[..], w, bufOffset, bitOffset)];
    }
  }

  lemma SymbolInside(i: nat, w: nat, n: nat, bytes: nat, off: nat)
    requires 1 <= w <= 8 && i < n && off + n * w <= 8 * bytes && Shiftable(w, off)
    ensures InTwoBytes(i, w, off) && off + i * w + w <= 8 * bytes
  {
    hide InTwoBytes;
    MulBound(i + 1, n, w);
    assert (i + 1) * w == i * w + w;
  }

  /** Symbol i of a packed buffer reads back as the bits of the symbol that was packed. */
  lemma UnpackPack(buf: seq<Byte>, syms: seq<Byte>, w: nat, n: nat, off: nat, i: nat)
    requires 1 <= w <= 8 && i < n <= |syms| && off + n * w <= 8 * |buf| && Shiftable(w, off) && Holds(buf, syms, w, n, off)
    ensures InTwoBytes(i, w, off) && off + i * w + w <= 8 * |buf|
    ensures Symbol(buf, w, off, i) == syms[i] % Two(w)
    ensures syms[i] < Two(w) ==> Symbol(buf, w, off, i) == syms[i]
  {
    hide *;
    SymbolInside(i, w, n, |buf|, off);
    var o, b := SymbolIs(buf, w, off, i);
    var y := LowBits(syms[i], w);
    var x := SymbolAt(buf, w, o, b);
    SymbolBound(buf, w, o, b);
    forall k: nat | k < w ensures Bit(x, k) == Bit(y, k) { UnpackedBit(buf, syms, w, n, off, i, o, b, k); }
    SameBits(x, y, w);
  }

  /** Where the i-th symbol is read. */
  lemma SymbolIs(buf: seq<Byte>, w: nat, off: nat, i: nat) returns (o: nat, b: nat)
    requires 1 <= w <= 8 && InTwoBytes(i, w, off) && off + i * w + w <= 8 * |buf|
    ensures 8 * o + b == i * w + off && b + w <= 16 && 8 * o + b + w <= 8 * |buf|
    ensures Symbol(buf, w, off, i) == SymbolAt(buf, w, o, b)
  {
    hide SymbolAt;
    o, b := i * w / 8, i * w % 8 + off;
  }

  lemma LowBits(x: nat, w: nat) returns (y: nat)
    ensures y < Two(w) && y == x % Two(w) && (x < Two(w) ==> y == x)
  {
    DivMod(x, Two(w));
    SmallMod(x, Two(w));
    y := x % Two(w);
  }

  lemma UnpackedBit(buf: seq<Byte>, syms: seq<Byte>, w: nat, n: nat, off: nat, i: nat, o: nat, b: nat, k: nat)
    requires 1 <= w <= 8 && i < n <= |syms| && k < w && Holds(buf, syms, w, n, off)
    requires 8 * o + b == i * w + off && b + w <= 16 && 8 * o + b + w <= 8 * |buf|
    ensures Bit(SymbolAt(buf, w, o, b), k) == Bit(syms[i] % Two(w), k)
  {
    hide *;
    SymbolAtBit(buf, w, o, b, k);
    BitMask(syms[i], w, k);
    PackedBit(syms, w, n, i, k);
    HoldsAt(buf, syms, w, n, off, i * w + w - 1 - k);
  }

  lemma HoldsAt(buf: seq<Byte>, syms: seq<Byte>, w: nat, n: nat, off: nat, p: nat)
    requires w > 0 && n <= |syms| && Holds(buf, syms, w, n, off) && p + off < 8 * |buf|
    ensures BufferBit(buf, p + off) == Packed(syms, w, n, p)
  {
    hide BufferBit, Packed;
  }

  lemma SmallMod(x: nat, m: nat)
    requires m > 0
    ensures x < m ==> x % m == x
  {
  }

  lemma PackedBit(syms: seq<Byte>, w: nat, n: nat, i: nat, k: nat)
    requires i < n <= |syms| && k < w
    ensures Packed(syms, w, n, i * w + w - 1 - k) == Bit(syms[i], k)
  {
    hide Bit;
    ModUnique(i * w + w - 1 - k, w, i, w - 1 - k);
  }

  lemma SymbolBound(buf: seq<Byte>, w: nat, o: nat, b: nat)
    requires 1 <= w <= 8 && b + w <= 16 && 8 * o + b + w <= 8 * |buf|
    ensures SymbolAt(buf, w, o, b) < Two(w)
  {
    hide Right;
  }

  /** Packing symbols that all fit and unpacking as many gives them back, reduced to their low bits. */
  method RoundTrip(w: nat, syms: seq<Byte>, maxSymbols: nat, buf: array<Byte>, off: nat) returns (back: seq<nat>)
    requires 1 <= w <= 8 && Shiftable(w, off) && off + |syms| * w <= 8 * buf.Length && |syms| <= maxSymbols
    modifies buf
    ensures |back| == |syms| && forall i :: 0 <= i < |syms| ==> back[i] == syms[i] % Two(w)
  {
    hide Holds, Symbol, Shiftable, Count;
    AllFit(|syms|, w, maxSymbols, buf.Length, off);
    AllFit(|syms|, w, |syms|, buf.Length, off);
    Pack(w, syms, maxSymbols, buf, off);
    back := Unpack(w, buf, |syms|, off);
    forall i: nat | i < |syms| ensures back[i] == syms[i] % Two(w) { UnpackPack(buf[..], syms, w, |syms|, off, i); }
  }

  lemma AllFit(n: nat, w: nat, maxSymbols: nat, bytes: nat, off: nat)
    requires w > 0 && off + n * w <= 8 * bytes && n <= maxSymbols
    ensures off <= 8 * bytes && Count(n, w, maxSymbols, bytes, off) == n
  {
    MulNext(Count(n, w, maxSymbols, bytes, off), n, w);
    hide Count;
  }

  lemma MulNext(c: nat, n: nat, w: nat)
    ensures c < n ==> (c + 1) * w <= n * w
  {
    if c < n { MulBound(c + 1, n, w); }
  }

  // ---------------------------------------------------------------- the buffer as one number

  /** The number whose digits to the base 256 are the bytes, most significant first. */
  function BufferNumber(buf: seq<Byte>): nat {
    if buf == [] then 0
    else
      var b: nat := buf[|buf| - 1];
      BufferNumber(buf[..|buf| - 1]) * Two(8) + b
  }

  /** The number whose digits to the base Two(w) are the low bits of the first n symbols, first symbol first. */
  function SymbolNumber(syms: seq<Byte>, w: nat, n: nat): nat
    requires n <= |syms|
  {
    if n == 0 then 0 else SymbolNumber(syms, w, n - 1) * Two(w) + syms[n - 1] % Two(w)
  }

  lemma {:induction false} BitJoin(a: nat, b: nat, w: nat, k: nat)
    requires b < Two(w)
    ensures Bit(a * Two(w) + b, k) == if k < w then Bit(b, k) else Bit(a, k - w)
    decreases w, k
  {
    if w > 0 {
      var h := a * Two(w - 1);
      TwiceProduct(a, Two(w - 1), Two(w));
      assert (2 * h + b) / 2 == h + b / 2 && (2 * h + b) % 2 == b % 2;
      if k > 0 { BitJoin(a, b / 2, w - 1, k - 1); }
    }
  }

  lemma {:induction false} BufferNumberBit(buf: seq<Byte>, k: nat)
    ensures Bit(BufferNumber(buf), k) == (k < 8 * |buf| && BufferBit(buf, 8 * |buf| - 1 - k))
    decreases |buf|
  {
    hide Bit;
    if buf == [] {
      ZeroBits(k);
    } else {
      var n := |buf| - 1;
      var b: nat := buf[n];
      EightBits();
      BitJoin(BufferNumber(buf[..n]), b, 8, k);
      if k < 8 {
        BufferBitAt(buf, n, 7 - k);
      } else {
        BufferNumberBit(buf[..n], k - 8);
        if k < 8 * |buf| { EarlierBit(buf, n, 8 * |buf| - 1 - k); }
      }
    }
  }

  lemma EarlierBit(buf: seq<Byte>, n: nat, p: nat)
    requires n <= |buf| && p < 8 * n
    ensures BufferBit(buf, p) == BufferBit(buf[..n], p)
  {
    hide Bit;
  }

  lemma {:induction false} SymbolNumberBit(syms: seq<Byte>, w: nat, n: nat, k: nat)
    requires w > 0 && n <= |syms|
    ensures Bit(SymbolNumber(syms, w, n), k) == (k < n * w && Packed(syms, w, n, n * w - 1 - k))
    decreases n
  {
    hide Bit, Packed;
    if n == 0 {
      ZeroBits(k);
    } else {
      var y := LowBits(syms[n - 1], w);
      BitJoin(SymbolNumber(syms, w, n - 1), y, w, k);
      OneMore(n - 1, w);
      if k < w {
        BitMask(syms[n - 1], w, k);
        LastPacked(syms, w, n, k);
      } else {
        SymbolNumberBit(syms, w, n - 1, k - w);
        if k < n * w { FewerPacked(syms, w, n, n * w - 1 - k); }
      }
    }
  }

  lemma LastPacked(syms: seq<Byte>, w: nat, n: nat, k: nat)
    requires 0 < n <= |syms| && k < w
    ensures n * w - 1 - k >= 0 && Packed(syms, w, n, n * w - 1 - k) == Bit(syms[n - 1], k)
  {
    OneMore(n - 1, w);
    PackedBit(syms, w, n, n - 1, k);
    hide Packed, Bit;
  }

  lemma FewerPacked(syms: seq<Byte>, w: nat, n: nat, p: nat)
    requires w > 0 && 0 < n <= |syms| && p < (n - 1) * w
    ensures Packed(syms, w, n, p) == Packed(syms, w, n - 1, p)
  {
    hide Bit;
    PackedNext(syms, w, n - 1, p);
  }

  lemma {:induction false} JoinBound(a: nat, b: nat, m: nat, w: nat)
    requires a < Two(m) && b < Two(w)
    ensures a * Two(w) + b < Two(m + w)
    decreases w
  {
    if w > 0 {
      JoinBound(a, b / 2, m, w - 1);
      TwiceProduct(a, Two(w - 1), Two(w));
    }
  }

  lemma {:induction false} BufferNumberBound(buf: seq<Byte>)
    ensures BufferNumber(buf) < Two(8 * |buf|)
    decreases |buf|
  {
    if buf != [] {
      var n := |buf| - 1;
      EightBits();
      BufferNumberBound(buf[..n]);
      JoinBound(BufferNumber(buf[..n]), buf[n], 8 * n, 8);
      hide Two;
    }
  }

  lemma {:induction false} SymbolNumberBound(syms: seq<Byte>, w: nat, n: nat)
    requires n <= |syms|
    ensures SymbolNumber(syms, w, n) < Two(n * w)
    decreases n
  {
    if n > 0 {
      var y := LowBits(syms[n - 1], w);
      SymbolNumberBound(syms, w, n - 1);
      JoinBound(SymbolNumber(syms, w, n - 1), y, (n - 1) * w, w);
      OneMore(n - 1, w);
      hide Two;
    }
  }

  lemma PackedBeyond(syms: seq<Byte>, w: nat, n: nat, m: nat, p: nat)
    requires w > 0 && n <= |syms| && m == n * w && p >= m
    ensures !Packed(syms, w, n, p)
  {
    DivMod(p, w);
    if p / w < n { MulBound(p / w + 1, n, w); OneMore(p / w, w); }
    hide Bit;
  }

  lemma HoldsBit(buf: seq<Byte>, syms: seq<Byte>, w: nat, n: nat, off: nat, m: nat, e: nat, k: nat)
    requires w > 0 && n <= |syms| && m == n * w && off + m + e == 8 * |buf| && k < 8 * |buf| && Holds(buf, syms, w, n, off)
    ensures Bit(BufferNumber(buf), k) == Bit(SymbolNumber(syms, w, n) * Two(e), k)
  {
    hide *;
    var p := 8 * |buf| - 1 - k;
    BufferNumberBit(buf, k);
    HoldsFrom(buf, syms, w, n, off, p);
    BitShiftLeft(SymbolNumber(syms, w, n), e, k);
    if k >= e {
      SymbolNumberBit(syms, w, n, k - e);
    } else {
      PackedBeyond(syms, w, n, m, p - off);
    }
  }

  lemma HoldsFrom(buf: seq<Byte>, syms: seq<Byte>, w: nat, n: nat, off: nat, p: nat)
    requires w > 0 && n <= |syms| && Holds(buf, syms, w, n, off) && p < 8 * |buf|
    ensures BufferBit(buf, p) == (p >= off && Packed(syms, w, n, p - off))
  {
    hide BufferBit, Packed;
  }

  /** As a number, a packed buffer is the number whose digits are the symbols, moved up to the end of the offset. */
  lemma HoldsNumber(buf: seq<Byte>, syms: seq<Byte>, w: nat, n: nat, off: nat, e: nat)
    requires w > 0 && n <= |syms| && off + n * w + e == 8 * |buf| && Holds(buf, syms, w, n, off)
    ensures BufferNumber(buf) == SymbolNumber(syms, w, n) * Two(e)
  {
    hide *;
    var m := n * w;
    var x, y := BufferNumber(buf), SymbolNumber(syms, w, n) * Two(e);
    BufferNumberBound(buf);
    SymbolNumberBound(syms, w, n);
    ShiftedBound(SymbolNumber(syms, w, n), m, e);
    TwoMonotone(m + e, 8 * |buf|);
    forall k: nat | k < 8 * |buf| ensures Bit(x, k) == Bit(y, k) { HoldsBit(buf, syms, w, n, off, m, e, k); }
    SameBits(x, y, 8 * |buf|);
  }
}
