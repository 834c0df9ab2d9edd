/** Conversion of bytes between the conventional and the dual (Berlekamp) representation. */
module DualBasis {
  import opened Bits

  /** The constants of the conversion, as the codec lists them: bit k of a byte selects Tal(7 - k). */
  function Tal(i: nat): bv8
    requires i < 8
  {
    if i == 0 then 0x8d else if i == 1 then 0xef else if i == 2 then 0xec else if i == 3 then 0x86
    else if i == 4 then 0xfa else if i == 5 then 0x99 else if i == 6 then 0xaf else 0x7b
  }

  /** The byte with only bit k set. */
  function Bit(k: nat): bv8
    requires k < 8
  {
    if k == 0 then 0x01 else if k == 1 then 0x02 else if k == 2 then 0x04 else if k == 3 then 0x08
    else if k == 4 then 0x10 else if k == 5 then 0x20 else if k == 6 then 0x40 else 0x80
  }

  function Select(x: bv8, m: bv8, c: bv8): bv8 { if x & m == 0 then 0 else c }

  /** The sum of the constants chosen by the low m bits of x. */
  function Chosen(x: bv8, m: nat): bv8
    requires m <= 8
  {
    if m == 0 then 0 else Chosen(x, m - 1) ^ Select(x, Bit(m - 1), Tal(8 - m))
  }

  function Shl(y: bv8): bv8 { y << 1 }

  function Shr(x: bv8): bv8 { x >> 1 }

  function Odd(x: bv8): bool { x & 1 != 0 }

  function WithLow(y: bv8, odd: bool): bv8 { if odd then Shl(y) | 1 else Shl(y) }

  /** The byte with the value n, from its k low bits. */
  function ByteOf(n: nat, k: nat): bv8 {
    if k == 0 then 0 else WithLow(ByteOf(n / 2, k - 1), n % 2 == 1)
  }

  /** The value of the k low bits of a byte. */
  function ValueOf(x: bv8, k: nat): (n: nat)
    ensures n < Two(k)
    decreases k
  {
    if k == 0 then 0 else 2 * ValueOf(Shr(x), k - 1) + if Odd(x) then 1 else 0
  }

  function Byte(n: nat): bv8 { ByteOf(n, 8) }

  function Value(x: bv8): (n: nat)
    ensures n < 256
  {
    assert Two(8) == 256;
    ValueOf(x, 8)
  }

  function ToDual(n: nat): (d: nat)
    requires n < 256
    ensures d < 256
  {
    Value(Chosen(Byte(n), 8))
  }

  /** Chosen written out. */
  function Forward(x: bv8): bv8 {
    0 ^ Select(x, 0x01, 0x7b) ^ Select(x, 0x02, 0xaf) ^ Select(x, 0x04, 0x99) ^ Select(x, 0x08, 0xfa)
    ^ Select(x, 0x10, 0x86) ^ Select(x, 0x20, 0xec) ^ Select(x, 0x40, 0xef) ^ Select(x, 0x80, 0x8d)
  }

  function Backward(x: bv8): bv8 {
    Select(x, 0x01, 0xcc) ^ Select(x, 0x02, 0xac) ^ Select(x, 0x04, 0x79) ^ Select(x, 0x08, 0xf0)
    ^ Select(x, 0x10, 0xfd) ^ Select(x, 0x20, 0x2e) ^ Select(x, 0x40, 0x42) ^ Select(x, 0x80, 0xc5)
  }

  lemma ForwardBackward(x: bv8)
    ensures Backward(Forward(x)) == x
  {
  }

  lemma BackwardForward(x: bv8)
    ensures Forward(Backward(x)) == x
  {
  }

  /** The last term of Chosen(x, m). */
  lemma ChosenStep(x: bv8, m: nat, bit: bv8, tal: bv8)
    requires 1 <= m <= 8 && bit == Bit(m - 1) && tal == Tal(8 - m)
    ensures Chosen(x, m) == Chosen(x, m - 1) ^ Select(x, bit, tal)
  {
    hide Select, Bit, Tal;
  }

  lemma ChosenSum(x: bv8, p0: bv8, p1: bv8, p2: bv8, p3: bv8, p4: bv8, p5: bv8, p6: bv8, p7: bv8)
    requires p0 == Select(x, 0x01, 0x7b)
    requires p1 == Select(x, 0x02, 0xaf)
    requires p2 == Select(x, 0x04, 0x99)
    requires p3 == Select(x, 0x08, 0xfa)
    requires p4 == Select(x, 0x10, 0x86)
    requires p5 == Select(x, 0x20, 0xec)
    requires p6 == Select(x, 0x40, 0xef)
    requires p7 == Select(x, 0x80, 0x8d)
    ensures Chosen(x, 8) == 0 ^ p0 ^ p1 ^ p2 ^ p3 ^ p4 ^ p5 ^ p6 ^ p7
  {
    assert Chosen(x, 0) == 0;
    hide Select, Chosen;
    ChosenStep(x, 1, 0x01, 0x7b);
    ChosenStep(x, 2, 0x02, 0xaf);
    ChosenStep(x, 3, 0x04, 0x99);
    ChosenStep(x, 4, 0x08, 0xfa);
    ChosenStep(x, 5, 0x10, 0x86);
    ChosenStep(x, 6, 0x20, 0xec);
    ChosenStep(x, 7, 0x40, 0xef);
    ChosenStep(x, 8, 0x80, 0x8d);
  }

  lemma ChosenForward(x: bv8)
    ensures Chosen(x, 8) == Forward(x)
  {
    hide Select, Chosen;
    ChosenSum(x, Select(x, 0x01, 0x7b), Select(x, 0x02, 0xaf), Select(x, 0x04, 0x99), Select(x, 0x08, 0xfa),
      Select(x, 0x10, 0x86), Select(x, 0x20, 0xec), Select(x, 0x40, 0xef), Select(x, 0x80, 0x8d));
  }

  function FromDual(d: nat): (n: nat)
    requires d < 256
    ensures n < 256
  {
    Value(Backward(Byte(d)))
  }

  /** The bits from bit k on are clear. */
  predicate Narrow(x: bv8, k: nat)
    requires k <= 8
  {
    x & Low(k) == x
  }

  lemma NarrowShl(y: bv8, odd: bool, k: nat)
    requires k < 8 && Narrow(y, k)
    ensures Narrow(WithLow(y, odd), k + 1)
  {
  }

  lemma NarrowShr(x: bv8, k: nat)
    requires k < 8 && Narrow(x, k + 1)
    ensures Narrow(Shr(x), k)
  {
  }

  lemma LowShl(y: bv8, odd: bool, k: nat)
    requires k < 8 && Narrow(y, k)
    ensures Shr(WithLow(y, odd)) == y
  {
  }

  lemma OddShl(y: bv8, odd: bool)
    ensures Odd(WithLow(y, odd)) == odd
  {
  }

  lemma LowShr(x: bv8)
    ensures WithLow(Shr(x), Odd(x)) == x
  {
  }

  lemma {:induction false} ByteNarrow(n: nat, k: nat)
    requires k <= 8
    ensures Narrow(ByteOf(n, k), k)
  {
    hide WithLow, Narrow;
    if k == 0 {
      NarrowZero();
    } else {
      ByteNarrow(n / 2, k - 1);
      NarrowShl(ByteOf(n / 2, k - 1), n % 2 == 1, k - 1);
    }
  }

  lemma NarrowZero()
    ensures Narrow(0, 0)
  {
  }

  lemma {:induction false} ValueOfByteOf(n: nat, k: nat)
    requires k <= 8 && n < Two(k)
    ensures ValueOf(ByteOf(n, k), k) == n
    decreases k
  {
    hide WithLow, Narrow, Shr, Odd;
    if k > 0 {
      var y := ByteOf(n / 2, k - 1);
      ByteNarrow(n / 2, k - 1);
      ValueOfByteOf(n / 2, k - 1);
      LowShl(y, n % 2 == 1, k - 1);
      OddShl(y, n % 2 == 1);
    }
  }

  lemma {:induction false} ByteOfValueOf(x: bv8, k: nat)
    requires k <= 8 && Narrow(x, k)
    ensures ByteOf(ValueOf(x, k), k) == x
    decreases k
  {
    if k == 0 {
      NarrowNone(x);
    } else {
      hide *;
      NarrowShr(x, k - 1);
      ByteOfValueOf(Shr(x), k - 1);
      LowShr(x);
      ValueStep(x, k);
      ByteStep(ValueOf(x, k), k);
      Halves(ValueOf(Shr(x), k - 1), Odd(x));
    }
  }

  lemma ByteStep(n: nat, k: nat)
    requires k > 0
    ensures ByteOf(n, k) == WithLow(ByteOf(n / 2, k - 1), n % 2 == 1)
  {
    hide WithLow;
  }

  lemma ValueStep(x: bv8, k: nat)
    requires k > 0
    ensures ValueOf(x, k) == 2 * ValueOf(Shr(x), k - 1) + if Odd(x) then 1 else 0
  {
    hide Shr, Odd;
  }

  lemma NarrowNone(x: bv8)
    requires Narrow(x, 0)
    ensures x == 0
  {
  }

  lemma Halves(h: nat, odd: bool)
    ensures var n := 2 * h + if odd then 1 else 0; n / 2 == h && (n % 2 == 1) == odd
  {
  }

  lemma ValueOfByte(n: nat)
    requires n < 256
    ensures Value(Byte(n)) == n
  {
    assert Two(8) == 256;
    hide ValueOf, ByteOf;
    ValueOfByteOf(n, 8);
  }

  lemma ByteOfValue(x: bv8)
    ensures Byte(Value(x)) == x
  {
    assert Narrow(x, 8);
    hide ValueOf, ByteOf, Narrow;
    ByteOfValueOf(x, 8);
  }

  /** The two conversions are inverses of each other on all bytes. */
  lemma Inverse(n: nat)
    requires n < 256
    ensures FromDual(ToDual(n)) == n && ToDual(FromDual(n)) == n
  {
    hide Chosen, Forward, Backward, Byte, Value;
    var x := Byte(n);
    ValueOfByte(n);
    ChosenForward(x);
    ByteOfValue(Forward(x));
    ForwardBackward(x);
    ByteOfValue(Backward(x));
    ChosenForward(Backward(x));
    BackwardForward(x);
  }

  /** The low j bits. */
  function Low(j: nat): bv8
    requires j <= 8
  {
    if j == 0 then 0x00 else if j == 1 then 0x01 else if j == 2 then 0x03 else if j == 3 then 0x07
    else if j == 4 then 0x0f else if j == 5 then 0x1f else if j == 6 then 0x3f else if j == 7 then 0x7f else 0xff
  }

  lemma TermValues(t: bv8, base: bv8, c: bv8, next: bv8, s: bv8, tal: bv8, on: bool, bit: bv8)
    requires t == base ^ (c & bit) && next == c ^ s && s == if on then tal else 0
    ensures (if on then t ^ (tal & bit) else t) == base ^ (next & bit)
  {
    var a, b := c & bit, tal & bit;
    if on {
      AndXor(c, tal, bit);
      AddTerm(base, a, b);
    } else {
      XorNothing(c);
    }
  }

  lemma AndXor(c: bv8, tal: bv8, bit: bv8)
    ensures (c ^ tal) & bit == (c & bit) ^ (tal & bit)
  {
  }

  lemma AddTerm(base: bv8, a: bv8, b: bv8)
    ensures (base ^ a) ^ b == base ^ (a ^ b)
  {
  }

  lemma XorNothing(c: bv8)
    ensures c ^ 0 == c
  {
  }

  /** One inner step of the table loop. */
  lemma TermStep(x: bv8, k: nat, tal: bv8, c: bv8, next: bv8)
    requires k < 8 && c == Chosen(x, k) && next == Chosen(x, k + 1) && tal == Tal(7 - k)
    ensures next == c ^ (if x & Bit(k) != 0 then tal else 0)
  {
    hide Bit, Tal;
  }

  lemma AddColumn(c: bv8, j: nat)
    requires j < 8
    ensures (c & Low(j)) ^ (c & Bit(j)) == c & Low(j + 1)
  {
  }

  /** Add the bits of one column of the chosen constants. */
  method AddBits(x: bv8, t: bv8, bit: bv8, ghost all: bv8) returns (r: bv8)
    requires all == Chosen(x, 8)
    ensures r == t ^ (all & bit)
  {
    r := t;
    ghost var c: bv8 := 0;
    assert c == Chosen(x, 0);
    NoTerms(t, bit);
    hide Chosen, Bit, Tal;
    var k := 0;
    while k < 8
      invariant 0 <= k <= 8
      invariant c == Chosen(x, k)
      invariant r == t ^ (c & bit)
    {
      ghost var next := Chosen(x, k + 1);
      var tal, on := Tal(7 - k), x & Bit(k) != 0;
      TermStep(x, k, tal, c, next);
      TermValues(r, t, c, next, if on then tal else 0, tal, on, bit);
      if on { r := r ^ (tal & bit); }
      c, k := next, k + 1;
    }
  }

  /** The table entry for n, bit column by bit column. */
  method DualEntry(n: nat) returns (d: nat)
    requires n < 256
    ensures d == ToDual(n)
  {
    var x, t: bv8, j := Byte(n), 0, 0;
    ZeroColumns(x);
    hide Chosen, Bit, Low, Byte, Value;
    while j < 8
      invariant 0 <= j <= 8
      invariant t == Chosen(x, 8) & Low(j)
    {
      AddColumn(Chosen(x, 8), j);
      t := AddBits(x, t, Bit(j), Chosen(x, 8));
      j := j + 1;
    }
    AllColumns(x);
    d := Value(t);
  }

  lemma ZeroColumns(x: bv8)
    ensures 0 == Chosen(x, 8) & Low(0)
  {
    hide Chosen;
  }

  lemma AllColumns(x: bv8)
    ensures Chosen(x, 8) & Low(8) == Chosen(x, 8)
  {
    hide Chosen;
  }

  lemma NoTerms(t: bv8, bit: bv8)
    ensures t == t ^ (0 & bit)
  {
  }
}
