/** The Galois field GF(2^bits) behind the codec: symbols are numbers below 2^bits, addition is
    exclusive or, and multiplication adds exponents of the primitive element 2. */
module Galois {
  import opened Bits

  datatype GF = GF(bits: nat, poly: nat) {

    /** The number of symbols. */
    function Size(): (n: nat)
      ensures n > 0
    {
      Two(bits)
    }

    /** The number of nonzero symbols, which is also the largest symbol. */
    function Order(): nat { Size() - 1 }

    predicate InField(x: nat) { x < Size() }

    /** Multiplication by the primitive element: shift left, and reduce when the symbol overflows. */
    function Double(x: nat): nat {
      if 2 * x >= Size() then Xor(2 * x, poly) else 2 * x
    }

    function Doubled(n: nat, x: nat): nat {
      if n == 0 then x else Double(Doubled(n - 1, x))
    }

    /** The n-th power of the primitive element. */
    function Pow(n: nat): nat { Doubled(n, 1) }

    /** `poly` has degree `bits`, and doubling from 1 first returns to 1 after Order() steps. */
    ghost predicate Primitive() {
      && 1 <= bits
      && Size() <= poly < 2 * Size()
      && Pow(Order()) == 1
      && forall i :: 0 < i < Order() ==> Pow(i) != 1
    }

    lemma DoubleLinear(x: nat, y: nat)
      requires Primitive() && InField(x) && InField(y)
      ensures InField(Double(x)) && InField(Xor(x, y))
      ensures Double(Xor(x, y)) == Xor(Double(x), Double(y))
    {
      hide Xor, GF.Pow;
      assert Two(bits + 1) == 2 * Size();
      XorBelow(x, y, bits);
      XorDouble(x, y);
      XorTop(2 * x, 2 * y, bits);
      XorTop(2 * x, poly, bits);
      var a, b := 2 * x, 2 * y;
      if a >= Size() && b >= Size() {
        XorSwap(a, poly, b, poly);
        XorSelf(poly);
        XorZero(Xor(a, b));
      } else if a >= Size() {
        XorAssoc(a, poly, b);
        XorComm(poly, b);
        XorAssoc(a, b, poly);
      } else if b >= Size() {
        XorAssoc(a, b, poly);
      }
    }

    lemma {:induction false} DoubledLinear(n: nat, x: nat, y: nat)
      requires Primitive() && InField(x) && InField(y)
      ensures InField(Doubled(n, x)) && InField(Doubled(n, y)) && InField(Xor(x, y))
      ensures Doubled(n, Xor(x, y)) == Xor(Doubled(n, x), Doubled(n, y))
    {
      hide Xor, GF.Double, GF.Pow, GF.Size, Two;
      DoubleLinear(x, y);
      if n > 0 {
        DoubledLinear(n - 1, x, y);
        DoubleLinear(Doubled(n - 1, x), Doubled(n - 1, y));
        DoubleLinear(Doubled(n - 1, y), Doubled(n - 1, x));
      }
    }

    lemma DoubledZero(n: nat)
      requires Primitive()
      ensures Doubled(n, 0) == 0
    {
      hide GF.Double, GF.Pow, GF.Doubled, Xor;
      DoubledLinear(n, 0, 0);
      XorSelf(0);
      XorSelf(Doubled(n, 0));
    }

    lemma {:induction false} DoubledAdd(m: nat, n: nat, x: nat)
      ensures Doubled(m, Doubled(n, x)) == Doubled(m + n, x)
    {
      hide GF.Double;
      if m > 0 { DoubledAdd(m - 1, n, x); }
    }

    /** Powers repeat with period Order(). */
    lemma {:induction false} PowPeriod(i: nat, k: nat)
      requires Primitive()
      ensures Pow(i + k * Order()) == Pow(i)
      decreases k
    {
      hide GF.Double, GF.Order, GF.Doubled, Xor;
      if k > 0 {
        var j := i + (k - 1) * Order();
        assert j + Order() == i + k * Order();
        DoubledAdd(j, Order(), 1);
        PowPeriod(i, k - 1);
      }
    }

    lemma OrderPositive()
      requires Primitive()
      ensures Order() > 0 && InField(1)
    {
      assert Size() == 2 * Two(bits - 1);
    }

    lemma PowMod(i: nat)
      requires Primitive()
      ensures Order() > 0 && Pow(i % Order()) == Pow(i)
    {
      OrderPositive();
      hide GF.Pow, GF.Order;
      var n := Order();
      DivMod(i, n);
      PowPeriod(i % n, i / n);
    }

    lemma PowNonzero(i: nat)
      requires Primitive()
      ensures Pow(i) != 0 && InField(Pow(i))
    {
      OrderPositive();
      hide GF.Double, GF.Order, Xor, GF.Doubled;
      DoubledLinear(i, 1, 1);
      if Pow(i) == 0 {
        PowMod(i);
        var j := i % Order();
        DoubledAdd(Order() - j, j, 1);
        DoubledZero(Order() - j);
        assert false;
      }
    }

    lemma PowInjective(i: nat, j: nat)
      requires Primitive() && i < j < Order()
      ensures Pow(i) != Pow(j)
    {
      hide GF.Double, GF.Order, GF.Doubled, Xor;
      if Pow(i) == Pow(j) {
        DoubledAdd(Order() - i, i, 1);
        DoubledAdd(Order() - i, j, 1);
        PowPeriod(j - i, 1);
        assert false;
      }
    }

    /** Every nonzero symbol is a power of the primitive element. */
    lemma PowSurjective(x: nat)
      requires Primitive() && InField(x) && x != 0
      ensures exists i :: 0 <= i < Order() && Pow(i) == x
    {
      hide GF.Pow;
      forall i: nat ensures Pow(i) != 0 && InField(Pow(i)) { PowNonzero(i); }
      var s := seq(Order(), i requires 0 <= i < Order() => (Pow(i) - 1) as nat);
      forall i, j | 0 <= i < j < |s| ensures s[i] != s[j] { PowInjective(i, j); }
      Pigeonhole(s, x - 1);
      var i :| 0 <= i < |s| && s[i] == x - 1;
      assert Pow(i) == x;
    }

    /** The exponent of a nonzero symbol. */
    ghost function Log(x: nat): nat {
      if exists i :: 0 <= i < Order() && Pow(i) == x then
        var i :| 0 <= i < Order() && Pow(i) == x; i
      else 0
    }

    lemma LogPow(x: nat)
      requires Primitive() && InField(x) && x != 0
      ensures Pow(Log(x)) == x && Log(x) < Order()
    {
      hide GF.Pow, GF.Order;
      PowSurjective(x);
    }

    /** The product of two symbols. Bits beyond the symbol width are ignored, so that Mul is total. */
    ghost function Mul(x: nat, y: nat): nat {
      var a, b := x % Size(), y % Size();
      if a == 0 || b == 0 then 0 else Pow(Log(a) + Log(b))
    }

    lemma SizeMod(x: nat)
      ensures x % Size() < Size() && (InField(x) ==> x % Size() == x)
    {
      hide GF.Size;
    }

    lemma MulComm(x: nat, y: nat)
      ensures Mul(x, y) == Mul(y, x)
    {
      hide GF.Pow, GF.Log, GF.Size;
    }

    lemma MulZero(x: nat)
      ensures Mul(x, 0) == 0 && Mul(0, x) == 0
    {
      hide GF.Pow, GF.Log, GF.Size;
    }

    lemma MulMod(x: nat, y: nat)
      ensures Mul(x % Size(), y % Size()) == Mul(x, y)
    {
      SizeMod(x % Size());
      SizeMod(y % Size());
      hide GF.Pow, GF.Log, GF.Size;
    }

    lemma MulInField(x: nat, y: nat)
      requires Primitive()
      ensures InField(Mul(x, y))
    {
      hide GF.Pow, GF.Log, GF.Primitive;
      var a, b := x % Size(), y % Size();
      if a != 0 && b != 0 { PowNonzero(Log(a) + Log(b)); }
    }

    lemma MulPow(i: nat, j: nat)
      requires Primitive()
      ensures Mul(Pow(i), Pow(j)) == Pow(i + j)
    {
      hide GF.Pow, GF.Log, GF.Doubled;
      PowNonzero(i);
      PowNonzero(j);
      var a, b := Log(Pow(i)), Log(Pow(j));
      LogPow(Pow(i));
      LogPow(Pow(j));
      SizeMod(Pow(i));
      SizeMod(Pow(j));
      PowSum(a, i, b, j);
    }

    lemma PowSum(a: nat, i: nat, b: nat, j: nat)
      requires Primitive() && Pow(a) == Pow(i) && Pow(b) == Pow(j)
      ensures Pow(a + b) == Pow(i + j)
    {
      hide GF.Double;
      DoubledAdd(a, b, 1);
      DoubledAdd(a, j, 1);
      DoubledAdd(j, a, 1);
      DoubledAdd(j, i, 1);
    }

    /** Multiplying by the i-th power doubles i times. */
    lemma MulDoubled(i: nat, y: nat)
      requires Primitive() && InField(y)
      ensures Mul(Pow(i), y) == Doubled(i, y)
    {
      hide GF.Mul, GF.Double, GF.Log;
      if y == 0 {
        MulZero(Pow(i));
        DoubledZero(i);
      } else {
        LogPow(y);
        MulPow(i, Log(y));
        DoubledAdd(i, Log(y), 1);
      }
    }

    lemma MulXor(x: nat, y: nat, z: nat)
      requires Primitive()
      ensures Mul(x, Xor(y, z)) == Xor(Mul(x, y), Mul(x, z))
      ensures Mul(Xor(y, z), x) == Xor(Mul(y, x), Mul(z, x))
    {
      hide GF.Mul, GF.Pow, GF.Log, Xor, GF.Doubled;
      MulComm(x, Xor(y, z));
      MulComm(x, y);
      MulComm(x, z);
      var a, b, c := x % Size(), y % Size(), z % Size();
      XorMod(y, z, bits);
      MulMod(x, y);
      MulMod(x, z);
      MulMod(x, Xor(y, z));
      if a == 0 {
        MulZero(b);
        MulZero(c);
        MulZero(Xor(b, c));
        XorZero(0);
      } else {
        LogPow(a);
        DoubledLinear(Log(a), b, c);
        MulDoubled(Log(a), b);
        MulDoubled(Log(a), c);
        MulDoubled(Log(a), Xor(b, c));
      }
    }

    lemma MulAssoc(x: nat, y: nat, z: nat)
      requires Primitive()
      ensures Mul(Mul(x, y), z) == Mul(x, Mul(y, z))
    {
      hide GF.Mul, GF.Pow, GF.Log, GF.Size;
      var a, b, c := x % Size(), y % Size(), z % Size();
      MulMod(x, y);
      MulMod(y, z);
      MulInField(a, b);
      MulInField(b, c);
      MulMod(Mul(x, y), z);
      MulMod(x, Mul(y, z));
      SizeMod(Mul(x, y));
      SizeMod(Mul(y, z));
      if a == 0 || b == 0 || c == 0 {
        MulZero(a);
        MulZero(b);
        MulZero(c);
        MulZero(Mul(a, b));
        MulZero(Mul(b, c));
      } else {
        LogPow(a);
        LogPow(b);
        LogPow(c);
        MulPow(Log(a), Log(b));
        MulPow(Log(b), Log(c));
        MulPow(Log(a) + Log(b), Log(c));
        MulPow(Log(a), Log(b) + Log(c));
      }
    }

    lemma MulOne(x: nat)
      requires Primitive() && InField(x)
      ensures Mul(1, x) == x && Mul(x, 1) == x
    {
      hide GF.Mul, GF.Log, GF.Double;
      MulDoubled(0, x);
      MulComm(1, x);
    }

    lemma MulNonzero(x: nat, y: nat)
      requires Primitive() && InField(x) && InField(y) && x != 0 && y != 0
      ensures Mul(x, y) != 0
    {
      hide GF.Mul, GF.Log, GF.Pow;
      LogPow(x);
      LogPow(y);
      MulPow(Log(x), Log(y));
      PowNonzero(Log(x) + Log(y));
    }

    /** The inverse of a nonzero symbol. */
    ghost function Inv(x: nat): nat {
      if Log(x) <= Order() then Pow(Order() - Log(x)) else 0
    }

    lemma MulInv(x: nat)
      requires Primitive() && InField(x) && x != 0
      ensures Mul(x, Inv(x)) == 1 && InField(Inv(x)) && Inv(x) != 0
    {
      hide GF.Mul, GF.Log, GF.Pow, GF.Order;
      LogPow(x);
      MulPow(Log(x), Order() - Log(x));
      PowNonzero(Order() - Log(x));
    }

    /** Multiplication by shift and exclusive or, reducing at each shift. */
    ghost function ShiftXorProduct(x: nat, y: nat): nat {
      if x == 0 then 0 else Xor(if x % 2 == 1 then y else 0, ShiftXorProduct(x / 2, Double(y)))
    }

    /** Adding exponents is multiplication of polynomials modulo `poly`. */
    lemma {:induction false} MulIsShiftXor(x: nat, y: nat)
      requires Primitive() && InField(x) && InField(y)
      ensures Mul(x, y) == ShiftXorProduct(x, y)
      decreases x
    {
      hide GF.Mul, Xor;
      if x == 0 {
        MulZero(y);
      } else {
        var h := x / 2;
        DoubleLinear(y, y);
        MulIsShiftXor(h, Double(y));
        MulDouble(h, y);
        XorLow(x);
        MulXor(y, x % 2, 2 * h);
        if x % 2 == 1 { MulOne(y); } else { MulZero(y); }
      }
    }

    lemma XorLow(x: nat)
      ensures Xor(x % 2, 2 * (x / 2)) == x
    {
      XorHalf(x % 2, 2 * (x / 2));
      XorZero(x / 2);
    }

    lemma MulDouble(h: nat, y: nat)
      requires Primitive() && 2 * h < Size() && InField(y)
      ensures Mul(2 * h, y) == Mul(h, Double(y))
    {
      hide GF.Mul, GF.Log, Xor;
      OrderPositive();
      DoubleLinear(y, y);
      MulDoubled(1, h);
      MulDoubled(1, y);
      assert Doubled(0, h) == h && Doubled(0, y) == y;
      assert Doubled(1, h) == 2 * h;
      MulComm(Pow(1), h);
      MulAssoc(h, Pow(1), y);
    }
  }
}
