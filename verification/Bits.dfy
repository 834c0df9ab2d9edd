/** Exclusive or on natural numbers, bit by bit, and the laws the rest of the project uses. */
module Bits {

  /** The k-th power of two. */
  function Two(k: nat): (p: nat)
    ensures p > 0
  {
    if k == 0 then 1 else 2 * Two(k - 1)
  }

  /** The product as a natural number. */
  function NatProduct(a: nat, b: nat): nat { a * b }

  lemma {:induction false} TwoMonotone(a: nat, b: nat)
    requires a <= b
    ensures Two(a) <= Two(b)
  {
    if a < b { TwoMonotone(a, b - 1); }
  }

  function Xor(a: nat, b: nat): nat
    decreases a + b
  {
    if a == 0 && b == 0 then 0 else 2 * Xor(a / 2, b / 2) + if a % 2 == b % 2 then 0 else 1
  }

  lemma {:induction false} XorComm(a: nat, b: nat)
    ensures Xor(a, b) == Xor(b, a)
    decreases a + b
  {
    if a != 0 || b != 0 { XorComm(a / 2, b / 2); }
  }

  lemma {:induction false} XorZero(a: nat)
    ensures Xor(a, 0) == a && Xor(0, a) == a
  {
    if a != 0 { XorZero(a / 2); }
  }

  lemma {:induction false} XorSelf(a: nat)
    ensures Xor(a, a) == 0
  {
    if a != 0 { XorSelf(a / 2); }
  }

  lemma XorHalf(a: nat, b: nat)
    ensures Xor(a, b) / 2 == Xor(a / 2, b / 2) && Xor(a, b) % 2 == if a % 2 == b % 2 then 0 else 1
  {
  }

  lemma {:induction false} XorAssoc(a: nat, b: nat, c: nat)
    ensures Xor(Xor(a, b), c) == Xor(a, Xor(b, c))
    decreases a + b + c
  {
    hide Xor;
    if a == 0 && b == 0 && c == 0 {
      XorZero(0);
    } else {
      var l, r := Xor(Xor(a, b), c), Xor(a, Xor(b, c));
      XorHalf(a, b);
      XorHalf(b, c);
      XorHalf(Xor(a, b), c);
      XorHalf(a, Xor(b, c));
      XorAssoc(a / 2, b / 2, c / 2);
      HalvesEqual(l, r);
    }
  }

  lemma HalvesEqual(l: nat, r: nat)
    ensures l / 2 == r / 2 && l % 2 == r % 2 ==> l == r
  {
  }

  lemma XorSwap(a: nat, b: nat, c: nat, d: nat)
    ensures Xor(Xor(a, b), Xor(c, d)) == Xor(Xor(a, c), Xor(b, d))
  {
    hide Xor;
    XorAssoc(a, b, Xor(c, d));
    XorAssoc(b, c, d);
    XorComm(b, c);
    XorAssoc(c, b, d);
    XorAssoc(a, c, Xor(b, d));
  }

  lemma XorCancel(a: nat, b: nat)
    ensures Xor(a, Xor(a, b)) == b && Xor(Xor(b, a), a) == b
  {
    hide Xor;
    XorAssoc(a, a, b);
    XorAssoc(b, a, a);
    XorSelf(a);
    XorZero(b);
  }

  lemma XorIsZero(a: nat, b: nat)
    ensures Xor(a, b) == 0 <==> a == b
  {
    hide Xor;
    XorCancel(a, b);
    XorSelf(a);
    XorZero(a);
  }

  lemma XorDouble(a: nat, b: nat)
    ensures Xor(2 * a, 2 * b) == 2 * Xor(a, b)
  {
    XorHalf(2 * a, 2 * b);
  }

  /** Below Two(k + 1), the top bit of the exclusive or says whether the operands differ in theirs. */
  lemma {:induction false} XorTop(a: nat, b: nat, k: nat)
    requires a < Two(k + 1) && b < Two(k + 1)
    ensures Xor(a, b) < Two(k + 1)
    ensures Xor(a, b) >= Two(k) <==> (a >= Two(k)) != (b >= Two(k))
  {
    if k > 0 { XorTop(a / 2, b / 2, k - 1); }
    XorHalf(a, b);
  }

  lemma XorBelow(a: nat, b: nat, k: nat)
    requires a < Two(k) && b < Two(k)
    ensures Xor(a, b) < Two(k)
  {
    if k > 0 { XorTop(a, b, k - 1); }
  }

  lemma {:induction false} XorMod(a: nat, b: nat, k: nat)
    ensures Xor(a, b) % Two(k) == Xor(a % Two(k), b % Two(k))
  {
    if k > 0 {
      var h := Two(k - 1);
      ModTwice(a, h);
      ModTwice(b, h);
      ModTwice(Xor(a, b), h);
      XorHalf(a, b);
      XorMod(a / 2, b / 2, k - 1);
      XorHalf(a % Two(k), b % Two(k));
    }
  }

  lemma ModTwice(a: nat, h: nat)
    requires h > 0
    ensures a % (2 * h) == 2 * ((a / 2) % h) + a % 2
    ensures a % (2 * h) / 2 == (a / 2) % h && a % (2 * h) % 2 == a % 2
  {
    var q := a / 2 / h;
    assert a == 2 * (h * q + (a / 2) % h) + a % 2;
    assert a == (2 * h) * q + (2 * ((a / 2) % h) + a % 2);
    ModUnique(a, 2 * h, q, 2 * ((a / 2) % h) + a % 2);
  }

  /** Bitwise or. */
  function Or(a: nat, b: nat): nat
    decreases a + b
  {
    if a == 0 && b == 0 then 0 else 2 * Or(a / 2, b / 2) + if a % 2 == 1 || b % 2 == 1 then 1 else 0
  }

  lemma {:induction false} OrDisjoint(a: nat, b: nat, k: nat)
    requires b < Two(k)
    ensures Or(a * Two(k), b) == a * Two(k) + b
    decreases k, a
  {
    if k == 0 {
      OrZero(a);
    } else {
      assert a * Two(k) == 2 * (a * Two(k - 1));
      OrDisjoint(a, b / 2, k - 1);
    }
  }

  lemma {:induction false} OrZero(a: nat)
    ensures Or(a, 0) == a
  {
    if a != 0 { OrZero(a / 2); }
  }

  lemma {:induction false} OrBelow(a: nat, b: nat, k: nat)
    requires a < Two(k) && b < Two(k)
    ensures Or(a, b) < Two(k)
  {
    if k > 0 { OrBelow(a / 2, b / 2, k - 1); }
  }

  lemma ModUnique(a: nat, m: nat, q: int, r: nat)
    requires r < m && a == m * q + r
    ensures a % m == r && a / m == q
  {
    var q', r' := a / m, a % m;
    assert a == m * q' + r';
    if q > q' {
      MulAtLeast(m, q - q');
    } else if q < q' {
      MulAtLeast(m, q' - q);
    }
  }

  lemma MulAtLeast(m: nat, d: nat)
    requires d >= 1
    ensures m * d >= m
  {
  }

  lemma DivMod(i: nat, n: nat)
    requires n > 0
    ensures i % n + (i / n) * n == i && 0 <= i % n < n && 0 <= i / n
  {
  }

  function Below(n: nat): set<nat> {
    if n == 0 then {} else Below(n - 1) + {n - 1}
  }

  lemma {:induction false} BelowCount(n: nat)
    ensures |Below(n)| == n
    ensures forall x: int :: x in Below(n) <==> 0 <= x < n
  {
    if n > 0 { BelowCount(n - 1); }
  }

  predicate Distinct(s: seq<nat>) {
    forall i, j :: 0 <= i < j < |s| ==> s[i] != s[j]
  }

  function Elements(s: seq<nat>): set<nat> {
    if s == [] then {} else Elements(s[1..]) + {s[0]}
  }

  lemma {:induction false} ElementsIn(s: seq<nat>, x: nat)
    ensures x in Elements(s) <==> x in s
  {
    if s != [] {
      ElementsIn(s[1..], x);
      assert s == [s[0]] + s[1..];
    }
  }

  lemma {:induction false} DistinctCount(s: seq<nat>)
    requires Distinct(s)
    ensures |Elements(s)| == |s|
  {
    if s != [] {
      DistinctCount(s[1..]);
      ElementsIn(s[1..], s[0]);
    }
  }

  /** n distinct numbers below n are all the numbers below n. */
  lemma Pigeonhole(s: seq<nat>, x: nat)
    requires Distinct(s)
    requires forall i :: 0 <= i < |s| ==> s[i] < |s|
    requires x < |s|
    ensures x in s
  {
    DistinctCount(s);
    BelowCount(|s|);
    ElementsIn(s, x);
    if x !in s {
      forall y | y in Elements(s) ensures y in Below(|s|) - {x} { ElementsIn(s, y); }
      SubsetCount(Elements(s), Below(|s|) - {x});
      assert false;
    }
  }

  lemma {:induction false} SubsetCount<T>(a: set<T>, b: set<T>)
    requires a <= b
    ensures |a| <= |b|
  {
    assert b == a + (b - a);
  }
}
