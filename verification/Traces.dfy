/** The dual basis: bit 7 - i of a converted byte is the trace of the byte times the power 117 i of the primitive
    element, in the field of the CCSDS codes. */
module Traces {
  import opened Bits
  import opened Galois
  import opened Code
  import opened Codes
  import opened Packing
  import DualBasis

  /** z squared j times. */
  ghost function Conjugate(z: nat, j: nat): nat {
    if j == 0 then z
    else
      var y := Conjugate(z, j - 1);
      CCSDS_FIELD.Mul(y, y)
  }

  /** The sum of the first m conjugates. */
  ghost function TraceOf(z: nat, m: nat): nat {
    if m == 0 then 0 else Xor(TraceOf(z, m - 1), Conjugate(z, m - 1))
  }

  /** z + z^2 + z^4 + ... + z^128. */
  ghost function Trace(z: nat): nat { TraceOf(z, 8) }

  /** The trace of the e-th power. */
  ghost function T(e: nat): nat { Trace(CCSDS_FIELD.Pow(e)) }

  // ---------------------------------------------------------------- the trace is linear

  lemma SquareXor(x: nat, y: nat)
    ensures CCSDS_FIELD.Mul(Xor(x, y), Xor(x, y)) == Xor(CCSDS_FIELD.Mul(x, x), CCSDS_FIELD.Mul(y, y))
  {
    hide *;
    CcsdsPrimitive();
    var F := CCSDS_FIELD;
    F.MulXor(Xor(x, y), x, y);
    F.MulXor(x, x, y);
    F.MulXor(y, x, y);
    F.MulComm(x, y);
    var a, b, d := F.Mul(x, x), F.Mul(x, y), F.Mul(y, y);
    XorAssoc(a, b, Xor(b, d));
    XorCancel(b, d);
  }

  lemma {:induction false} ConjugateXor(x: nat, y: nat, j: nat)
    ensures Conjugate(Xor(x, y), j) == Xor(Conjugate(x, j), Conjugate(y, j))
  {
    hide Xor, GF.Mul;
    if j > 0 {
      ConjugateXor(x, y, j - 1);
      SquareXor(Conjugate(x, j - 1), Conjugate(y, j - 1));
    }
  }

  lemma {:induction false} TraceOfXor(x: nat, y: nat, m: nat)
    ensures TraceOf(Xor(x, y), m) == Xor(TraceOf(x, m), TraceOf(y, m))
  {
    hide Xor, Conjugate;
    if m == 0 {
      XorZero(0);
    } else {
      TraceOfXor(x, y, m - 1);
      ConjugateXor(x, y, m - 1);
      XorSwap(TraceOf(x, m - 1), TraceOf(y, m - 1), Conjugate(x, m - 1), Conjugate(y, m - 1));
    }
  }

  lemma TraceXor(x: nat, y: nat)
    ensures Trace(Xor(x, y)) == Xor(Trace(x), Trace(y))
  {
    hide Xor, TraceOf;
    TraceOfXor(x, y, 8);
  }

  // ---------------------------------------------------------------- traces of powers

  lemma {:induction false} ConjugatePow(e: nat, j: nat)
    ensures Conjugate(CCSDS_FIELD.Pow(e), j) == CCSDS_FIELD.Pow(NatProduct(e, Two(j)))
  {
    hide Xor, GF.Mul, GF.Pow, GF.Primitive;
    CcsdsPrimitive();
    if j > 0 {
      ConjugatePow(e, j - 1);
      CCSDS_FIELD.MulPow(NatProduct(e, Two(j - 1)), NatProduct(e, Two(j - 1)));
      Twofold(e, Two(j - 1));
    }
  }

  lemma Twofold(e: nat, k: nat)
    ensures NatProduct(e, 2 * k) == NatProduct(e, k) + NatProduct(e, k) == NatProduct(2 * e, k)
  {
  }

  lemma {:induction false} TraceShift(e: nat, m: nat)
    ensures Xor(CCSDS_FIELD.Pow(e), TraceOf(CCSDS_FIELD.Pow(2 * e), m)) == TraceOf(CCSDS_FIELD.Pow(e), m + 1)
  {
    hide Xor, GF.Pow, Conjugate, NatProduct;
    var x, y := CCSDS_FIELD.Pow(e), CCSDS_FIELD.Pow(2 * e);
    if m == 0 {
      XorZero(x);
      ConjugateFirst(x);
    } else {
      TraceShift(e, m - 1);
      ConjugatePow(2 * e, m - 1);
      ConjugatePow(e, m);
      Twofold(e, Two(m - 1));
      XorAssoc(x, TraceOf(y, m - 1), Conjugate(y, m - 1));
    }
  }

  lemma ConjugateFirst(z: nat)
    ensures Conjugate(z, 0) == z
  {
  }

  lemma LastConjugate(e: nat)
    ensures Conjugate(CCSDS_FIELD.Pow(e), 8) == CCSDS_FIELD.Pow(e)
  {
    hide *;
    ConjugatePow(e, 8);
    CcsdsPrimitive();
    CCSDS_FIELD.PowPeriod(e, e);
    Period(e);
  }

  lemma Period(e: nat)
    ensures NatProduct(e, Two(8)) == e + e * 255
  {
    EightBits();
  }

  /** Squares have the trace of their root. */
  lemma Frobenius(e: nat)
    ensures T(2 * e) == T(e)
  {
    hide Xor, GF.Pow, Conjugate;
    TraceShift(e, 8);
    LastConjugate(e);
    var x, y, t := CCSDS_FIELD.Pow(e), Trace(CCSDS_FIELD.Pow(2 * e)), Trace(CCSDS_FIELD.Pow(e));
    XorComm(t, x);
    XorCancel(x, y);
    XorCancel(x, t);
  }

  lemma EighthPower()
    ensures var F := CCSDS_FIELD; F.Pow(8) == Xor(Xor(F.Pow(7), F.Pow(2)), Xor(F.Pow(1), F.Pow(0)))
  {
    FirstPowers();
    hide GF.Pow;
    assert Xor(128, 4) == 132;
    assert Xor(2, 1) == 3;
    assert Xor(132, 3) == 135;
  }

  lemma FirstPowers()
    ensures var F := CCSDS_FIELD;
      && F.Pow(0) == 1 && F.Pow(1) == 2 && F.Pow(2) == 4 && F.Pow(3) == 8 && F.Pow(4) == 16
      && F.Pow(5) == 32 && F.Pow(6) == 64 && F.Pow(7) == 128 && F.Pow(8) == 135
  {
    PowZero(CCSDS_FIELD);
    hide GF.Pow, GF.Double;
    Doubles(0, 1, 2); Doubles(1, 2, 4); Doubles(2, 4, 8); Doubles(3, 8, 16);
    Doubles(4, 16, 32); Doubles(5, 32, 64); Doubles(6, 64, 128); Doubles(7, 128, 135);
  }

  lemma Doubles(n: nat, x: nat, y: nat)
    requires CCSDS_FIELD.Pow(n) == x < 256 && y == Twice(x)
    ensures CCSDS_FIELD.Pow(n + 1) == y
  {
    PowNext(n);
    DoubleIs(x);
    hide GF.Pow, GF.Double;
  }

  /** The recurrence of the primitive polynomial. */
  lemma Recurrence(e: nat)
    ensures T(e + 8) == Xor(Xor(T(e + 7), T(e + 2)), Xor(T(e + 1), T(e)))
  {
    hide Xor, GF.Pow, GF.Mul, GF.Primitive, Trace;
    CcsdsPrimitive();
    EighthPower();
    var F := CCSDS_FIELD;
    var x := F.Pow(e);
    F.MulPow(e, 8); F.MulPow(e, 7); F.MulPow(e, 2); F.MulPow(e, 1); F.MulPow(e, 0);
    var a, b, c, d := F.Pow(7), F.Pow(2), F.Pow(1), F.Pow(0);
    F.MulXor(x, Xor(a, b), Xor(c, d));
    F.MulXor(x, a, b);
    F.MulXor(x, c, d);
    TraceXor(Xor(F.Mul(x, a), F.Mul(x, b)), Xor(F.Mul(x, c), F.Mul(x, d)));
    TraceXor(F.Mul(x, a), F.Mul(x, b));
    TraceXor(F.Mul(x, c), F.Mul(x, d));
  }

  lemma Squares()
    ensures var F := CCSDS_FIELD;
      F.Pow(16) == 111 && F.Pow(32) == 29 && F.Pow(64) == 214 && F.Pow(128) == 52
  {
    hide GF.Pow, GF.Double, Passed;
    AllRows();
    Doubles(15, 244, 111);
    Doubles(30, 165, 205); Doubles(31, 205, 29);
    Doubles(60, 254, 123); Doubles(61, 123, 246); Doubles(62, 246, 107); Doubles(63, 107, 214);
    Doubles(120, 225, 69); Doubles(121, 69, 138); Doubles(122, 138, 147); Doubles(123, 147, 161);
    Doubles(124, 161, 197); Doubles(125, 197, 13); Doubles(126, 13, 26); Doubles(127, 26, 52);
  }

  /** The conjugates of one are one, and there are eight. */
  lemma TraceOfOne()
    ensures T(0) == 0
  {
    hide Conjugate, GF.Pow, Xor;
    FirstPowers();
    forall j: nat ensures Conjugate(1, j) == 1 { ConjugatePow(0, j); NoProduct(Two(j)); }
    XorZero(1);
    XorSelf(1);
  }

  lemma NoProduct(k: nat)
    ensures NatProduct(0, k) == 0
  {
  }

  lemma ConjugatesOfTwo()
    ensures Conjugate(2, 0) == 2 && Conjugate(2, 1) == 4 && Conjugate(2, 2) == 16 && Conjugate(2, 3) == 135
    ensures Conjugate(2, 4) == 111 && Conjugate(2, 5) == 29 && Conjugate(2, 6) == 214 && Conjugate(2, 7) == 52
  {
    FirstPowers();
    Squares();
    hide GF.Pow, Conjugate;
    ConjugateFirst(2);
    ConjugatePow(1, 1); ConjugatePow(1, 2); ConjugatePow(1, 3); ConjugatePow(1, 4);
    ConjugatePow(1, 5); ConjugatePow(1, 6); ConjugatePow(1, 7);
  }

  lemma TraceOfTwo()
    ensures T(1) == 1
  {
    FirstPowers();
    ConjugatesOfTwo();
    Sum0(); Sum1(); Sum2(); Sum3(); Sum4(); Sum5(); Sum6();
    hide GF.Pow, Conjugate, Xor;
    XorZero(2);
  }

  /** One more digit at the end of a sum. */
  lemma Digit(a: nat, b: nat, c: nat)
    requires Xor(a / 2, b / 2) == c / 2 && c % 2 == if a % 2 == b % 2 then 0 else 1
    ensures Xor(a, b) == c
  {
    hide Xor;
    XorHalf(a, b);
  }

  lemma Sum0()
    ensures Xor(2, 4) == 6
  {
    hide Xor;
    XorZero(0);
    Digit(0, 1, 1); Digit(1, 2, 3); Digit(2, 4, 6);
  }

  lemma Sum1()
    ensures Xor(6, 16) == 22
  {
    hide Xor;
    XorZero(0);
    Digit(0, 1, 1); Digit(0, 2, 2); Digit(1, 4, 5); Digit(3, 8, 11);
    Digit(6, 16, 22);
  }

  lemma Sum2()
    ensures Xor(22, 135) == 145
  {
    hide Xor;
    XorZero(0);
    Digit(0, 1, 1); Digit(0, 2, 2); Digit(0, 4, 4); Digit(1, 8, 9);
    Digit(2, 16, 18); Digit(5, 33, 36); Digit(11, 67, 72); Digit(22, 135, 145);
  }

  lemma Sum3()
    ensures Xor(145, 111) == 254
  {
    hide Xor;
    XorZero(0);
    Digit(1, 0, 1); Digit(2, 1, 3); Digit(4, 3, 7); Digit(9, 6, 15);
    Digit(18, 13, 31); Digit(36, 27, 63); Digit(72, 55, 127); Digit(145, 111, 254);
  }

  lemma Sum4()
    ensures Xor(254, 29) == 227
  {
    hide Xor;
    XorZero(0);
    Digit(1, 0, 1); Digit(3, 0, 3); Digit(7, 0, 7); Digit(15, 1, 14);
    Digit(31, 3, 28); Digit(63, 7, 56); Digit(127, 14, 113); Digit(254, 29, 227);
  }

  lemma Sum5()
    ensures Xor(227, 214) == 53
  {
    hide Xor;
    XorZero(0);
    Digit(1, 1, 0); Digit(3, 3, 0); Digit(7, 6, 1); Digit(14, 13, 3);
    Digit(28, 26, 6); Digit(56, 53, 13); Digit(113, 107, 26); Digit(227, 214, 53);
  }

  lemma Sum6()
    ensures Xor(53, 52) == 1
  {
    hide Xor;
    XorZero(0);
    Digit(1, 1, 0); Digit(3, 3, 0); Digit(6, 6, 0); Digit(13, 13, 0);
    Digit(26, 26, 0); Digit(53, 52, 1);
  }

  /** Together with the squares the recurrence gives the traces of the first powers. */
  lemma FirstTraces()
    ensures T(0) == 0 && T(1) == T(2) == T(3) == T(4) == T(5) == T(6) == T(7) == 1
  {
    hide *;
    TraceOfOne();
    TraceOfTwo();
    Frobenius(1); Frobenius(2); Frobenius(3); Frobenius(4); Frobenius(5); Frobenius(6);
    Recurrence(0); Recurrence(1); Recurrence(2); Recurrence(3); Recurrence(4);
    Solve(T(3), T(5), T(7), T(9));
  }

  lemma SmallSums()
    ensures Xor(0, 0) == 0 && Xor(1, 1) == 0 && Xor(1, 0) == 1 && Xor(0, 1) == 1
  {
  }

  /** The equations between the traces of the exponents 1 to 12. */
  lemma Solve(t3: nat, t5: nat, t7: nat, t9: nat)
    requires 1 == Xor(Xor(t7, 1), Xor(1, 0))
    requires t9 == Xor(Xor(1, t3), Xor(1, 1))
    requires t5 == Xor(Xor(t9, 1), Xor(t3, 1))
    requires t3 == Xor(Xor(Xor(Xor(t5, t5), Xor(1, t3)), t3), Xor(t5, 1))
    ensures t3 == t5 == t7 == 1
  {
    hide Xor;
    SmallSums();
    XorZero(t7); XorZero(t3);
    XorCancel(1, t7);
    XorComm(t7, 1);
    XorZero(Xor(1, t3));
    XorComm(1, t3);
    XorCancel(1, t3);
    XorComm(t3, 1);
    XorSelf(t5);
    XorCancel(t3, 1);
  }

  // ---------------------------------------------------------------- the traces that the table holds

  ghost predicate Odd(e: nat) { T(e) == 1 }

  lemma {:induction false} TraceIsBit(e: nat)
    ensures T(e) <= 1
  {
    hide T, Xor;
    FirstTraces();
    if e >= 8 {
      TraceIsBit(e - 1); TraceIsBit(e - 6); TraceIsBit(e - 7); TraceIsBit(e - 8);
      Recurrence(e - 8);
      SmallSums();
    }
  }

  lemma Next(e: nat)
    ensures Odd(e + 8) == ((Odd(e + 7) != Odd(e + 2)) != (Odd(e + 1) != Odd(e)))
  {
    hide T, Xor;
    TraceIsBit(e); TraceIsBit(e + 1); TraceIsBit(e + 2); TraceIsBit(e + 7);
    Recurrence(e);
    SmallSums();
  }

  lemma Window18()
    requires !Odd(0) && Odd(1) && Odd(2) && Odd(3) && Odd(4) && Odd(5) && Odd(6) && Odd(7)
    ensures !Odd(18) && Odd(19) && Odd(20) && Odd(21) && !Odd(22) && !Odd(23) && Odd(24) && !Odd(25)
  {
    hide Odd;
    Next(0); Next(1); Next(2); Next(3); Next(4); Next(5); Next(6);
    Next(7); Next(8); Next(9); Next(10); Next(11); Next(12); Next(13);
    Next(14); Next(15); Next(16); Next(17);
  }

  lemma Window36()
    requires !Odd(18) && Odd(19) && Odd(20) && Odd(21) && !Odd(22) && !Odd(23) && Odd(24) && !Odd(25)
    ensures !Odd(36) && Odd(37) && Odd(38) && !Odd(39) && Odd(40) && Odd(41) && Odd(42) && !Odd(43)
  {
    hide Odd;
    Next(18); Next(19); Next(20); Next(21); Next(22); Next(23); Next(24);
    Next(25); Next(26); Next(27); Next(28); Next(29); Next(30); Next(31);
    Next(32); Next(33); Next(34); Next(35);
  }

  lemma Window54()
    requires !Odd(36) && Odd(37) && Odd(38) && !Odd(39) && Odd(40) && Odd(41) && Odd(42) && !Odd(43)
    ensures Odd(54) && Odd(55) && Odd(56) && !Odd(57) && !Odd(58) && !Odd(59) && Odd(60) && Odd(61)
  {
    hide Odd;
    Next(36); Next(37); Next(38); Next(39); Next(40); Next(41); Next(42);
    Next(43); Next(44); Next(45); Next(46); Next(47); Next(48); Next(49);
    Next(50); Next(51); Next(52); Next(53);
  }

  lemma Window75()
    requires Odd(54) && Odd(55) && Odd(56) && !Odd(57) && !Odd(58) && !Odd(59) && Odd(60) && Odd(61)
    ensures !Odd(75) && Odd(76) && !Odd(77) && !Odd(78) && Odd(79) && Odd(80) && Odd(81) && Odd(82)
  {
    hide Odd;
    Next(54); Next(55); Next(56); Next(57); Next(58); Next(59); Next(60);
    Next(61); Next(62); Next(63); Next(64); Next(65); Next(66); Next(67);
    Next(68); Next(69); Next(70); Next(71); Next(72); Next(73); Next(74);
  }

  lemma Window96()
    requires !Odd(75) && Odd(76) && !Odd(77) && !Odd(78) && Odd(79) && Odd(80) && Odd(81) && Odd(82)
    ensures Odd(96) && !Odd(97) && Odd(98) && Odd(99) && !Odd(100) && !Odd(101) && !Odd(102) && !Odd(103)
  {
    hide Odd;
    Next(75); Next(76); Next(77); Next(78); Next(79); Next(80); Next(81);
    Next(82); Next(83); Next(84); Next(85); Next(86); Next(87); Next(88);
    Next(89); Next(90); Next(91); Next(92); Next(93); Next(94); Next(95);
  }

  lemma Window117()
    requires Odd(96) && !Odd(97) && Odd(98) && Odd(99) && !Odd(100) && !Odd(101) && !Odd(102) && !Odd(103)
    ensures Odd(117) && !Odd(118) && !Odd(119) && Odd(120) && !Odd(121) && Odd(122) && Odd(123) && !Odd(124)
  {
    hide Odd;
    Next(96); Next(97); Next(98); Next(99); Next(100); Next(101); Next(102);
    Next(103); Next(104); Next(105); Next(106); Next(107); Next(108); Next(109);
    Next(110); Next(111); Next(112); Next(113); Next(114); Next(115); Next(116);
  }

  lemma Window142()
    requires Odd(117) && !Odd(118) && !Odd(119) && Odd(120) && !Odd(121) && Odd(122) && Odd(123) && !Odd(124)
    ensures !Odd(142) && !Odd(143) && !Odd(144) && !Odd(145) && Odd(146) && !Odd(147) && Odd(148) && !Odd(149)
  {
    hide Odd;
    Next(117); Next(118); Next(119); Next(120); Next(121); Next(122); Next(123);
    Next(124); Next(125); Next(126); Next(127); Next(128); Next(129); Next(130);
    Next(131); Next(132); Next(133); Next(134); Next(135); Next(136); Next(137);
    Next(138); Next(139); Next(140); Next(141);
  }

  lemma Window167()
    requires !Odd(142) && !Odd(143) && !Odd(144) && !Odd(145) && Odd(146) && !Odd(147) && Odd(148) && !Odd(149)
    ensures Odd(167) && Odd(168) && !Odd(169) && !Odd(170) && Odd(171) && !Odd(172) && Odd(173) && Odd(174)
  {
    hide Odd;
    Next(142); Next(143); Next(144); Next(145); Next(146); Next(147); Next(148);
    Next(149); Next(150); Next(151); Next(152); Next(153); Next(154); Next(155);
    Next(156); Next(157); Next(158); Next(159); Next(160); Next(161); Next(162);
    Next(163); Next(164); Next(165); Next(166);
  }

  lemma Window192()
    requires Odd(167) && Odd(168) && !Odd(169) && !Odd(170) && Odd(171) && !Odd(172) && Odd(173) && Odd(174)
    ensures Odd(192) && Odd(193) && !Odd(194) && Odd(195) && Odd(196) && !Odd(197) && Odd(198) && !Odd(199)
  {
    hide Odd;
    Next(167); Next(168); Next(169); Next(170); Next(171); Next(172); Next(173);
    Next(174); Next(175); Next(176); Next(177); Next(178); Next(179); Next(180);
    Next(181); Next(182); Next(183); Next(184); Next(185); Next(186); Next(187);
    Next(188); Next(189); Next(190); Next(191);
  }

  lemma Window213()
    requires Odd(192) && Odd(193) && !Odd(194) && Odd(195) && Odd(196) && !Odd(197) && Odd(198) && !Odd(199)
    ensures Odd(213) && Odd(214) && Odd(215) && Odd(216) && !Odd(217) && Odd(218) && Odd(219) && Odd(220)
  {
    hide Odd;
    Next(192); Next(193); Next(194); Next(195); Next(196); Next(197); Next(198);
    Next(199); Next(200); Next(201); Next(202); Next(203); Next(204); Next(205);
    Next(206); Next(207); Next(208); Next(209); Next(210); Next(211); Next(212);
  }

  lemma Window234()
    requires Odd(213) && Odd(214) && Odd(215) && Odd(216) && !Odd(217) && Odd(218) && Odd(219) && Odd(220)
    ensures Odd(234) && Odd(235) && !Odd(236) && Odd(237) && !Odd(238) && Odd(239) && Odd(240) && !Odd(241)
  {
    hide Odd;
    Next(213); Next(214); Next(215); Next(216); Next(217); Next(218); Next(219);
    Next(220); Next(221); Next(222); Next(223); Next(224); Next(225); Next(226);
    Next(227); Next(228); Next(229); Next(230); Next(231); Next(232); Next(233);
  }

  lemma Window0()
    ensures !Odd(0) && Odd(1) && Odd(2) && Odd(3) && Odd(4) && Odd(5) && Odd(6) && Odd(7)
  {
    FirstTraces();
    hide T;
  }

  lemma LowWindows()
    ensures !Odd(0) && Odd(1) && Odd(2) && Odd(3) && Odd(4) && Odd(5) && Odd(6) && Odd(7)
    ensures Odd(54) && Odd(55) && Odd(56) && !Odd(57) && !Odd(58) && !Odd(59) && Odd(60) && Odd(61)
  {
    hide *;
    Window0(); Window18(); Window36(); Window54();
  }

  lemma MiddleWindows()
    ensures !Odd(75) && Odd(76) && !Odd(77) && !Odd(78) && Odd(79) && Odd(80) && Odd(81) && Odd(82)
    ensures Odd(96) && !Odd(97) && Odd(98) && Odd(99) && !Odd(100) && !Odd(101) && !Odd(102) && !Odd(103)
    ensures Odd(117) && !Odd(118) && !Odd(119) && Odd(120) && !Odd(121) && Odd(122) && Odd(123) && !Odd(124)
  {
    hide *;
    LowWindows();
    Window75(); Window96(); Window117();
  }

  lemma HighWindows()
    ensures Odd(192) && Odd(193) && !Odd(194) && Odd(195) && Odd(196) && !Odd(197) && Odd(198) && !Odd(199)
    ensures Odd(213) && Odd(214) && Odd(215) && Odd(216) && !Odd(217) && Odd(218) && Odd(219) && Odd(220)
    ensures Odd(234) && Odd(235) && !Odd(236) && Odd(237) && !Odd(238) && Odd(239) && Odd(240) && !Odd(241)
  {
    hide *;
    MiddleWindows();
    Window142(); Window167(); Window192(); Window213(); Window234();
  }

  lemma TracePeriod(e: nat, q: nat)
    ensures Odd(e + q * 255) == Odd(e)
  {
    hide Trace, GF.Pow, GF.Primitive;
    CcsdsPrimitive();
    CCSDS_FIELD.PowPeriod(e, q);
  }

  // ---------------------------------------------------------------- bits of bytes

  /** Bit j of a byte. */
  predicate HasBit(x: bv8, j: nat) {
    if j == 0 then DualBasis.Odd(x) else HasBit(DualBasis.Shr(x), j - 1)
  }

  lemma {:induction false} ValueBit(x: bv8, k: nat, j: nat)
    ensures Bit(DualBasis.ValueOf(x, k), j) == (j < k && HasBit(x, j))
    decreases k
  {
    hide DualBasis.Odd, DualBasis.Shr;
    if k == 0 {
      ZeroBits(j);
    } else if j > 0 {
      ValueBit(DualBasis.Shr(x), k - 1, j - 1);
    }
  }

  lemma OddXor(a: bv8, b: bv8)
    ensures DualBasis.Odd(a ^ b) == (DualBasis.Odd(a) != DualBasis.Odd(b))
  {
  }

  lemma ShrXor(a: bv8, b: bv8)
    ensures DualBasis.Shr(a ^ b) == DualBasis.Shr(a) ^ DualBasis.Shr(b)
  {
  }

  lemma {:induction false} HasBitXor(a: bv8, b: bv8, j: nat)
    ensures HasBit(a ^ b, j) == (HasBit(a, j) != HasBit(b, j))
    decreases j
  {
    hide DualBasis.Odd, DualBasis.Shr;
    OddXor(a, b);
    ShrXor(a, b);
    if j > 0 { HasBitXor(DualBasis.Shr(a), DualBasis.Shr(b), j - 1); }
  }

  lemma {:induction false} NoBits(j: nat)
    ensures !HasBit(0, j)
  {
    if j > 0 { NoBits(j - 1); }
  }

  /** Bits 0 to 7 one by one. */
  lemma BitMasks(x: bv8)
    ensures HasBit(x, 0) == (x & 0x01 != 0) && HasBit(x, 1) == (x & 0x02 != 0)
    ensures HasBit(x, 2) == (x & 0x04 != 0) && HasBit(x, 3) == (x & 0x08 != 0)
    ensures HasBit(x, 4) == (x & 0x10 != 0) && HasBit(x, 5) == (x & 0x20 != 0)
    ensures HasBit(x, 6) == (x & 0x40 != 0) && HasBit(x, 7) == (x & 0x80 != 0)
  {
  }

  lemma SelectIs(x: bv8, m: nat, c: bv8)
    requires m < 8
    ensures DualBasis.Select(x, DualBasis.Bit(m), c) == if HasBit(x, m) then c else 0
  {
    hide HasBit;
    BitMasks(x);
  }

  lemma TalMasks()
    ensures forall j :: 0 <= j < 8 ==> (
      && HasBit(0x7b, j) == (0x7b & DualBasis.Bit(j) != 0)
      && HasBit(0xaf, j) == (0xaf & DualBasis.Bit(j) != 0)
      && HasBit(0x99, j) == (0x99 & DualBasis.Bit(j) != 0)
      && HasBit(0xfa, j) == (0xfa & DualBasis.Bit(j) != 0)
      && HasBit(0x86, j) == (0x86 & DualBasis.Bit(j) != 0)
      && HasBit(0xec, j) == (0xec & DualBasis.Bit(j) != 0)
      && HasBit(0xef, j) == (0xef & DualBasis.Bit(j) != 0)
      && HasBit(0x8d, j) == (0x8d & DualBasis.Bit(j) != 0))
  {
    BitMasks(0x7b); BitMasks(0xaf); BitMasks(0x99); BitMasks(0xfa); BitMasks(0x86); BitMasks(0xec); BitMasks(0xef); BitMasks(0x8d);
    hide HasBit;
  }

  lemma TalBits0()
    ensures HasBit(0x7b, 0) && HasBit(0xaf, 0) && HasBit(0x99, 0) && !HasBit(0xfa, 0) && !HasBit(0x86, 0) && !HasBit(0xec, 0) && HasBit(0xef, 0) && HasBit(0x8d, 0)
  {
    TalMasks();
  }

  lemma TalBits1()
    ensures HasBit(0x7b, 1) && HasBit(0xaf, 1) && !HasBit(0x99, 1) && HasBit(0xfa, 1) && HasBit(0x86, 1) && !HasBit(0xec, 1) && HasBit(0xef, 1) && !HasBit(0x8d, 1)
  {
    TalMasks();
  }

  lemma TalBits2()
    ensures !HasBit(0x7b, 2) && HasBit(0xaf, 2) && !HasBit(0x99, 2) && !HasBit(0xfa, 2) && HasBit(0x86, 2) && HasBit(0xec, 2) && HasBit(0xef, 2) && HasBit(0x8d, 2)
  {
    TalMasks();
  }

  lemma TalBits3()
    ensures HasBit(0x7b, 3) && HasBit(0xaf, 3) && HasBit(0x99, 3) && HasBit(0xfa, 3) && !HasBit(0x86, 3) && HasBit(0xec, 3) && HasBit(0xef, 3) && HasBit(0x8d, 3)
  {
    TalMasks();
  }

  lemma TalBits4()
    ensures HasBit(0x7b, 4) && !HasBit(0xaf, 4) && HasBit(0x99, 4) && HasBit(0xfa, 4) && !HasBit(0x86, 4) && !HasBit(0xec, 4) && !HasBit(0xef, 4) && !HasBit(0x8d, 4)
  {
    TalMasks();
  }

  lemma TalBits5()
    ensures HasBit(0x7b, 5) && HasBit(0xaf, 5) && !HasBit(0x99, 5) && HasBit(0xfa, 5) && !HasBit(0x86, 5) && HasBit(0xec, 5) && HasBit(0xef, 5) && !HasBit(0x8d, 5)
  {
    TalMasks();
  }

  lemma TalBits6()
    ensures HasBit(0x7b, 6) && !HasBit(0xaf, 6) && !HasBit(0x99, 6) && HasBit(0xfa, 6) && !HasBit(0x86, 6) && HasBit(0xec, 6) && HasBit(0xef, 6) && !HasBit(0x8d, 6)
  {
    TalMasks();
  }

  lemma TalBits7()
    ensures !HasBit(0x7b, 7) && HasBit(0xaf, 7) && HasBit(0x99, 7) && HasBit(0xfa, 7) && HasBit(0x86, 7) && HasBit(0xec, 7) && HasBit(0xef, 7) && HasBit(0x8d, 7)
  {
    TalMasks();
  }

  lemma Column0(m: nat)
    requires m < 8
    ensures HasBit(DualBasis.Tal(7 - m), 7) == Odd(0 + m)
  {
    hide HasBit, Odd;
    LowWindows();
    TalBits7();
  }

  lemma Column1(m: nat)
    requires m < 8
    ensures HasBit(DualBasis.Tal(7 - m), 6) == Odd(117 + m)
  {
    hide HasBit, Odd;
    MiddleWindows();
    TalBits6();
  }

  lemma Column2(m: nat)
    requires m < 8
    ensures HasBit(DualBasis.Tal(7 - m), 5) == Odd(234 + m)
  {
    hide HasBit, Odd;
    HighWindows();
    TalBits5();
  }

  lemma Column3(m: nat)
    requires m < 8
    ensures HasBit(DualBasis.Tal(7 - m), 4) == Odd(96 + m)
  {
    hide HasBit, Odd;
    MiddleWindows();
    TalBits4();
  }

  lemma Column4(m: nat)
    requires m < 8
    ensures HasBit(DualBasis.Tal(7 - m), 3) == Odd(213 + m)
  {
    hide HasBit, Odd;
    HighWindows();
    TalBits3();
  }

  lemma Column5(m: nat)
    requires m < 8
    ensures HasBit(DualBasis.Tal(7 - m), 2) == Odd(75 + m)
  {
    hide HasBit, Odd;
    MiddleWindows();
    TalBits2();
  }

  lemma Column6(m: nat)
    requires m < 8
    ensures HasBit(DualBasis.Tal(7 - m), 1) == Odd(192 + m)
  {
    hide HasBit, Odd;
    HighWindows();
    TalBits1();
  }

  lemma Column7(m: nat)
    requires m < 8
    ensures HasBit(DualBasis.Tal(7 - m), 0) == Odd(54 + m)
  {
    hide HasBit, Odd;
    LowWindows();
    TalBits0();
  }

  /** Every bit of the constants is the trace of a power. */
  lemma TalTrace(m: nat, i: nat)
    requires m < 8 && i < 8
    ensures HasBit(DualBasis.Tal(7 - m), 7 - i) == Odd(117 * i + m)
  {
    hide HasBit, Odd, DualBasis.Tal;
    match i {
      case 0 => Column0(m); TracePeriod(0 + m, 0);
      case 1 => Column1(m); TracePeriod(117 + m, 0);
      case 2 => Column2(m); TracePeriod(234 + m, 0);
      case 3 => Column3(m); TracePeriod(96 + m, 1);
      case 4 => Column4(m); TracePeriod(213 + m, 1);
      case 5 => Column5(m); TracePeriod(75 + m, 2);
      case 6 => Column6(m); TracePeriod(192 + m, 2);
      case 7 => Column7(m); TracePeriod(54 + m, 3);
    }
  }

  // ---------------------------------------------------------------- the law

  lemma {:induction false} XorDisjoint(k: nat, r: nat)
    requires r < Two(k)
    ensures Xor(Two(k), r) == Two(k) + r
  {
    if k == 0 {
      XorZero(1);
    } else {
      XorHalf(Two(k), r);
      XorDisjoint(k - 1, r / 2);
    }
  }

  /** The low m bits and bit m. */
  lemma {:induction false} LowBits(n: nat, m: nat)
    ensures n % Two(m + 1) == n % Two(m) + if Bit(n, m) then Two(m) else 0
    decreases m
  {
    if m > 0 {
      ModTwice(n, Two(m));
      ModTwice(n, Two(m - 1));
      LowBits(n / 2, m - 1);
    }
  }

  lemma SmallPower(m: nat)
    requires m < 8
    ensures CCSDS_FIELD.Pow(m) == Two(m)
  {
    FirstPowers();
    hide GF.Pow;
    assert Two(1) == 2 && Two(2) == 4 && Two(3) == 8 && Two(4) == 16;
    assert Two(5) == 32 && Two(6) == 64 && Two(7) == 128;
  }

  /** The trace of n times a power, for bit m of n added. */
  lemma TraceStep(n: nat, m: nat, e: nat)
    requires m < 8
    ensures var F := CCSDS_FIELD; var low := Trace(F.Mul(n % Two(m), F.Pow(e)));
      Trace(F.Mul(n % Two(m + 1), F.Pow(e))) == if Bit(n, m) then Xor(T(e + m), low) else low
  {
    hide *;
    LowBits(n, m);
    DivMod(n, Two(m));
    SmallPower(m);
    XorDisjoint(m, n % Two(m));
    if Bit(n, m) { TraceAdded(n % Two(m), m, e); }
  }

  lemma TraceAdded(r: nat, m: nat, e: nat)
    requires CCSDS_FIELD.Pow(m) == Two(m)
    ensures var F := CCSDS_FIELD;
      Trace(F.Mul(Xor(Two(m), r), F.Pow(e))) == Xor(T(e + m), Trace(F.Mul(r, F.Pow(e))))
  {
    hide Xor, GF.Pow, GF.Mul, GF.Primitive, Two, Trace;
    var F := CCSDS_FIELD;
    CcsdsPrimitive();
    F.MulXor(F.Pow(e), Two(m), r);
    F.MulPow(m, e);
    TraceXor(F.Mul(Two(m), F.Pow(e)), F.Mul(r, F.Pow(e)));
  }

  /** The first m terms of the sum hold the traces of the low m bits. */
  lemma {:induction false} ChosenTrace(n: nat, m: nat, i: nat)
    requires n < 256 && m <= 8 && i < 8
    ensures var t := Trace(CCSDS_FIELD.Mul(n % Two(m), CCSDS_FIELD.Pow(117 * i)));
      t <= 1 && (t == 1 <==> HasBit(DualBasis.Chosen(DualBasis.Byte(n), m), 7 - i))
  {
    hide *;
    if m == 0 {
      ChosenNone(n, i);
    } else {
      ChosenTrace(n, m - 1, i);
      TraceStep(n, m - 1, 117 * i);
      TraceIsBit(117 * i + (m - 1));
      ChosenBit(n, m, i);
      OddIs(117 * i + (m - 1));
      SmallSums();
    }
  }

  lemma OddIs(e: nat)
    ensures Odd(e) == (T(e) == 1)
  {
  }

  lemma ChosenNone(n: nat, i: nat)
    requires i < 8
    ensures Trace(CCSDS_FIELD.Mul(n % Two(0), CCSDS_FIELD.Pow(117 * i))) == 0
    ensures !HasBit(DualBasis.Chosen(DualBasis.Byte(n), 0), 7 - i)
  {
    hide *;
    NothingChosen(DualBasis.Byte(n), 7 - i);
    NoBitsLeft(n);
    CCSDS_FIELD.MulZero(CCSDS_FIELD.Pow(117 * i));
    TraceOfZero(8);
    TraceIs(0);
  }

  lemma NothingChosen(x: bv8, j: nat)
    ensures !HasBit(DualBasis.Chosen(x, 0), j)
  {
    NoBits(j);
  }

  lemma NoBitsLeft(n: nat)
    ensures n % Two(0) == 0
  {
  }

  lemma TraceIs(z: nat)
    ensures Trace(z) == TraceOf(z, 8)
  {
    hide TraceOf;
  }

  lemma {:induction false} TraceOfZero(m: nat)
    ensures TraceOf(0, m) == 0
  {
    hide Xor, Conjugate;
    if m > 0 {
      TraceOfZero(m - 1);
      ConjugateZero(m - 1);
      XorZero(0);
    }
  }

  lemma {:induction false} ConjugateZero(j: nat)
    ensures Conjugate(0, j) == 0
  {
    hide GF.Mul;
    if j > 0 {
      ConjugateZero(j - 1);
      CCSDS_FIELD.MulZero(0);
    }
  }

  /** Bit 7 - i of the sum after one more term. */
  lemma ChosenBit(n: nat, m: nat, i: nat)
    requires n < 256 && 1 <= m <= 8 && i < 8
    ensures HasBit(DualBasis.Chosen(DualBasis.Byte(n), m), 7 - i)
         == (HasBit(DualBasis.Chosen(DualBasis.Byte(n), m - 1), 7 - i) != (Bit(n, m - 1) && Odd(117 * i + (m - 1))))
  {
    hide *;
    var x, bit, tal := DualBasis.Byte(n), DualBasis.Bit(m - 1), DualBasis.Tal(8 - m);
    DualBasis.ChosenStep(x, m, bit, tal);
    HasBitXor(DualBasis.Chosen(x, m - 1), DualBasis.Select(x, bit, tal), 7 - i);
    TermBit(x, m - 1, tal, 7 - i);
    ByteBit(n, m - 1);
    TalTrace(m - 1, i);
  }

  lemma TermBit(x: bv8, m: nat, c: bv8, j: nat)
    requires m < 8
    ensures HasBit(DualBasis.Select(x, DualBasis.Bit(m), c), j) == (HasBit(x, m) && HasBit(c, j))
  {
    hide *;
    SelectIs(x, m, c);
    NoBits(j);
  }

  lemma ByteBit(n: nat, k: nat)
    requires n < 256 && k < 8
    ensures HasBit(DualBasis.Byte(n), k) == Bit(n, k)
  {
    DualBasis.ValueOfByte(n);
    hide DualBasis.ByteOf, DualBasis.ValueOf, HasBit, Bit;
    ValueBit(DualBasis.Byte(n), 8, k);
  }

  lemma WholeByte(n: nat)
    requires n < 256
    ensures n % Two(8) == n
  {
    assert Two(8) == 256;
  }

  lemma ToDualIs(n: nat)
    requires n < 256
    ensures DualBasis.ToDual(n) == DualBasis.ValueOf(DualBasis.Chosen(DualBasis.Byte(n), 8), 8)
  {
    hide DualBasis.Chosen, DualBasis.ByteOf, DualBasis.ValueOf;
  }

  /** Bit 7 - i of a byte in the dual basis is the trace of the byte times the power 117 i. */
  lemma DualBits(n: nat, i: nat)
    requires n < 256 && i < 8
    ensures var t := Trace(CCSDS_FIELD.Mul(n, CCSDS_FIELD.Pow(117 * i)));
      t <= 1 && (t == 1 <==> Bit(DualBasis.ToDual(n), 7 - i))
  {
    hide *;
    WholeByte(n);
    ToDualIs(n);
    ChosenTrace(n, 8, i);
    ValueBit(DualBasis.Chosen(DualBasis.Byte(n), 8), 8, 7 - i);
  }

  /** And the other way round: the bits received are the traces of the byte they are converted to. */
  lemma FromDualBits(d: nat, i: nat)
    requires d < 256 && i < 8
    ensures var t := Trace(CCSDS_FIELD.Mul(DualBasis.FromDual(d), CCSDS_FIELD.Pow(117 * i)));
      t <= 1 && (t == 1 <==> Bit(d, 7 - i))
  {
    hide *;
    DualBasis.Inverse(d);
    DualBits(DualBasis.FromDual(d), i);
  }
}
