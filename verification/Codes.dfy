/** The codes that the emulator is set up with: their parameters meet what the theorems on codecs ask for. */
module Codes {
  import opened Bits
  import opened Galois
  import opened Code
  import opened Completeness
  import opened Exactness

  /** The code that protects the headers of AOS frames: 10 symbols of 4 bits, 6 of them data. */
  const AOS_HEADER := Params(GF(4, 0x13), 4, 10, 1, 6)

  /** The field of the codes of section 4 of CCSDS 131.0-B-2, which have 255 symbols of 8 bits. */
  const CCSDS_FIELD := GF(8, 0x187)

  /** Each number is the double of the one before. */
  predicate Orbit(F: GF, s: seq<nat>) {
    s != [] && forall i :: 0 <= i < |s| - 1 ==> F.Double(s[i]) == s[i + 1]
  }

  /** What an orbit says about powers. */
  lemma {:induction false} Along(F: GF, a: nat, s: seq<nat>)
    requires Orbit(F, s) && F.Pow(a) == s[0]
    ensures forall i :: 0 <= i < |s| ==> F.Pow(a + i) == s[i]
    decreases |s|
  {
    hide GF.Double;
    if |s| > 1 {
      var n := |s| - 1;
      Along(F, a, s[..n]);
      assert s[..n][n - 1] == s[n - 1];
      assert F.Pow(a + n) == F.Double(F.Pow(a + n - 1));
    }
  }

  /** None of the powers up to the n-th is one again. */
  ghost predicate Passed(F: GF, n: nat) {
    forall i :: 0 < i <= n ==> F.Pow(i) != 1
  }

  lemma Onward(F: GF, a: nat, s: seq<nat>)
    requires Orbit(F, s) && F.Pow(a) == s[0] && Passed(F, a)
    requires |s| > 1 && forall i :: 0 < i < |s| - 1 ==> s[i] != 1
    ensures F.Pow(a + |s| - 1) == s[|s| - 1] && Passed(F, a + |s| - 2)
    ensures s[|s| - 1] != 1 ==> Passed(F, a + |s| - 1)
  {
    Along(F, a, s);
    hide GF.Double, GF.Pow;
    var n := a + |s| - 1;
    assert F.Pow(n) == F.Pow(a + (|s| - 1)) == s[|s| - 1];
    forall i | 0 < i < n ensures F.Pow(i) != 1 { if i > a { assert F.Pow(a + (i - a)) == s[i - a]; } }
  }

  // ---------------------------------------------------------------- 4 bits

  const AOS_FIELD := GF(4, 0x13)

  lemma AosPrimitive()
    ensures AOS_FIELD.Primitive() && AOS_FIELD.Order() == 15
  {
    assert AOS_FIELD.Size() == 16;
    AosOrbit();
    PowZero(AOS_FIELD);
    hide GF.Double, GF.Pow, GF.Size;
    Onward(AOS_FIELD, 0, [1, 2, 4, 8, 3, 6, 12, 11, 5, 10, 7, 14, 15, 13, 9, 1]);
  }

  lemma AosOrbit()
    ensures Orbit(AOS_FIELD, [1, 2, 4, 8, 3, 6, 12, 11, 5, 10, 7, 14, 15, 13, 9, 1])
  {
    hide GF.Double;
    forall x: nat | x < 16 ensures AOS_FIELD.Double(x) == if x < 8 then 2 * x else Wrapped(x) { WrappedIs(x); }
  }

  /** Twice a number with the fourth bit. */
  function Wrapped(x: nat): int {
    4 * (x / 2 - 4) + (if x % 2 == 0 then 3 else 1)
  }

  lemma WrappedIs(x: nat)
    requires x < 16
    ensures AOS_FIELD.Double(x) == if x < 8 then 2 * x else Wrapped(x)
  {
    assert AOS_FIELD.Size() == 16;
    hide Xor, GF.Size;
    XorHalf(2 * x, 19);
    XorHalf(x, 9);
    XorHalf(x / 2, 4);
    XorTwo();
  }

  lemma XorTwo()
    ensures Xor(2, 2) == 0 && Xor(3, 2) == 1
  {
  }

  /** The header code is one of those that correct every word within capability. */
  lemma AosHeader()
    ensures AOS_HEADER.Proper() && Faultless(AOS_HEADER)
  {
    AosPrimitive();
    hide GF.Primitive, GF.Order;
    assert AOS_HEADER.field == AOS_FIELD;
  }

  // ---------------------------------------------------------------- 8 bits

  /** Doubling in the field of the CCSDS codes by arithmetic. */
  function Twice(x: nat): int {
    if x < 128 then 2 * x else 8 * ((if x / 4 < 48 then 16 else 0) + x / 4 % 16) + 7 - 4 * (x / 2 % 2) - 2 * (x % 2)
  }

  lemma DoubleIs(x: nat)
    requires x < 256
    ensures CCSDS_FIELD.Double(x) == Twice(x)
  {
    hide Xor;
    FieldSize();
    if x >= 128 { Reduced(x); }
    hide GF.Size;
  }

  lemma Reduced(x: nat)
    requires 128 <= x < 256
    ensures Xor(2 * x, 0x187) == Twice(x)
  {
    hide Xor, Twice;
    Lowest(2 * x, 195);
    Lowest(x, 97);
    Lowest(x / 2, 48);
    XorLow(x / 4);
    assert x / 2 / 2 == x / 4;
    ReducedIs(x, Xor(x / 4, 48));
  }

  lemma Lowest(a: nat, b: nat)
    ensures Xor(a, 2 * b + 1) == 2 * Xor(a / 2, b) + 1 - a % 2
  {
    hide Xor;
    XorHalf(a, 2 * b + 1);
  }

  lemma ReducedIs(x: nat, r: nat)
    requires 128 <= x && r == (if x / 4 < 48 then 16 else 0) + x / 4 % 16
    ensures 2 * (2 * (2 * r + 1 - x / 2 % 2) + 1 - x % 2) + 1 == Twice(x)
  {
  }

  lemma FieldSize()
    ensures CCSDS_FIELD.Size() == 256
  {
  }

  lemma XorQuarter(a: nat, b: nat)
    ensures Xor(a, 4 * b) == 4 * Xor(a / 4, b) + a % 4
  {
    hide Xor;
    XorHalf(a, 4 * b);
    XorHalf(a / 2, 2 * b);
    assert 4 * b / 2 == 2 * b && a / 2 / 2 == a / 4;
  }

  /** 48 changes the fifth bit only, of numbers with the sixth. */
  lemma XorLow(z: nat)
    requires 32 <= z < 64
    ensures Xor(z, 48) == (if z < 48 then 16 else 0) + z % 16
  {
    hide Xor;
    XorQuarter(z, 12);
    XorQuarter(z / 4, 3);
    XorSmall();
    assert z / 4 / 4 == z / 16;
  }

  lemma XorSmall()
    ensures Xor(2, 3) == 1 && Xor(3, 3) == 0
  {
  }

  /** The next power, while it is not one. */
  lemma Onto(n: nat, x: nat, y: nat)
    requires Passed(CCSDS_FIELD, n) && CCSDS_FIELD.Pow(n) == x < 256 && y == Twice(x) && y != 1
    ensures Passed(CCSDS_FIELD, n + 1) && CCSDS_FIELD.Pow(n + 1) == y
  {
    PowNext(n);
    DoubleIs(x);
    hide GF.Double, GF.Pow, Twice;
  }

  lemma PowNext(n: nat)
    ensures CCSDS_FIELD.Pow(n + 1) == CCSDS_FIELD.Double(CCSDS_FIELD.Pow(n))
  {
    hide GF.Double;
  }

  lemma Row0()
    requires Passed(CCSDS_FIELD, 0) && CCSDS_FIELD.Pow(0) == 1
    ensures Passed(CCSDS_FIELD, 15) && CCSDS_FIELD.Pow(15) == 244
  {
    hide GF.Double, GF.Pow, Passed;
    Onto(0, 1, 2); Onto(1, 2, 4); Onto(2, 4, 8);
    Onto(3, 8, 16); Onto(4, 16, 32); Onto(5, 32, 64);
    Onto(6, 64, 128); Onto(7, 128, 135); Onto(8, 135, 137);
    Onto(9, 137, 149); Onto(10, 149, 173); Onto(11, 173, 221);
    Onto(12, 221, 61); Onto(13, 61, 122); Onto(14, 122, 244);
  }

  lemma Row1()
    requires Passed(CCSDS_FIELD, 15) && CCSDS_FIELD.Pow(15) == 244
    ensures Passed(CCSDS_FIELD, 30) && CCSDS_FIELD.Pow(30) == 165
  {
    hide GF.Double, GF.Pow, Passed;
    Onto(15, 244, 111); Onto(16, 111, 222); Onto(17, 222, 59);
    Onto(18, 59, 118); Onto(19, 118, 236); Onto(20, 236, 95);
    Onto(21, 95, 190); Onto(22, 190, 251); Onto(23, 251, 113);
    Onto(24, 113, 226); Onto(25, 226, 67); Onto(26, 67, 134);
    Onto(27, 134, 139); Onto(28, 139, 145); Onto(29, 145, 165);
  }

  lemma Row2()
    requires Passed(CCSDS_FIELD, 30) && CCSDS_FIELD.Pow(30) == 165
    ensures Passed(CCSDS_FIELD, 45) && CCSDS_FIELD.Pow(45) == 120
  {
    hide GF.Double, GF.Pow, Passed;
    Onto(30, 165, 205); Onto(31, 205, 29); Onto(32, 29, 58);
    Onto(33, 58, 116); Onto(34, 116, 232); Onto(35, 232, 87);
    Onto(36, 87, 174); Onto(37, 174, 219); Onto(38, 219, 49);
    Onto(39, 49, 98); Onto(40, 98, 196); Onto(41, 196, 15);
    Onto(42, 15, 30); Onto(43, 30, 60); Onto(44, 60, 120);
  }

  lemma Row3()
    requires Passed(CCSDS_FIELD, 45) && CCSDS_FIELD.Pow(45) == 120
    ensures Passed(CCSDS_FIELD, 60) && CCSDS_FIELD.Pow(60) == 254
  {
    hide GF.Double, GF.Pow, Passed;
    Onto(45, 120, 240); Onto(46, 240, 103); Onto(47, 103, 206);
    Onto(48, 206, 27); Onto(49, 27, 54); Onto(50, 54, 108);
    Onto(51, 108, 216); Onto(52, 216, 55); Onto(53, 55, 110);
    Onto(54, 110, 220); Onto(55, 220, 63); Onto(56, 63, 126);
    Onto(57, 126, 252); Onto(58, 252, 127); Onto(59, 127, 254);
  }

  lemma Row4()
    requires Passed(CCSDS_FIELD, 60) && CCSDS_FIELD.Pow(60) == 254
    ensures Passed(CCSDS_FIELD, 75) && CCSDS_FIELD.Pow(75) == 241
  {
    hide GF.Double, GF.Pow, Passed;
    Onto(60, 254, 123); Onto(61, 123, 246); Onto(62, 246, 107);
    Onto(63, 107, 214); Onto(64, 214, 43); Onto(65, 43, 86);
    Onto(66, 86, 172); Onto(67, 172, 223); Onto(68, 223, 57);
    Onto(69, 57, 114); Onto(70, 114, 228); Onto(71, 228, 79);
    Onto(72, 79, 158); Onto(73, 158, 187); Onto(74, 187, 241);
  }

  lemma Row5()
    requires Passed(CCSDS_FIELD, 75) && CCSDS_FIELD.Pow(75) == 241
    ensures Passed(CCSDS_FIELD, 90) && CCSDS_FIELD.Pow(90) == 143
  {
    hide GF.Double, GF.Pow, Passed;
    Onto(75, 241, 101); Onto(76, 101, 202); Onto(77, 202, 19);
    Onto(78, 19, 38); Onto(79, 38, 76); Onto(80, 76, 152);
    Onto(81, 152, 183); Onto(82, 183, 233); Onto(83, 233, 85);
    Onto(84, 85, 170); Onto(85, 170, 211); Onto(86, 211, 33);
    Onto(87, 33, 66); Onto(88, 66, 132); Onto(89, 132, 143);
  }

  lemma Row6()
    requires Passed(CCSDS_FIELD, 90) && CCSDS_FIELD.Pow(90) == 143
    ensures Passed(CCSDS_FIELD, 105) && CCSDS_FIELD.Pow(105) == 192
  {
    hide GF.Double, GF.Pow, Passed;
    Onto(90, 143, 153); Onto(91, 153, 181); Onto(92, 181, 237);
    Onto(93, 237, 93); Onto(94, 93, 186); Onto(95, 186, 243);
    Onto(96, 243, 97); Onto(97, 97, 194); Onto(98, 194, 3);
    Onto(99, 3, 6); Onto(100, 6, 12); Onto(101, 12, 24);
    Onto(102, 24, 48); Onto(103, 48, 96); Onto(104, 96, 192);
  }

  lemma Row7()
    requires Passed(CCSDS_FIELD, 105) && CCSDS_FIELD.Pow(105) == 192
    ensures Passed(CCSDS_FIELD, 120) && CCSDS_FIELD.Pow(120) == 225
  {
    hide GF.Double, GF.Pow, Passed;
    Onto(105, 192, 7); Onto(106, 7, 14); Onto(107, 14, 28);
    Onto(108, 28, 56); Onto(109, 56, 112); Onto(110, 112, 224);
    Onto(111, 224, 71); Onto(112, 71, 142); Onto(113, 142, 155);
    Onto(114, 155, 177); Onto(115, 177, 229); Onto(116, 229, 77);
    Onto(117, 77, 154); Onto(118, 154, 179); Onto(119, 179, 225);
  }

  lemma Row8()
    requires Passed(CCSDS_FIELD, 120) && CCSDS_FIELD.Pow(120) == 225
    ensures Passed(CCSDS_FIELD, 135) && CCSDS_FIELD.Pow(135) == 249
  {
    hide GF.Double, GF.Pow, Passed;
    Onto(120, 225, 69); Onto(121, 69, 138); Onto(122, 138, 147);
    Onto(123, 147, 161); Onto(124, 161, 197); Onto(125, 197, 13);
    Onto(126, 13, 26); Onto(127, 26, 52); Onto(128, 52, 104);
    Onto(129, 104, 208); Onto(130, 208, 39); Onto(131, 39, 78);
    Onto(132, 78, 156); Onto(133, 156, 191); Onto(134, 191, 249);
  }

  lemma Row9()
    requires Passed(CCSDS_FIELD, 135) && CCSDS_FIELD.Pow(135) == 249
    ensures Passed(CCSDS_FIELD, 150) && CCSDS_FIELD.Pow(150) == 180
  {
    hide GF.Double, GF.Pow, Passed;
    Onto(135, 249, 117); Onto(136, 117, 234); Onto(137, 234, 83);
    Onto(138, 83, 166); Onto(139, 166, 203); Onto(140, 203, 17);
    Onto(141, 17, 34); Onto(142, 34, 68); Onto(143, 68, 136);
    Onto(144, 136, 151); Onto(145, 151, 169); Onto(146, 169, 213);
    Onto(147, 213, 45); Onto(148, 45, 90); Onto(149, 90, 180);
  }

  lemma Row10()
    requires Passed(CCSDS_FIELD, 150) && CCSDS_FIELD.Pow(150) == 180
    ensures Passed(CCSDS_FIELD, 165) && CCSDS_FIELD.Pow(165) == 250
  {
    hide GF.Double, GF.Pow, Passed;
    Onto(150, 180, 239); Onto(151, 239, 89); Onto(152, 89, 178);
    Onto(153, 178, 227); Onto(154, 227, 65); Onto(155, 65, 130);
    Onto(156, 130, 131); Onto(157, 131, 129); Onto(158, 129, 133);
    Onto(159, 133, 141); Onto(160, 141, 157); Onto(161, 157, 189);
    Onto(162, 189, 253); Onto(163, 253, 125); Onto(164, 125, 250);
  }

  lemma Row11()
    requires Passed(CCSDS_FIELD, 165) && CCSDS_FIELD.Pow(165) == 250
    ensures Passed(CCSDS_FIELD, 180) && CCSDS_FIELD.Pow(180) == 47
  {
    hide GF.Double, GF.Pow, Passed;
    Onto(165, 250, 115); Onto(166, 115, 230); Onto(167, 230, 75);
    Onto(168, 75, 150); Onto(169, 150, 171); Onto(170, 171, 209);
    Onto(171, 209, 37); Onto(172, 37, 74); Onto(173, 74, 148);
    Onto(174, 148, 175); Onto(175, 175, 217); Onto(176, 217, 53);
    Onto(177, 53, 106); Onto(178, 106, 212); Onto(179, 212, 47);
  }

  lemma Row12()
    requires Passed(CCSDS_FIELD, 180) && CCSDS_FIELD.Pow(180) == 47
    ensures Passed(CCSDS_FIELD, 195) && CCSDS_FIELD.Pow(195) == 146
  {
    hide GF.Double, GF.Pow, Passed;
    Onto(180, 47, 94); Onto(181, 94, 188); Onto(182, 188, 255);
    Onto(183, 255, 121); Onto(184, 121, 242); Onto(185, 242, 99);
    Onto(186, 99, 198); Onto(187, 198, 11); Onto(188, 11, 22);
    Onto(189, 22, 44); Onto(190, 44, 88); Onto(191, 88, 176);
    Onto(192, 176, 231); Onto(193, 231, 73); Onto(194, 73, 146);
  }

  lemma Row13()
    requires Passed(CCSDS_FIELD, 195) && CCSDS_FIELD.Pow(195) == 146
    ensures Passed(CCSDS_FIELD, 210) && CCSDS_FIELD.Pow(210) == 167
  {
    hide GF.Double, GF.Pow, Passed;
    Onto(195, 146, 163); Onto(196, 163, 193); Onto(197, 193, 5);
    Onto(198, 5, 10); Onto(199, 10, 20); Onto(200, 20, 40);
    Onto(201, 40, 80); Onto(202, 80, 160); Onto(203, 160, 199);
    Onto(204, 199, 9); Onto(205, 9, 18); Onto(206, 18, 36);
    Onto(207, 36, 72); Onto(208, 72, 144); Onto(209, 144, 167);
  }

  lemma Row14()
    requires Passed(CCSDS_FIELD, 210) && CCSDS_FIELD.Pow(210) == 167
    ensures Passed(CCSDS_FIELD, 225) && CCSDS_FIELD.Pow(225) == 23
  {
    hide GF.Double, GF.Pow, Passed;
    Onto(210, 167, 201); Onto(211, 201, 21); Onto(212, 21, 42);
    Onto(213, 42, 84); Onto(214, 84, 168); Onto(215, 168, 215);
    Onto(216, 215, 41); Onto(217, 41, 82); Onto(218, 82, 164);
    Onto(219, 164, 207); Onto(220, 207, 25); Onto(221, 25, 50);
    Onto(222, 50, 100); Onto(223, 100, 200); Onto(224, 200, 23);
  }

  lemma Row15()
    requires Passed(CCSDS_FIELD, 225) && CCSDS_FIELD.Pow(225) == 23
    ensures Passed(CCSDS_FIELD, 240) && CCSDS_FIELD.Pow(240) == 51
  {
    hide GF.Double, GF.Pow, Passed;
    Onto(225, 23, 46); Onto(226, 46, 92); Onto(227, 92, 184);
    Onto(228, 184, 247); Onto(229, 247, 105); Onto(230, 105, 210);
    Onto(231, 210, 35); Onto(232, 35, 70); Onto(233, 70, 140);
    Onto(234, 140, 159); Onto(235, 159, 185); Onto(236, 185, 245);
    Onto(237, 245, 109); Onto(238, 109, 218); Onto(239, 218, 51);
  }

  lemma Row16()
    requires Passed(CCSDS_FIELD, 240) && CCSDS_FIELD.Pow(240) == 51
    ensures Passed(CCSDS_FIELD, 254) && CCSDS_FIELD.Pow(254) == 195
  {
    hide GF.Double, GF.Pow, Passed;
    Onto(240, 51, 102); Onto(241, 102, 204); Onto(242, 204, 31);
    Onto(243, 31, 62); Onto(244, 62, 124); Onto(245, 124, 248);
    Onto(246, 248, 119); Onto(247, 119, 238); Onto(248, 238, 91);
    Onto(249, 91, 182); Onto(250, 182, 235); Onto(251, 235, 81);
    Onto(252, 81, 162); Onto(253, 162, 195);
  }

  lemma AllRows()
    ensures Passed(CCSDS_FIELD, 254) && CCSDS_FIELD.Pow(254) == 195
    ensures CCSDS_FIELD.Pow(15) == 244 && CCSDS_FIELD.Pow(30) == 165 && CCSDS_FIELD.Pow(60) == 254 && CCSDS_FIELD.Pow(120) == 225
  {
    PowZero(CCSDS_FIELD);
    assert Passed(CCSDS_FIELD, 0);
    hide *;
    Row0(); Row1(); Row2(); Row3(); Row4(); Row5();
    Row6(); Row7(); Row8(); Row9(); Row10(); Row11();
    Row12(); Row13(); Row14(); Row15(); Row16();
  }

  lemma LastPower()
    requires CCSDS_FIELD.Pow(254) == 195
    ensures CCSDS_FIELD.Pow(255) == 1
  {
    PowNext(254);
    DoubleIs(195);
    hide GF.Pow, GF.Double;
  }

  lemma CcsdsPrimitive()
    ensures CCSDS_FIELD.Primitive() && CCSDS_FIELD.Order() == 255
  {
    FieldSize();
    hide GF.Pow, GF.Size;
    AllRows();
    LastPower();
  }

  /** So are the full-length codes, with any number of parity symbols and any first root. */
  lemma Ccsds(c: Params)
    requires c.field == CCSDS_FIELD && c.length == 255 && c.parity < 255 && c.root == 11
    ensures c.Proper() && Faultless(c)
  {
    CcsdsPrimitive();
    AlignedAtFullLength(c);
    hide GF.Primitive, GF.Order, Aligned;
    forall i | 0 < i < 255 ensures c.RootExponent(i) != 0 { Coprime(i); }
  }

  lemma Coprime(i: nat)
    requires 0 < i < 255
    ensures 11 * i % 255 != 0
  {
    var q, r := 11 * i / 255, 11 * i % 255;
    assert 11 * i == 255 * q + r;
    var t := 116 * q - 5 * i;
    assert i == 255 * t + 116 * r;
  }
}
