/** The field modulus p = 2^31 - 1 of utils.cpp and the facts about it that
    the field operations need: it is prime, every non-zero residue has an
    inverse, and Fermat's little theorem holds. Primality is established by a
    Lucas certificate: 7 has multiplicative order exactly p - 1. */
module Modulus {
  import opened Arith

  /** The prime modulus (utils.cpp:7). */
  const P: nat := 2147483647
  /** The order of the multiplicative group, p - 1. */
  const N: nat := P - 1
  /** A generator of the multiplicative group. */
  const G: nat := 7
  /** The prime factors of N = 2 * 3^2 * 7 * 11 * 31 * 151 * 331. */
  const Factors: seq<nat> := [2, 3, 7, 11, 31, 151, 331]

  /** Square-and-multiply power modulo P, recursing on the exponent's bits.
      The modulus is written out as a numeral so that the certificates below
      stay linear arithmetic on numerals. */
  function ExpMod(b: nat, e: nat): nat
    decreases e
  {
    if e == 0 then 1
    else if e % 2 == 0 then ExpMod(b * b % 2147483647, e / 2)
    else b * ExpMod(b * b % 2147483647, e / 2) % 2147483647
  }

  lemma ExpTwo(b: int)
    ensures Exp(b, 2) == b * b
  {
    assert Exp(b, 1) == b;
  }

  /** Square-and-multiply computes the power reduced modulo P. */
  lemma {:induction false} ExpModIsExp(b: nat, e: nat)
    ensures ExpMod(b, e) == Exp(b, e) % P
    decreases e
  {
    if e > 0 {
      var h, b2 := e / 2, b * b % P;
      ExpModIsExp(b2, h);
      SquarePower(b, h);
      if e % 2 == 1 {
        OddPower(b, h, ExpMod(b2, h));
        assert e == 2 * h + 1;
      } else {
        assert e == 2 * h;
      }
    }
  }

  /** Squaring the base modulo P doubles the exponent. */
  lemma SquarePower(b: nat, h: nat)
    ensures Exp(b * b % P, h) % P == Exp(b, 2 * h) % P
  {
    ExpTwo(b);
    ExpMul(b, 2, h);
    ExpModBase(b * b, h, P);
  }

  /** One more factor b on a reduced even power. */
  lemma OddPower(b: nat, h: nat, w: nat)
    requires w == Exp(b, 2 * h) % P
    ensures b * w % P == Exp(b, 2 * h + 1) % P
  {
    assert Exp(b, 2 * h + 1) == b * Exp(b, 2 * h);
    ModOfMod(Exp(b, 2 * h), P);
    ModMulLeft(b, Exp(b, 2 * h), w, P);
  }

  /** One square-and-multiply step, with every value given explicitly. */
  lemma ExpModStep(b: nat, e: nat, b2: nat, e2: nat, w: nat, v: nat)
    requires e > 0 && b2 == b * b % 2147483647 && e2 == e / 2
    requires ExpMod(b2, e2) == w
    requires v == if e % 2 == 0 then w else b * w % 2147483647
    ensures ExpMod(b, e) == v
  {
  }

  /** Computed step by step: 7^2147483646 modulo P is one. */
  lemma ChainFull()
    ensures ExpMod(7, 2147483646) == 1
  {
    ExpModStep(2147483640, 1, 49, 0, 1, 2147483640);
    ExpModStep(2053169806, 3, 2147483640, 1, 2147483640, 660196887);
    ExpModStep(2003390340, 7, 2053169806, 3, 660196887, 1577859730);
    ExpModStep(826843884, 15, 2003390340, 7, 1577859730, 2140958617);
    ExpModStep(1967570846, 31, 826843884, 15, 2140958617, 1603374598);
    ExpModStep(2094564678, 63, 1967570846, 31, 1603374598, 1524407899);
    ExpModStep(365438676, 127, 2094564678, 63, 1524407899, 1002630046);
    ExpModStep(138288726, 255, 365438676, 127, 1002630046, 1865734753);
    ExpModStep(511252559, 511, 138288726, 255, 1865734753, 1981486130);
    ExpModStep(151543255, 1023, 511252559, 511, 1981486130, 1928970160);
    ExpModStep(885699688, 2047, 151543255, 1023, 1928970160, 8989071);
    ExpModStep(446794602, 4095, 885699688, 2047, 8989071, 1533502402);
    ExpModStep(954354495, 8191, 446794602, 4095, 1533502402, 1921922730);
    ExpModStep(1064954231, 16383, 954354495, 8191, 1921922730, 352664911);
    ExpModStep(118315438, 32767, 1064954231, 16383, 352664911, 1661705550);
    ExpModStep(1405977407, 65535, 118315438, 32767, 1661705550, 1403596379);
    ExpModStep(1049638675, 131071, 1405977407, 65535, 1403596379, 1419260552);
    ExpModStep(1632702277, 262143, 1049638675, 131071, 1419260552, 2102689626);
    ExpModStep(330997682, 524287, 1632702277, 262143, 2102689626, 1754183841);
    ExpModStep(714812675, 1048575, 330997682, 524287, 1754183841, 644418832);
    ExpModStep(1181505519, 2097151, 714812675, 1048575, 644418832, 124098587);
    ExpModStep(1992759719, 4194303, 1181505519, 2097151, 124098587, 1962608195);
    ExpModStep(784826772, 8388607, 1992759719, 4194303, 1962608195, 840756396);
    ExpModStep(505181450, 16777215, 784826772, 8388607, 840756396, 1139131990);
    ExpModStep(254926356, 33554431, 505181450, 16777215, 1139131990, 410481593);
    ExpModStep(1565515858, 67108863, 254926356, 33554431, 410481593, 1483866096);
    ExpModStep(621132276, 134217727, 1565515858, 67108863, 1483866096, 2011253164);
    ExpModStep(5764801, 268435455, 621132276, 134217727, 2011253164, 1735013605);
    ExpModStep(2401, 536870911, 5764801, 268435455, 1735013605, 1796874072);
    ExpModStep(49, 1073741823, 2401, 536870911, 1796874072, 1);
    ExpModStep(7, 2147483646, 49, 1073741823, 1, 1);
  }

  lemma CertificateFull()
    ensures Exp(G, 2147483646) % P == 1
  {
    ChainFull();
    ExpModIsExp(7, 2147483646);
  }

  /** Computed step by step: 7^1073741823 modulo P for N / 2 is not one. */
  lemma Chain2()
    ensures ExpMod(7, 1073741823) == 2147483646
  {
    ExpModStep(2053169806, 1, 2147483640, 0, 1, 2053169806);
    ExpModStep(2003390340, 3, 2053169806, 1, 2053169806, 1615291736);
    ExpModStep(826843884, 7, 2003390340, 3, 1615291736, 1841632416);
    ExpModStep(1967570846, 15, 826843884, 7, 1841632416, 1918430133);
    ExpModStep(2094564678, 31, 1967570846, 15, 1918430133, 1929711090);
    ExpModStep(365438676, 63, 2094564678, 31, 1929711090, 1390684027);
    ExpModStep(138288726, 127, 365438676, 63, 1390684027, 40249842);
    ExpModStep(511252559, 255, 138288726, 127, 40249842, 23713931);
    ExpModStep(151543255, 511, 511252559, 255, 23713931, 1258349725);
    ExpModStep(885699688, 1023, 151543255, 511, 1258349725, 2146199494);
    ExpModStep(446794602, 2047, 885699688, 1023, 2146199494, 1314845119);
    ExpModStep(954354495, 4095, 446794602, 2047, 1314845119, 1872923257);
    ExpModStep(1064954231, 8191, 954354495, 4095, 1872923257, 1176752811);
    ExpModStep(118315438, 16383, 1064954231, 8191, 1176752811, 69396871);
    ExpModStep(1405977407, 32767, 118315438, 16383, 69396871, 719836366);
    ExpModStep(1049638675, 65535, 1405977407, 32767, 719836366, 717598627);
    ExpModStep(1632702277, 131071, 1049638675, 65535, 717598627, 313182524);
    ExpModStep(330997682, 262143, 1632702277, 131071, 313182524, 976535821);
    ExpModStep(714812675, 524287, 330997682, 262143, 976535821, 214723545);
    ExpModStep(1181505519, 1048575, 714812675, 524287, 214723545, 1209405143);
    ExpModStep(1992759719, 2097151, 1181505519, 1048575, 1209405143, 333194157);
    ExpModStep(784826772, 4194303, 1992759719, 2097151, 333194157, 1107025456);
    ExpModStep(505181450, 8388607, 784826772, 4194303, 1107025456, 757616993);
    ExpModStep(254926356, 16777215, 505181450, 8388607, 757616993, 1168493285);
    ExpModStep(1565515858, 33554431, 254926356, 16777215, 1168493285, 1628719398);
    ExpModStep(621132276, 67108863, 1565515858, 33554431, 1628719398, 939811632);
    ExpModStep(5764801, 134217727, 621132276, 67108863, 939811632, 672491048);
    ExpModStep(2401, 268435455, 5764801, 134217727, 672491048, 1890787351);
    ExpModStep(49, 536870911, 2401, 268435455, 1890787351, 306783378);
    ExpModStep(7, 1073741823, 49, 536870911, 306783378, 2147483646);
  }

  lemma Certificate2()
    ensures Exp(G, 1073741823) % P == 2147483646
  {
    Chain2();
    ExpModIsExp(7, 1073741823);
  }

  /** Computed step by step: 7^715827882 modulo P for N / 3 is not one. */
  lemma Chain3()
    ensures ExpMod(7, 715827882) == 1513477735
  {
    ExpModStep(2053169806, 1, 2147483640, 0, 1, 2053169806);
    ExpModStep(2003390340, 2, 2053169806, 1, 2053169806, 2053169806);
    ExpModStep(826843884, 5, 2003390340, 2, 2053169806, 901595110);
    ExpModStep(1967570846, 10, 826843884, 5, 901595110, 901595110);
    ExpModStep(2094564678, 21, 1967570846, 10, 901595110, 174863387);
    ExpModStep(365438676, 42, 2094564678, 21, 174863387, 174863387);
    ExpModStep(138288726, 85, 365438676, 42, 174863387, 631930165);
    ExpModStep(511252559, 170, 138288726, 85, 631930165, 631930165);
    ExpModStep(151543255, 341, 511252559, 170, 631930165, 1526455189);
    ExpModStep(885699688, 682, 151543255, 341, 1526455189, 1526455189);
    ExpModStep(446794602, 1365, 885699688, 682, 1526455189, 975556399);
    ExpModStep(954354495, 2730, 446794602, 1365, 975556399, 975556399);
    ExpModStep(1064954231, 5461, 954354495, 2730, 975556399, 204608415);
    ExpModStep(118315438, 10922, 1064954231, 5461, 204608415, 204608415);
    ExpModStep(1405977407, 21845, 118315438, 10922, 204608415, 1806450318);
    ExpModStep(1049638675, 43690, 1405977407, 21845, 1806450318, 1806450318);
    ExpModStep(1632702277, 87381, 1049638675, 43690, 1806450318, 132244870);
    ExpModStep(330997682, 174762, 1632702277, 87381, 132244870, 132244870);
    ExpModStep(714812675, 349525, 330997682, 174762, 132244870, 1136651315);
    ExpModStep(1181505519, 699050, 714812675, 349525, 1136651315, 1136651315);
    ExpModStep(1992759719, 1398101, 1181505519, 699050, 1136651315, 1288134649);
    ExpModStep(784826772, 2796202, 1992759719, 1398101, 1288134649, 1288134649);
    ExpModStep(505181450, 5592405, 784826772, 2796202, 1288134649, 1576163593);
    ExpModStep(254926356, 11184810, 505181450, 5592405, 1576163593, 1576163593);
    ExpModStep(1565515858, 22369621, 254926356, 11184810, 1576163593, 684464586);
    ExpModStep(621132276, 44739242, 1565515858, 22369621, 684464586, 684464586);
    ExpModStep(5764801, 89478485, 621132276, 44739242, 684464586, 644454057);
    ExpModStep(2401, 178956970, 5764801, 89478485, 644454057, 644454057);
    ExpModStep(49, 357913941, 2401, 178956970, 644454057, 1513477735);
    ExpModStep(7, 715827882, 49, 357913941, 1513477735, 1513477735);
  }

  lemma Certificate3()
    ensures Exp(G, 715827882) % P == 1513477735
  {
    Chain3();
    ExpModIsExp(7, 715827882);
  }

  /** Computed step by step: 7^306783378 modulo P for N / 7 is not one. */
  lemma Chain7()
    ensures ExpMod(7, 306783378) == 1205362885
  {
    ExpModStep(2003390340, 1, 2053169806, 0, 1, 2003390340);
    ExpModStep(826843884, 2, 2003390340, 1, 2003390340, 2003390340);
    ExpModStep(1967570846, 4, 826843884, 2, 2003390340, 2003390340);
    ExpModStep(2094564678, 9, 1967570846, 4, 2003390340, 1492342059);
    ExpModStep(365438676, 18, 2094564678, 9, 1492342059, 1492342059);
    ExpModStep(138288726, 36, 365438676, 18, 1492342059, 1492342059);
    ExpModStep(511252559, 73, 138288726, 36, 1492342059, 596868902);
    ExpModStep(151543255, 146, 511252559, 73, 596868902, 596868902);
    ExpModStep(885699688, 292, 151543255, 146, 596868902, 596868902);
    ExpModStep(446794602, 585, 885699688, 292, 596868902, 728310741);
    ExpModStep(954354495, 1170, 446794602, 585, 728310741, 728310741);
    ExpModStep(1064954231, 2340, 954354495, 1170, 728310741, 728310741);
    ExpModStep(118315438, 4681, 1064954231, 2340, 728310741, 908111571);
    ExpModStep(1405977407, 9362, 118315438, 4681, 908111571, 908111571);
    ExpModStep(1049638675, 18724, 1405977407, 9362, 908111571, 908111571);
    ExpModStep(1632702277, 37449, 1049638675, 18724, 908111571, 1844938622);
    ExpModStep(330997682, 74898, 1632702277, 37449, 1844938622, 1844938622);
    ExpModStep(714812675, 149796, 330997682, 74898, 1844938622, 1844938622);
    ExpModStep(1181505519, 299593, 714812675, 149796, 1844938622, 583779105);
    ExpModStep(1992759719, 599186, 1181505519, 299593, 583779105, 583779105);
    ExpModStep(784826772, 1198372, 1992759719, 599186, 583779105, 583779105);
    ExpModStep(505181450, 2396745, 784826772, 1198372, 583779105, 971977321);
    ExpModStep(254926356, 4793490, 505181450, 2396745, 971977321, 971977321);
    ExpModStep(1565515858, 9586980, 254926356, 4793490, 971977321, 971977321);
    ExpModStep(621132276, 19173961, 1565515858, 9586980, 971977321, 1295558952);
    ExpModStep(5764801, 38347922, 621132276, 19173961, 1295558952, 1295558952);
    ExpModStep(2401, 76695844, 5764801, 38347922, 1295558952, 1295558952);
    ExpModStep(49, 153391689, 2401, 76695844, 1295558952, 1205362885);
    ExpModStep(7, 306783378, 49, 153391689, 1205362885, 1205362885);
  }

  lemma Certificate7()
    ensures Exp(G, 306783378) % P == 1205362885
  {
    Chain7();
    ExpModIsExp(7, 306783378);
  }

  /** Computed step by step: 7^195225786 modulo P for N / 11 is not one. */
  lemma Chain11()
    ensures ExpMod(7, 195225786) == 1969212174
  {
    ExpModStep(826843884, 1, 2003390340, 0, 1, 826843884);
    ExpModStep(1967570846, 2, 826843884, 1, 826843884, 826843884);
    ExpModStep(2094564678, 5, 1967570846, 2, 826843884, 766698560);
    ExpModStep(365438676, 11, 2094564678, 5, 766698560, 2144162771);
    ExpModStep(138288726, 23, 365438676, 11, 2144162771, 1814150621);
    ExpModStep(511252559, 46, 138288726, 23, 1814150621, 1814150621);
    ExpModStep(151543255, 93, 511252559, 46, 1814150621, 1306078806);
    ExpModStep(885699688, 186, 151543255, 93, 1306078806, 1306078806);
    ExpModStep(446794602, 372, 885699688, 186, 1306078806, 1306078806);
    ExpModStep(954354495, 744, 446794602, 372, 1306078806, 1306078806);
    ExpModStep(1064954231, 1489, 954354495, 744, 1306078806, 308402708);
    ExpModStep(118315438, 2978, 1064954231, 1489, 308402708, 308402708);
    ExpModStep(1405977407, 5957, 118315438, 2978, 308402708, 1119477221);
    ExpModStep(1049638675, 11915, 1405977407, 5957, 1119477221, 1239736393);
    ExpModStep(1632702277, 23831, 1049638675, 11915, 1239736393, 740030539);
    ExpModStep(330997682, 47662, 1632702277, 23831, 740030539, 740030539);
    ExpModStep(714812675, 95325, 330997682, 47662, 740030539, 554745531);
    ExpModStep(1181505519, 190650, 714812675, 95325, 554745531, 554745531);
    ExpModStep(1992759719, 381300, 1181505519, 190650, 554745531, 554745531);
    ExpModStep(784826772, 762600, 1992759719, 381300, 554745531, 554745531);
    ExpModStep(505181450, 1525201, 784826772, 762600, 554745531, 1074671847);
    ExpModStep(254926356, 3050402, 505181450, 1525201, 1074671847, 1074671847);
    ExpModStep(1565515858, 6100805, 254926356, 3050402, 1074671847, 542184074);
    ExpModStep(621132276, 12201611, 1565515858, 6100805, 542184074, 1001801473);
    ExpModStep(5764801, 24403223, 621132276, 12201611, 1001801473, 1311147713);
    ExpModStep(2401, 48806446, 5764801, 24403223, 1311147713, 1311147713);
    ExpModStep(49, 97612893, 2401, 48806446, 1311147713, 1969212174);
    ExpModStep(7, 195225786, 49, 97612893, 1969212174, 1969212174);
  }

  lemma Certificate11()
    ensures Exp(G, 195225786) % P == 1969212174
  {
    Chain11();
    ExpModIsExp(7, 195225786);
  }

  /** Computed step by step: 7^69273666 modulo P for N / 31 is not one. */
  lemma Chain31()
    ensures ExpMod(7, 69273666) == 512
  {
    ExpModStep(1967570846, 1, 826843884, 0, 1, 1967570846);
    ExpModStep(2094564678, 2, 1967570846, 1, 1967570846, 1967570846);
    ExpModStep(365438676, 4, 2094564678, 2, 1967570846, 1967570846);
    ExpModStep(138288726, 8, 365438676, 4, 1967570846, 1967570846);
    ExpModStep(511252559, 16, 138288726, 8, 1967570846, 1967570846);
    ExpModStep(151543255, 33, 511252559, 16, 1967570846, 1161688977);
    ExpModStep(885699688, 66, 151543255, 33, 1161688977, 1161688977);
    ExpModStep(446794602, 132, 885699688, 66, 1161688977, 1161688977);
    ExpModStep(954354495, 264, 446794602, 132, 1161688977, 1161688977);
    ExpModStep(1064954231, 528, 954354495, 264, 1161688977, 1161688977);
    ExpModStep(118315438, 1057, 1064954231, 528, 1161688977, 677202406);
    ExpModStep(1405977407, 2114, 118315438, 1057, 677202406, 677202406);
    ExpModStep(1049638675, 4228, 1405977407, 2114, 677202406, 677202406);
    ExpModStep(1632702277, 8456, 1049638675, 4228, 677202406, 677202406);
    ExpModStep(330997682, 16912, 1632702277, 8456, 677202406, 677202406);
    ExpModStep(714812675, 33825, 330997682, 16912, 677202406, 1724307226);
    ExpModStep(1181505519, 67650, 714812675, 33825, 1724307226, 1724307226);
    ExpModStep(1992759719, 135300, 1181505519, 67650, 1724307226, 1724307226);
    ExpModStep(784826772, 270600, 1992759719, 135300, 1724307226, 1724307226);
    ExpModStep(505181450, 541200, 784826772, 270600, 1724307226, 1724307226);
    ExpModStep(254926356, 1082401, 505181450, 541200, 1724307226, 876523948);
    ExpModStep(1565515858, 2164802, 254926356, 1082401, 876523948, 876523948);
    ExpModStep(621132276, 4329604, 1565515858, 2164802, 876523948, 876523948);
    ExpModStep(5764801, 8659208, 621132276, 4329604, 876523948, 876523948);
    ExpModStep(2401, 17318416, 5764801, 8659208, 876523948, 876523948);
    ExpModStep(49, 34636833, 2401, 17318416, 876523948, 512);
    ExpModStep(7, 69273666, 49, 34636833, 512, 512);
  }

  lemma Certificate31()
    ensures Exp(G, 69273666) % P == 512
  {
    Chain31();
    ExpModIsExp(7, 69273666);
  }

  /** Computed step by step: 7^14221746 modulo P for N / 151 is not one. */
  lemma Chain151()
    ensures ExpMod(7, 14221746) == 535044134
  {
    ExpModStep(138288726, 1, 365438676, 0, 1, 138288726);
    ExpModStep(511252559, 3, 138288726, 1, 138288726, 1251985391);
    ExpModStep(151543255, 6, 511252559, 3, 1251985391, 1251985391);
    ExpModStep(885699688, 13, 151543255, 6, 1251985391, 383409062);
    ExpModStep(446794602, 27, 885699688, 13, 383409062, 173295333);
    ExpModStep(954354495, 54, 446794602, 27, 173295333, 173295333);
    ExpModStep(1064954231, 108, 954354495, 54, 173295333, 173295333);
    ExpModStep(118315438, 217, 1064954231, 108, 173295333, 790658130);
    ExpModStep(1405977407, 434, 118315438, 217, 790658130, 790658130);
    ExpModStep(1049638675, 868, 1405977407, 434, 790658130, 790658130);
    ExpModStep(1632702277, 1736, 1049638675, 868, 790658130, 790658130);
    ExpModStep(330997682, 3472, 1632702277, 1736, 790658130, 790658130);
    ExpModStep(714812675, 6944, 330997682, 3472, 790658130, 790658130);
    ExpModStep(1181505519, 13888, 714812675, 6944, 790658130, 790658130);
    ExpModStep(1992759719, 27776, 1181505519, 13888, 790658130, 790658130);
    ExpModStep(784826772, 55553, 1992759719, 27776, 790658130, 241455692);
    ExpModStep(505181450, 111107, 784826772, 55553, 241455692, 1429907804);
    ExpModStep(254926356, 222214, 505181450, 111107, 1429907804, 1429907804);
    ExpModStep(1565515858, 444429, 254926356, 222214, 1429907804, 243306007);
    ExpModStep(621132276, 888859, 1565515858, 444429, 243306007, 1457183765);
    ExpModStep(5764801, 1777718, 621132276, 888859, 1457183765, 1457183765);
    ExpModStep(2401, 3555436, 5764801, 1777718, 1457183765, 1457183765);
    ExpModStep(49, 7110873, 2401, 3555436, 1457183765, 535044134);
    ExpModStep(7, 14221746, 49, 7110873, 535044134, 535044134);
  }

  lemma Certificate151()
    ensures Exp(G, 14221746) % P == 535044134
  {
    Chain151();
    ExpModIsExp(7, 14221746);
  }

  /** Computed step by step: 7^6487866 modulo P for N / 331 is not one. */
  lemma Chain331()
    ensures ExpMod(7, 6487866) == 1761855083
  {
    ExpModStep(511252559, 1, 138288726, 0, 1, 511252559);
    ExpModStep(151543255, 3, 511252559, 1, 511252559, 556179191);
    ExpModStep(885699688, 6, 151543255, 3, 556179191, 556179191);
    ExpModStep(446794602, 12, 885699688, 6, 556179191, 556179191);
    ExpModStep(954354495, 24, 446794602, 12, 556179191, 556179191);
    ExpModStep(1064954231, 49, 954354495, 24, 556179191, 198330632);
    ExpModStep(118315438, 98, 1064954231, 49, 198330632, 198330632);
    ExpModStep(1405977407, 197, 118315438, 98, 198330632, 524576571);
    ExpModStep(1049638675, 395, 1405977407, 197, 524576571, 1857663689);
    ExpModStep(1632702277, 791, 1049638675, 395, 1857663689, 1213124450);
    ExpModStep(330997682, 1583, 1632702277, 791, 1213124450, 938684328);
    ExpModStep(714812675, 3167, 330997682, 1583, 938684328, 1687271107);
    ExpModStep(1181505519, 6335, 714812675, 3167, 1687271107, 213824777);
    ExpModStep(1992759719, 12671, 1181505519, 6335, 213824777, 1541970894);
    ExpModStep(784826772, 25343, 1992759719, 12671, 1541970894, 464894403);
    ExpModStep(505181450, 50686, 784826772, 25343, 464894403, 464894403);
    ExpModStep(254926356, 101372, 505181450, 50686, 464894403, 464894403);
    ExpModStep(1565515858, 202745, 254926356, 101372, 464894403, 555775014);
    ExpModStep(621132276, 405491, 1565515858, 202745, 555775014, 1395722031);
    ExpModStep(5764801, 810983, 621132276, 405491, 1395722031, 1175437345);
    ExpModStep(2401, 1621966, 5764801, 810983, 1175437345, 1175437345);
    ExpModStep(49, 3243933, 2401, 1621966, 1175437345, 1761855083);
    ExpModStep(7, 6487866, 49, 3243933, 1761855083, 1761855083);
  }

  lemma Certificate331()
    ensures Exp(G, 6487866) % P == 1761855083
  {
    Chain331();
    ExpModIsExp(7, 6487866);
  }

  lemma GeneratorOrder()
    ensures Exp(G, N) % P == 1
  {
    CertificateFull();
  }

  /** For every prime factor q of N, 7^(N/q) is not 1 modulo P. */
  lemma GeneratorNotOneBelow(q: nat)
    requires q in Factors
    ensures Exp(G, N / q) % P != 1
  {
    var e := N / q;
    if q == 2 {
      Certificate2();
      assert e == 1073741823;
    }
    else if q == 3 {
      Certificate3();
      assert e == 715827882;
    }
    else if q == 7 {
      Certificate7();
      assert e == 306783378;
    }
    else if q == 11 {
      Certificate11();
      assert e == 195225786;
    }
    else if q == 31 {
      Certificate31();
      assert e == 69273666;
    }
    else if q == 151 {
      Certificate151();
      assert e == 14221746;
    }
    else {
      Certificate331();
      assert e == 6487866;
    }
  }

  /** A composite number has a divisor d > 1 with d * d <= n. */
  lemma SmallDivisor(n: nat, g: int) returns (d: nat)
    requires Divides(g, n) && 1 < g < n
    ensures Divides(d, n) && 1 < d && d * d <= n
  {
    var h := n / g;
    assert n == g * h;
    if g * g <= n {
      d := g;
    } else {
      if h <= 1 {
        MulLe(h, 1, g);
        assert false;
      }
      if h >= g {
        MulLe(g, h, g);
        assert false;
      }
      MulLe(h, g, h);
      assert n == h * g;
      ModMultipleAdd(g, 0, h);
      d := h;
    }
  }

  /** Each listed factor of N is prime. */
  lemma FactorIsPrime(q: nat, g: int)
    requires q in Factors && Divides(g, q)
    ensures g == 1 || g == q
  {
    DividesLe(g, q);
    if 1 < g < q {
      var d := SmallDivisor(q, g);
      if d >= 19 {
        MulLe(19, d, d);
        assert false;
      }
      FactorsTrialDivided();
      NoDivisorBetween(q, 2, d);
      assert false;
    }
  }

  /** No k in from..18 with k * k <= q divides q: trial division of q. */
  predicate NoDivisorFrom(q: nat, from: nat)
    requires from >= 2
    decreases 19 - from
  {
    from >= 19 || from * from > q || (q % from != 0 && NoDivisorFrom(q, from + 1))
  }

  lemma FactorsTrialDivided()
    ensures forall q :: q in Factors ==> NoDivisorFrom(q, 2)
  {
    assert NoDivisorFrom(2, 2);
    assert NoDivisorFrom(3, 2);
    assert NoDivisorFrom(7, 2);
    assert NoDivisorFrom(11, 2);
    assert NoDivisorFrom(31, 2);
    assert NoDivisorFrom(151, 2);
    assert NoDivisorFrom(331, 18);
    assert NoDivisorFrom(331, 16);
    assert NoDivisorFrom(331, 13);
    assert NoDivisorFrom(331, 10);
    assert NoDivisorFrom(331, 2);
  }

  lemma {:induction false} NoDivisorBetween(q: nat, from: nat, d: nat)
    requires 2 <= from <= d < 19 && d * d <= q && NoDivisorFrom(q, from)
    ensures q % d != 0
    decreases d - from
  {
    MulLe(from, d, from);
    MulLe(from, d, d);
    if from < d {
      NoDivisorBetween(q, from + 1, d);
    }
  }

  /** A divisor h > 1 of q * r, with q a listed prime, shares q or divides r. */
  lemma Peel(h: nat, q: nat, r: nat)
    requires h > 1 && q in Factors && Divides(h, q * r)
    ensures Divides(q, h) || Divides(h, r)
  {
    GcdDivides(h, q);
    var g := Gcd(h, q);
    FactorIsPrime(q, g);
    if g == 1 {
      CoprimeDivides(h, q, r);
    }
  }

  /** Every divisor h > 1 of N has one of the listed primes as a factor. */
  lemma FactorOfDivisor(h: nat) returns (q: nat)
    requires h > 1 && Divides(h, N)
    ensures q in Factors && Divides(q, h)
  {
    assert N == 2 * 1073741823;
    Peel(h, 2, 1073741823);
    if Divides(2, h) { return 2; }
    assert 1073741823 == 3 * 357913941;
    Peel(h, 3, 357913941);
    if Divides(3, h) { return 3; }
    assert 357913941 == 3 * 119304647;
    Peel(h, 3, 119304647);
    assert 119304647 == 7 * 17043521;
    Peel(h, 7, 17043521);
    if Divides(7, h) { return 7; }
    assert 17043521 == 11 * 1549411;
    Peel(h, 11, 1549411);
    if Divides(11, h) { return 11; }
    assert 1549411 == 31 * 49981;
    Peel(h, 31, 49981);
    if Divides(31, h) { return 31; }
    assert 49981 == 151 * 331;
    Peel(h, 151, 331);
    if Divides(151, h) { return 151; }
    assert 331 == 331 * 1;
    Peel(h, 331, 1);
    if Divides(331, h) { return 331; }
    DividesLe(h, 1);
    assert false;
  }

  /** A proper divisor e of N divides N / q for some prime factor q of N. */
  lemma ProperDivisor(e: nat) returns (q: nat)
    requires Divides(e, N) && e < N
    ensures q in Factors && Divides(e, N / q)
  {
    var h := N / e;
    assert N == h * e;
    if h <= 1 {
      assert false;
    }
    ModMultipleAdd(e, 0, h);
    q := FactorOfDivisor(h);
    var k := h / q;
    assert h == k * q;
    assert N == (e * k) * q;
    DivModUnique(N, q, e * k, 0);
    ModMultipleAdd(k, 0, e);
  }

  lemma OneAtMultiple(e: nat, k: nat)
    requires Exp(G, e) % P == 1
    ensures Exp(G, e * k) % P == 1
  {
    ExpMul(G, e, k);
    ExpModBase(Exp(G, e), k, P);
    ExpOne(k);
  }

  /** The exponents x with 7^x == 1 are closed under gcd. */
  lemma {:induction false} OneAtGcd(a: nat, b: nat)
    requires Exp(G, a) % P == 1 && Exp(G, b) % P == 1
    ensures Exp(G, Gcd(a, b)) % P == 1
    decreases b
  {
    if b > 0 {
      assert a == b * (a / b) + a % b;
      ExpAdd(G, b * (a / b), a % b);
      OneAtMultiple(b, a / b);
      ModMulRight(Exp(G, b * (a / b)), 1, Exp(G, a % b), P);
      OneAtGcd(b, a % b);
    }
  }

  /** 7^(N - i) is an inverse of 7^i. */
  lemma PowerHasInverse(i: nat)
    requires i <= N
    ensures (Exp(G, N - i) * Exp(G, i)) % P == 1
  {
    ExpAdd(G, N - i, i);
    GeneratorOrder();
  }

  lemma PowerNonzero(i: nat)
    requires i <= N
    ensures Exp(G, i) % P != 0
  {
    PowerHasInverse(i);
    if Exp(G, i) % P == 0 {
      ModMulLeft(Exp(G, N - i), Exp(G, i), 0, P);
      assert false;
    }
  }

  /** 7 has no smaller positive order than N. */
  lemma NotOneBelowOrder(d: nat)
    requires 0 < d < N
    ensures Exp(G, d) % P != 1
  {
    if Exp(G, d) % P == 1 {
      GeneratorOrder();
      OneAtGcd(d, N);
      GcdDivides(d, N);
      var e := Gcd(d, N);
      DividesLe(e, d);
      var q := ProperDivisor(e);
      var k := (N / q) / e;
      Quotient(e, N / q);
      OneAtMultiple(e, k);
      GeneratorNotOneBelow(q);
    }
  }

  /** Equal powers 7^i and 7^j make 7^(j - i) equal to 1. */
  lemma EqualPowers(i: nat, j: nat)
    requires i < j <= N && Exp(G, i) % P == Exp(G, j) % P
    ensures Exp(G, j - i) % P == 1
  {
    var d := j - i;
    var u := Exp(G, N - i);
    var a, b, c := Exp(G, i), Exp(G, j), Exp(G, d);
    ExpAdd(G, i, d);
    assert b == a * c;
    PowerHasInverse(i);
    ModMulLeft(u, a, b, P);
    assert u * b == (u * a) * c;
    ModMulRight(u * a, 1, c, P);
  }

  /** The powers 7^0, ..., 7^(N-1) are pairwise distinct modulo P. */
  lemma PowersDistinct(i: nat, j: nat)
    requires i < j < N
    ensures Exp(G, i) % P != Exp(G, j) % P
  {
    if Exp(G, i) % P == Exp(G, j) % P {
      EqualPowers(i, j);
      NotOneBelowOrder(j - i);
    }
  }

  ghost function Powers(n: nat): set<int>
  {
    set i | 0 <= i < n :: Exp(G, i) % P
  }

  predicate InRange(x: int, lo: int, hi: int)
  {
    lo <= x < hi
  }

  ghost function Residues(n: nat): set<int>
  {
    set x | 1 <= x < n && InRange(x, 1, n)
  }

  lemma {:induction false} CardPowers(n: nat)
    requires n <= N
    ensures |Powers(n)| == n
  {
    if n == 0 {
      assert Powers(0) == {};
    } else {
      CardPowers(n - 1);
      PowersSnoc(n);
      NewPower(n);
    }
  }

  lemma PowersSnoc(n: nat)
    requires n > 0
    ensures Powers(n) == Powers(n - 1) + {Exp(G, n - 1) % P}
  {
  }

  lemma NewPower(n: nat)
    requires 0 < n <= N
    ensures Exp(G, n - 1) % P !in Powers(n - 1)
  {
    var x := Exp(G, n - 1) % P;
    if x in Powers(n - 1) {
      var i :| 0 <= i < n - 1 && Exp(G, i) % P == x;
      PowersDistinct(i, n - 1);
      assert false;
    }
  }

  lemma SubsetCard(a: set<int>, b: set<int>)
    requires a <= b
    ensures |a| <= |b|
  {
    assert b == a + (b - a);
    assert a * (b - a) == {};
  }

  lemma {:induction false} CardResidues(n: nat)
    requires n >= 1
    ensures |Residues(n)| == n - 1
  {
    if n == 1 {
      assert Residues(1) == {};
    } else {
      CardResidues(n - 1);
      assert Residues(n) == Residues(n - 1) + {n - 1};
    }
  }

  /** Every non-zero residue is a power of 7. */
  lemma PowersCover(x: int) returns (i: nat)
    requires 1 <= x < P
    ensures i < N && Exp(G, i) % P == x
  {
    CardPowers(N);
    CardResidues(P);
    forall y | y in Powers(N)
      ensures y in Residues(P)
    {
      var j :| 0 <= j < N && Exp(G, j) % P == y;
      PowerNonzero(j);
    }
    if x !in Powers(N) {
      var rest := Residues(P) - {x};
      assert Powers(N) <= rest;
      assert InRange(x, 1, P);
      assert Residues(P) == rest + {x};
      SubsetCard(Powers(N), rest);
      assert false;
    }
    i :| 0 <= i < N && Exp(G, i) % P == x;
  }

  /** Fermat's little theorem for P. */
  lemma Fermat(x: int)
    requires x % P != 0
    ensures Exp(x, N) % P == 1
  {
    var i := PowersCover(x % P);
    ExpModBase(x, N, P);
    ExpModBase(Exp(G, i), N, P);
    ExpMul(G, i, N);
    assert i * N == N * i;
    ExpMul(G, N, i);
    GeneratorOrder();
    ExpModBase(Exp(G, N), i, P);
    ExpOne(i);
  }

  /** Every non-zero residue has a multiplicative inverse. */
  lemma InverseExists(x: int) returns (y: nat)
    requires x % P != 0
    ensures y < P && (x * y) % P == 1
  {
    Fermat(x);
    y := Exp(x, N - 1) % P;
    assert Exp(x, N) == x * Exp(x, N - 1);
    ModOfMod(Exp(x, N - 1), P);
    ModMulLeft(x, Exp(x, N - 1), y, P);
  }

  /** y is the inverse of x among the residues 0 .. P - 1. */
  predicate IsInverse(x: int, y: int)
  {
    0 <= y < P && (x * y) % P == 1
  }

  lemma HasInverse(x: int)
    requires x % P != 0
    ensures exists y :: IsInverse(x, y)
  {
    var y := InverseExists(x);
    assert IsInverse(x, y);
  }

  /** The inverse of a non-zero residue. */
  ghost function Inv(x: int): (y: nat)
    requires x % P != 0
    ensures y < P && (x * y) % P == 1
  {
    HasInverse(x);
    var y :| IsInverse(x, y); y
  }

  /** The inverse is unique among residues. */
  lemma InvUnique(x: int, y: nat)
    requires x % P != 0 && y < P && (x * y) % P == 1
    ensures y == Inv(x)
  {
    var z := Inv(x);
    ModMulLeft(y, x * z, 1, P);
    ModMulRight(x * y, 1, z, P);
    Rotate(x, y, z);
    MulAssoc(x, y, z);
    assert y * (x * z) == (x * y) * z;
    SmallMod(y, P);
    SmallMod(z, P);
  }

  /** P has no zero divisors. */
  lemma NoZeroDivisors(a: int, b: int)
    requires (a * b) % P == 0
    ensures a % P == 0 || b % P == 0
  {
    if a % P != 0 {
      var y := Inv(a);
      ModMulLeft(y, a * b, 0, P);
      ModMulRight(y * a, 1, b, P);
      assert y * (a * b) == (y * a) * b;
    }
  }
}
