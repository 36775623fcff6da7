/** The constants of SHA-256: the fractional parts of the roots of the first primes (sections 4.2.2 and 5.3.3 of
    FIPS 180-4). */
module Fips180Constants {
  import opened MachineWords
  import opened Powers
  import opened Sha256

  // The first primes.

  ghost predicate Prime(n: nat) { n >= 2 && forall d :: 2 <= d < n ==> n % d != 0 }

  /** How many primes are smaller than n. */
  ghost function PrimesBelow(n: nat): nat {
    if n == 0 then 0 else PrimesBelow(n - 1) + if Prime(n - 1) then 1 else 0
  }

  const FIRST_PRIMES: seq<nat> :=
    [2, 3, 5, 7, 11, 13, 17, 19, 23, 29, 31, 37, 41, 43, 47, 53]
    + [59, 61, 67, 71, 73, 79, 83, 89, 97, 101, 103, 107, 109, 113, 127, 131]
    + [137, 139, 149, 151, 157, 163, 167, 173, 179, 181, 191, 193, 197, 199, 211, 223]
    + [227, 229, 233, 239, 241, 251, 257, 263, 269, 271, 277, 281, 283, 293, 307, 311]

  /** One of the primes up to 17 is a proper divisor. */
  predicate Sieved(n: nat) {
    || (n > 2 && n % 2 == 0) || (n > 3 && n % 3 == 0) || (n > 5 && n % 5 == 0) || (n > 7 && n % 7 == 0)
    || (n > 11 && n % 11 == 0) || (n > 13 && n % 13 == 0) || (n > 17 && n % 17 == 0)
  }

  lemma DividesProduct(n: nat, d: nat, q: nat)
    requires d > 0 && q > 0 && n % d == 0 && d % q == 0
    ensures n % q == 0
  {
    DivMod(n, d);
    DivMod(d, q);
    Associate(n / d, d / q, q);
    QuotientUnique(n, q, n / d * (d / q), 0);
  }

  /** A divisor up to 18 has a prime divisor up to 17. */
  lemma SmallDivisor(n: nat, d: nat)
    requires 2 <= d <= 18 && d < n && n % d == 0
    ensures Sieved(n)
  {
    var q := if d % 2 == 0 then 2 else if d % 3 == 0 then 3 else if d % 5 == 0 then 5 else if d % 7 == 0 then 7 else d;
    DividesProduct(n, d, q);
  }

  /** Below 19 * 19 the primes up to 17 sieve out everything but the primes. */
  lemma SieveExact(n: nat)
    requires 2 <= n < 361
    ensures Prime(n) <==> !Sieved(n)
  {
    if !Prime(n) {
      var d :| 2 <= d < n && n % d == 0;
      DivMod(n, d);
      if d <= 18 {
        SmallDivisor(n, d);
      } else {
        var e := n / d;
        OtherDivisor(n, d, e);
        SmallDivisor(n, e);
      }
    }
  }

  lemma OtherDivisor(n: nat, d: nat, e: int)
    requires 19 <= d < n < 361 && n == e * d
    ensures 2 <= e <= 18 && e < n && n % e == 0
  {
    if e <= 1 {
      if e <= 0 { LessEqTimes(0, -e, d); Distribute(e, -e, d); }
    } else {
      if e >= 19 { LessEqTimes(19, e, d); }
      Commute(e, d);
      QuotientUnique(n, e, d, 0);
    }
  }

  predicate AllSieved(p: nat, q: nat)
    decreases q - p
  {
    p >= q || (Sieved(p) && AllSieved(p + 1, q))
  }

  lemma {:induction false} NoPrimeBetween(p: nat, q: nat)
    requires 2 <= p <= q < 361 && AllSieved(p, q)
    ensures PrimesBelow(q) == PrimesBelow(p)
    decreases q - p
  {
    hide Prime, Sieved;
    if p < q {
      SieveExact(p);
      NoPrimeBetween(p + 1, q);
    }
  }

  lemma NextPrime(p: nat, q: nat)
    requires 2 <= p < q < 361 && !Sieved(p) && AllSieved(p + 1, q)
    ensures Prime(p) && PrimesBelow(q) == PrimesBelow(p) + 1
  {
    hide Prime, Sieved;
    SieveExact(p);
    NoPrimeBetween(p + 1, q);
  }

  lemma Primes0()
    requires PrimesBelow(2) == 0
    ensures PrimesBelow(11) == 4
    ensures Prime(2) && PrimesBelow(2) == 0
    ensures Prime(3) && PrimesBelow(3) == 1
    ensures Prime(5) && PrimesBelow(5) == 2
    ensures Prime(7) && PrimesBelow(7) == 3
  {
    hide Prime, PrimesBelow;
    assert AllSieved(3, 3);
    NextPrime(2, 3);
    assert AllSieved(4, 5);
    NextPrime(3, 5);
    assert AllSieved(6, 7);
    NextPrime(5, 7);
    assert AllSieved(8, 11);
    NextPrime(7, 11);
  }

  lemma Primes1()
    requires PrimesBelow(11) == 4
    ensures PrimesBelow(23) == 8
    ensures Prime(11) && PrimesBelow(11) == 4
    ensures Prime(13) && PrimesBelow(13) == 5
    ensures Prime(17) && PrimesBelow(17) == 6
    ensures Prime(19) && PrimesBelow(19) == 7
  {
    hide Prime, PrimesBelow;
    assert AllSieved(12, 13);
    NextPrime(11, 13);
    assert AllSieved(14, 17);
    NextPrime(13, 17);
    assert AllSieved(18, 19);
    NextPrime(17, 19);
    assert AllSieved(20, 23);
    NextPrime(19, 23);
  }

  lemma Primes2()
    requires PrimesBelow(23) == 8
    ensures PrimesBelow(41) == 12
    ensures Prime(23) && PrimesBelow(23) == 8
    ensures Prime(29) && PrimesBelow(29) == 9
    ensures Prime(31) && PrimesBelow(31) == 10
    ensures Prime(37) && PrimesBelow(37) == 11
  {
    hide Prime, PrimesBelow;
    assert AllSieved(24, 29);
    NextPrime(23, 29);
    assert AllSieved(30, 31);
    NextPrime(29, 31);
    assert AllSieved(32, 37);
    NextPrime(31, 37);
    assert AllSieved(38, 41);
    NextPrime(37, 41);
  }

  lemma Primes3()
    requires PrimesBelow(41) == 12
    ensures PrimesBelow(59) == 16
    ensures Prime(41) && PrimesBelow(41) == 12
    ensures Prime(43) && PrimesBelow(43) == 13
    ensures Prime(47) && PrimesBelow(47) == 14
    ensures Prime(53) && PrimesBelow(53) == 15
  {
    hide Prime, PrimesBelow;
    assert AllSieved(42, 43);
    NextPrime(41, 43);
    assert AllSieved(44, 47);
    NextPrime(43, 47);
    assert AllSieved(48, 53);
    NextPrime(47, 53);
    assert AllSieved(54, 59);
    NextPrime(53, 59);
  }

  lemma Primes4()
    requires PrimesBelow(59) == 16
    ensures PrimesBelow(73) == 20
    ensures Prime(59) && PrimesBelow(59) == 16
    ensures Prime(61) && PrimesBelow(61) == 17
    ensures Prime(67) && PrimesBelow(67) == 18
    ensures Prime(71) && PrimesBelow(71) == 19
  {
    hide Prime, PrimesBelow;
    assert AllSieved(60, 61);
    NextPrime(59, 61);
    assert AllSieved(62, 67);
    NextPrime(61, 67);
    assert AllSieved(68, 71);
    NextPrime(67, 71);
    assert AllSieved(72, 73);
    NextPrime(71, 73);
  }

  lemma Primes5()
    requires PrimesBelow(73) == 20
    ensures PrimesBelow(97) == 24
    ensures Prime(73) && PrimesBelow(73) == 20
    ensures Prime(79) && PrimesBelow(79) == 21
    ensures Prime(83) && PrimesBelow(83) == 22
    ensures Prime(89) && PrimesBelow(89) == 23
  {
    hide Prime, PrimesBelow;
    assert AllSieved(74, 79);
    NextPrime(73, 79);
    assert AllSieved(80, 83);
    NextPrime(79, 83);
    assert AllSieved(84, 89);
    NextPrime(83, 89);
    assert AllSieved(90, 97);
    NextPrime(89, 97);
  }

  lemma Primes6()
    requires PrimesBelow(97) == 24
    ensures PrimesBelow(109) == 28
    ensures Prime(97) && PrimesBelow(97) == 24
    ensures Prime(101) && PrimesBelow(101) == 25
    ensures Prime(103) && PrimesBelow(103) == 26
    ensures Prime(107) && PrimesBelow(107) == 27
  {
    hide Prime, PrimesBelow;
    assert AllSieved(98, 101);
    NextPrime(97, 101);
    assert AllSieved(102, 103);
    NextPrime(101, 103);
    assert AllSieved(104, 107);
    NextPrime(103, 107);
    assert AllSieved(108, 109);
    NextPrime(107, 109);
  }

  lemma Primes7()
    requires PrimesBelow(109) == 28
    ensures PrimesBelow(137) == 32
    ensures Prime(109) && PrimesBelow(109) == 28
    ensures Prime(113) && PrimesBelow(113) == 29
    ensures Prime(127) && PrimesBelow(127) == 30
    ensures Prime(131) && PrimesBelow(131) == 31
  {
    hide Prime, PrimesBelow;
    assert AllSieved(110, 113);
    NextPrime(109, 113);
    assert AllSieved(114, 127);
    NextPrime(113, 127);
    assert AllSieved(128, 131);
    NextPrime(127, 131);
    assert AllSieved(132, 137);
    NextPrime(131, 137);
  }

  lemma Primes8()
    requires PrimesBelow(137) == 32
    ensures PrimesBelow(157) == 36
    ensures Prime(137) && PrimesBelow(137) == 32
    ensures Prime(139) && PrimesBelow(139) == 33
    ensures Prime(149) && PrimesBelow(149) == 34
    ensures Prime(151) && PrimesBelow(151) == 35
  {
    hide Prime, PrimesBelow;
    assert AllSieved(138, 139);
    NextPrime(137, 139);
    assert AllSieved(140, 149);
    NextPrime(139, 149);
    assert AllSieved(150, 151);
    NextPrime(149, 151);
    assert AllSieved(152, 157);
    NextPrime(151, 157);
  }

  lemma Primes9()
    requires PrimesBelow(157) == 36
    ensures PrimesBelow(179) == 40
    ensures Prime(157) && PrimesBelow(157) == 36
    ensures Prime(163) && PrimesBelow(163) == 37
    ensures Prime(167) && PrimesBelow(167) == 38
    ensures Prime(173) && PrimesBelow(173) == 39
  {
    hide Prime, PrimesBelow;
    assert AllSieved(158, 163);
    NextPrime(157, 163);
    assert AllSieved(164, 167);
    NextPrime(163, 167);
    assert AllSieved(168, 173);
    NextPrime(167, 173);
    assert AllSieved(174, 179);
    NextPrime(173, 179);
  }

  lemma Primes10()
    requires PrimesBelow(179) == 40
    ensures PrimesBelow(197) == 44
    ensures Prime(179) && PrimesBelow(179) == 40
    ensures Prime(181) && PrimesBelow(181) == 41
    ensures Prime(191) && PrimesBelow(191) == 42
    ensures Prime(193) && PrimesBelow(193) == 43
  {
    hide Prime, PrimesBelow;
    assert AllSieved(180, 181);
    NextPrime(179, 181);
    assert AllSieved(182, 191);
    NextPrime(181, 191);
    assert AllSieved(192, 193);
    NextPrime(191, 193);
    assert AllSieved(194, 197);
    NextPrime(193, 197);
  }

  lemma Primes11()
    requires PrimesBelow(197) == 44
    ensures PrimesBelow(227) == 48
    ensures Prime(197) && PrimesBelow(197) == 44
    ensures Prime(199) && PrimesBelow(199) == 45
    ensures Prime(211) && PrimesBelow(211) == 46
    ensures Prime(223) && PrimesBelow(223) == 47
  {
    hide Prime, PrimesBelow;
    assert AllSieved(198, 199);
    NextPrime(197, 199);
    assert AllSieved(200, 211);
    NextPrime(199, 211);
    assert AllSieved(212, 223);
    NextPrime(211, 223);
    assert AllSieved(224, 227);
    NextPrime(223, 227);
  }

  lemma Primes12()
    requires PrimesBelow(227) == 48
    ensures PrimesBelow(241) == 52
    ensures Prime(227) && PrimesBelow(227) == 48
    ensures Prime(229) && PrimesBelow(229) == 49
    ensures Prime(233) && PrimesBelow(233) == 50
    ensures Prime(239) && PrimesBelow(239) == 51
  {
    hide Prime, PrimesBelow;
    assert AllSieved(228, 229);
    NextPrime(227, 229);
    assert AllSieved(230, 233);
    NextPrime(229, 233);
    assert AllSieved(234, 239);
    NextPrime(233, 239);
    assert AllSieved(240, 241);
    NextPrime(239, 241);
  }

  lemma Primes13()
    requires PrimesBelow(241) == 52
    ensures PrimesBelow(269) == 56
    ensures Prime(241) && PrimesBelow(241) == 52
    ensures Prime(251) && PrimesBelow(251) == 53
    ensures Prime(257) && PrimesBelow(257) == 54
    ensures Prime(263) && PrimesBelow(263) == 55
  {
    hide Prime, PrimesBelow;
    assert AllSieved(242, 251);
    NextPrime(241, 251);
    assert AllSieved(252, 257);
    NextPrime(251, 257);
    assert AllSieved(258, 263);
    NextPrime(257, 263);
    assert AllSieved(264, 269);
    NextPrime(263, 269);
  }

  lemma Primes14()
    requires PrimesBelow(269) == 56
    ensures PrimesBelow(283) == 60
    ensures Prime(269) && PrimesBelow(269) == 56
    ensures Prime(271) && PrimesBelow(271) == 57
    ensures Prime(277) && PrimesBelow(277) == 58
    ensures Prime(281) && PrimesBelow(281) == 59
  {
    hide Prime, PrimesBelow;
    assert AllSieved(270, 271);
    NextPrime(269, 271);
    assert AllSieved(272, 277);
    NextPrime(271, 277);
    assert AllSieved(278, 281);
    NextPrime(277, 281);
    assert AllSieved(282, 283);
    NextPrime(281, 283);
  }

  lemma Primes15()
    requires PrimesBelow(283) == 60
    ensures PrimesBelow(313) == 64
    ensures Prime(283) && PrimesBelow(283) == 60
    ensures Prime(293) && PrimesBelow(293) == 61
    ensures Prime(307) && PrimesBelow(307) == 62
    ensures Prime(311) && PrimesBelow(311) == 63
  {
    hide Prime, PrimesBelow;
    assert AllSieved(284, 293);
    NextPrime(283, 293);
    assert AllSieved(294, 307);
    NextPrime(293, 307);
    assert AllSieved(308, 311);
    NextPrime(307, 311);
    assert AllSieved(312, 313);
    NextPrime(311, 313);
  }

  lemma AllPrimes()
    ensures Prime(2) && PrimesBelow(2) == 0
    ensures Prime(3) && PrimesBelow(3) == 1
    ensures Prime(5) && PrimesBelow(5) == 2
    ensures Prime(7) && PrimesBelow(7) == 3
    ensures Prime(11) && PrimesBelow(11) == 4
    ensures Prime(13) && PrimesBelow(13) == 5
    ensures Prime(17) && PrimesBelow(17) == 6
    ensures Prime(19) && PrimesBelow(19) == 7
    ensures Prime(23) && PrimesBelow(23) == 8
    ensures Prime(29) && PrimesBelow(29) == 9
    ensures Prime(31) && PrimesBelow(31) == 10
    ensures Prime(37) && PrimesBelow(37) == 11
    ensures Prime(41) && PrimesBelow(41) == 12
    ensures Prime(43) && PrimesBelow(43) == 13
    ensures Prime(47) && PrimesBelow(47) == 14
    ensures Prime(53) && PrimesBelow(53) == 15
    ensures Prime(59) && PrimesBelow(59) == 16
    ensures Prime(61) && PrimesBelow(61) == 17
    ensures Prime(67) && PrimesBelow(67) == 18
    ensures Prime(71) && PrimesBelow(71) == 19
    ensures Prime(73) && PrimesBelow(73) == 20
    ensures Prime(79) && PrimesBelow(79) == 21
    ensures Prime(83) && PrimesBelow(83) == 22
    ensures Prime(89) && PrimesBelow(89) == 23
    ensures Prime(97) && PrimesBelow(97) == 24
    ensures Prime(101) && PrimesBelow(101) == 25
    ensures Prime(103) && PrimesBelow(103) == 26
    ensures Prime(107) && PrimesBelow(107) == 27
    ensures Prime(109) && PrimesBelow(109) == 28
    ensures Prime(113) && PrimesBelow(113) == 29
    ensures Prime(127) && PrimesBelow(127) == 30
    ensures Prime(131) && PrimesBelow(131) == 31
    ensures Prime(137) && PrimesBelow(137) == 32
    ensures Prime(139) && PrimesBelow(139) == 33
    ensures Prime(149) && PrimesBelow(149) == 34
    ensures Prime(151) && PrimesBelow(151) == 35
    ensures Prime(157) && PrimesBelow(157) == 36
    ensures Prime(163) && PrimesBelow(163) == 37
    ensures Prime(167) && PrimesBelow(167) == 38
    ensures Prime(173) && PrimesBelow(173) == 39
    ensures Prime(179) && PrimesBelow(179) == 40
    ensures Prime(181) && PrimesBelow(181) == 41
    ensures Prime(191) && PrimesBelow(191) == 42
    ensures Prime(193) && PrimesBelow(193) == 43
    ensures Prime(197) && PrimesBelow(197) == 44
    ensures Prime(199) && PrimesBelow(199) == 45
    ensures Prime(211) && PrimesBelow(211) == 46
    ensures Prime(223) && PrimesBelow(223) == 47
    ensures Prime(227) && PrimesBelow(227) == 48
    ensures Prime(229) && PrimesBelow(229) == 49
    ensures Prime(233) && PrimesBelow(233) == 50
    ensures Prime(239) && PrimesBelow(239) == 51
    ensures Prime(241) && PrimesBelow(241) == 52
    ensures Prime(251) && PrimesBelow(251) == 53
    ensures Prime(257) && PrimesBelow(257) == 54
    ensures Prime(263) && PrimesBelow(263) == 55
    ensures Prime(269) && PrimesBelow(269) == 56
    ensures Prime(271) && PrimesBelow(271) == 57
    ensures Prime(277) && PrimesBelow(277) == 58
    ensures Prime(281) && PrimesBelow(281) == 59
    ensures Prime(283) && PrimesBelow(283) == 60
    ensures Prime(293) && PrimesBelow(293) == 61
    ensures Prime(307) && PrimesBelow(307) == 62
    ensures Prime(311) && PrimesBelow(311) == 63
  {
    hide Prime, PrimesBelow;
    NoneBelowTwo();
    Primes0();
    Primes1();
    Primes2();
    Primes3();
    Primes4();
    Primes5();
    Primes6();
    Primes7();
    Primes8();
    Primes9();
    Primes10();
    Primes11();
    Primes12();
    Primes13();
    Primes14();
    Primes15();
  }

  lemma NoneBelowTwo()
    ensures PrimesBelow(2) == 0
  {
    assert PrimesBelow(1) == 0 && !Prime(0) && !Prime(1);
  }

  // Their roots.

  /** k is the first 32 bits of the fractional part of the cube root of p: the root lies between q + k / 2^32 and
      q + (k + 1) / 2^32 for some whole q. */
  ghost predicate CubeRootFraction(p: nat, k: Word) {
    exists q: nat :: CubeRootAt(p, q * 0x1_0000_0000 + k)
  }

  predicate CubeRootAt(p: nat, v: nat) {
    v * v * v <= p * 0x1_0000_0000_0000_0000_0000_0000 < (v + 1) * (v + 1) * (v + 1)
  }

  ghost predicate SquareRootFraction(p: nat, k: Word) {
    exists q: nat :: SquareRootAt(p, q * 0x1_0000_0000 + k)
  }

  predicate SquareRootAt(p: nat, v: nat) {
    v * v <= p * 0x1_0000_0000_0000_0000 < (v + 1) * (v + 1)
  }

  lemma CubeRoots0()
    ensures CubeRootFraction(2, 0x428a2f98)
    ensures CubeRootFraction(3, 0x71374491)
    ensures CubeRootFraction(5, 0xb5c0fbcf)
    ensures CubeRootFraction(7, 0xe9b5dba5)
    ensures CubeRootFraction(11, 0x3956c25b)
    ensures CubeRootFraction(13, 0x59f111f1)
    ensures CubeRootFraction(17, 0x923f82a4)
    ensures CubeRootFraction(19, 0xab1c5ed5)
  {
    CubeRoot(2, 1, 0x428a2f98);
    CubeRoot(3, 1, 0x71374491);
    CubeRoot(5, 1, 0xb5c0fbcf);
    CubeRoot(7, 1, 0xe9b5dba5);
    CubeRoot(11, 2, 0x3956c25b);
    CubeRoot(13, 2, 0x59f111f1);
    CubeRoot(17, 2, 0x923f82a4);
    CubeRoot(19, 2, 0xab1c5ed5);
  }

  lemma CubeRoots1()
    ensures CubeRootFraction(23, 0xd807aa98)
    ensures CubeRootFraction(29, 0x12835b01)
    ensures CubeRootFraction(31, 0x243185be)
    ensures CubeRootFraction(37, 0x550c7dc3)
    ensures CubeRootFraction(41, 0x72be5d74)
    ensures CubeRootFraction(43, 0x80deb1fe)
    ensures CubeRootFraction(47, 0x9bdc06a7)
    ensures CubeRootFraction(53, 0xc19bf174)
  {
    CubeRoot(23, 2, 0xd807aa98);
    CubeRoot(29, 3, 0x12835b01);
    CubeRoot(31, 3, 0x243185be);
    CubeRoot(37, 3, 0x550c7dc3);
    CubeRoot(41, 3, 0x72be5d74);
    CubeRoot(43, 3, 0x80deb1fe);
    CubeRoot(47, 3, 0x9bdc06a7);
    CubeRoot(53, 3, 0xc19bf174);
  }

  lemma CubeRoots2()
    ensures CubeRootFraction(59, 0xe49b69c1)
    ensures CubeRootFraction(61, 0xefbe4786)
    ensures CubeRootFraction(67, 0x0fc19dc6)
    ensures CubeRootFraction(71, 0x240ca1cc)
    ensures CubeRootFraction(73, 0x2de92c6f)
    ensures CubeRootFraction(79, 0x4a7484aa)
    ensures CubeRootFraction(83, 0x5cb0a9dc)
    ensures CubeRootFraction(89, 0x76f988da)
  {
    CubeRoot(59, 3, 0xe49b69c1);
    CubeRoot(61, 3, 0xefbe4786);
    CubeRoot(67, 4, 0x0fc19dc6);
    CubeRoot(71, 4, 0x240ca1cc);
    CubeRoot(73, 4, 0x2de92c6f);
    CubeRoot(79, 4, 0x4a7484aa);
    CubeRoot(83, 4, 0x5cb0a9dc);
    CubeRoot(89, 4, 0x76f988da);
  }

  lemma CubeRoots3()
    ensures CubeRootFraction(97, 0x983e5152)
    ensures CubeRootFraction(101, 0xa831c66d)
    ensures CubeRootFraction(103, 0xb00327c8)
    ensures CubeRootFraction(107, 0xbf597fc7)
    ensures CubeRootFraction(109, 0xc6e00bf3)
    ensures CubeRootFraction(113, 0xd5a79147)
    ensures CubeRootFraction(127, 0x06ca6351)
    ensures CubeRootFraction(131, 0x14292967)
  {
    CubeRoot(97, 4, 0x983e5152);
    CubeRoot(101, 4, 0xa831c66d);
    CubeRoot(103, 4, 0xb00327c8);
    CubeRoot(107, 4, 0xbf597fc7);
    CubeRoot(109, 4, 0xc6e00bf3);
    CubeRoot(113, 4, 0xd5a79147);
    CubeRoot(127, 5, 0x06ca6351);
    CubeRoot(131, 5, 0x14292967);
  }

  lemma CubeRoots4()
    ensures CubeRootFraction(137, 0x27b70a85)
    ensures CubeRootFraction(139, 0x2e1b2138)
    ensures CubeRootFraction(149, 0x4d2c6dfc)
    ensures CubeRootFraction(151, 0x53380d13)
    ensures CubeRootFraction(157, 0x650a7354)
    ensures CubeRootFraction(163, 0x766a0abb)
    ensures CubeRootFraction(167, 0x81c2c92e)
    ensures CubeRootFraction(173, 0x92722c85)
  {
    CubeRoot(137, 5, 0x27b70a85);
    CubeRoot(139, 5, 0x2e1b2138);
    CubeRoot(149, 5, 0x4d2c6dfc);
    CubeRoot(151, 5, 0x53380d13);
    CubeRoot(157, 5, 0x650a7354);
    CubeRoot(163, 5, 0x766a0abb);
    CubeRoot(167, 5, 0x81c2c92e);
    CubeRoot(173, 5, 0x92722c85);
  }

  lemma CubeRoots5()
    ensures CubeRootFraction(179, 0xa2bfe8a1)
    ensures CubeRootFraction(181, 0xa81a664b)
    ensures CubeRootFraction(191, 0xc24b8b70)
    ensures CubeRootFraction(193, 0xc76c51a3)
    ensures CubeRootFraction(197, 0xd192e819)
    ensures CubeRootFraction(199, 0xd6990624)
    ensures CubeRootFraction(211, 0xf40e3585)
    ensures CubeRootFraction(223, 0x106aa070)
  {
    CubeRoot(179, 5, 0xa2bfe8a1);
    CubeRoot(181, 5, 0xa81a664b);
    CubeRoot(191, 5, 0xc24b8b70);
    CubeRoot(193, 5, 0xc76c51a3);
    CubeRoot(197, 5, 0xd192e819);
    CubeRoot(199, 5, 0xd6990624);
    CubeRoot(211, 5, 0xf40e3585);
    CubeRoot(223, 6, 0x106aa070);
  }

  lemma CubeRoots6()
    ensures CubeRootFraction(227, 0x19a4c116)
    ensures CubeRootFraction(229, 0x1e376c08)
    ensures CubeRootFraction(233, 0x2748774c)
    ensures CubeRootFraction(239, 0x34b0bcb5)
    ensures CubeRootFraction(241, 0x391c0cb3)
    ensures CubeRootFraction(251, 0x4ed8aa4a)
    ensures CubeRootFraction(257, 0x5b9cca4f)
    ensures CubeRootFraction(263, 0x682e6ff3)
  {
    CubeRoot(227, 6, 0x19a4c116);
    CubeRoot(229, 6, 0x1e376c08);
    CubeRoot(233, 6, 0x2748774c);
    CubeRoot(239, 6, 0x34b0bcb5);
    CubeRoot(241, 6, 0x391c0cb3);
    CubeRoot(251, 6, 0x4ed8aa4a);
    CubeRoot(257, 6, 0x5b9cca4f);
    CubeRoot(263, 6, 0x682e6ff3);
  }

  lemma CubeRoots7()
    ensures CubeRootFraction(269, 0x748f82ee)
    ensures CubeRootFraction(271, 0x78a5636f)
    ensures CubeRootFraction(277, 0x84c87814)
    ensures CubeRootFraction(281, 0x8cc70208)
    ensures CubeRootFraction(283, 0x90befffa)
    ensures CubeRootFraction(293, 0xa4506ceb)
    ensures CubeRootFraction(307, 0xbef9a3f7)
    ensures CubeRootFraction(311, 0xc67178f2)
  {
    CubeRoot(269, 6, 0x748f82ee);
    CubeRoot(271, 6, 0x78a5636f);
    CubeRoot(277, 6, 0x84c87814);
    CubeRoot(281, 6, 0x8cc70208);
    CubeRoot(283, 6, 0x90befffa);
    CubeRoot(293, 6, 0xa4506ceb);
    CubeRoot(307, 6, 0xbef9a3f7);
    CubeRoot(311, 6, 0xc67178f2);
  }

  lemma CubeRoot(p: nat, q: nat, k: Word)
    requires CubeRootAt(p, q * 0x1_0000_0000 + k)
    ensures CubeRootFraction(p, k)
  {
  }

  lemma SquareRoot(p: nat, q: nat, k: Word)
    requires SquareRootAt(p, q * 0x1_0000_0000 + k)
    ensures SquareRootFraction(p, k)
  {
  }

  /** FIRST_PRIMES[i] is the prime with i primes below it, and round constant i comes from its cube root. */
  ghost predicate RoundConstantOk(i: nat)
    requires i < 64
  {
    && |K| == 64 && Prime(FIRST_PRIMES[i]) && PrimesBelow(FIRST_PRIMES[i]) == i
    && CubeRootFraction(FIRST_PRIMES[i], K[i])
  }

  /** The same for the square root and a word of the initial hash value. */
  ghost predicate InitialWordOk(i: nat)
    requires i < 8
  {
    && |H_INIT| == 8 && Prime(FIRST_PRIMES[i]) && PrimesBelow(FIRST_PRIMES[i]) == i
    && SquareRootFraction(FIRST_PRIMES[i], H_INIT[i])
  }

  lemma Constants0(i: nat)
    requires 0 <= i < 8
    ensures RoundConstantOk(i)
  {
    hide Prime, PrimesBelow, CubeRootFraction;
    AllPrimes();
    CubeRoots0();
    if i == 0 { assert FIRST_PRIMES[0] == 2 && K[0] == 0x428a2f98; }
    else if i == 1 { assert FIRST_PRIMES[1] == 3 && K[1] == 0x71374491; }
    else if i == 2 { assert FIRST_PRIMES[2] == 5 && K[2] == 0xb5c0fbcf; }
    else if i == 3 { assert FIRST_PRIMES[3] == 7 && K[3] == 0xe9b5dba5; }
    else if i == 4 { assert FIRST_PRIMES[4] == 11 && K[4] == 0x3956c25b; }
    else if i == 5 { assert FIRST_PRIMES[5] == 13 && K[5] == 0x59f111f1; }
    else if i == 6 { assert FIRST_PRIMES[6] == 17 && K[6] == 0x923f82a4; }
    else if i == 7 { assert FIRST_PRIMES[7] == 19 && K[7] == 0xab1c5ed5; }
  }

  lemma Constants1(i: nat)
    requires 8 <= i < 16
    ensures RoundConstantOk(i)
  {
    hide Prime, PrimesBelow, CubeRootFraction;
    AllPrimes();
    CubeRoots1();
    if i == 8 { assert FIRST_PRIMES[8] == 23 && K[8] == 0xd807aa98; }
    else if i == 9 { assert FIRST_PRIMES[9] == 29 && K[9] == 0x12835b01; }
    else if i == 10 { assert FIRST_PRIMES[10] == 31 && K[10] == 0x243185be; }
    else if i == 11 { assert FIRST_PRIMES[11] == 37 && K[11] == 0x550c7dc3; }
    else if i == 12 { assert FIRST_PRIMES[12] == 41 && K[12] == 0x72be5d74; }
    else if i == 13 { assert FIRST_PRIMES[13] == 43 && K[13] == 0x80deb1fe; }
    else if i == 14 { assert FIRST_PRIMES[14] == 47 && K[14] == 0x9bdc06a7; }
    else if i == 15 { assert FIRST_PRIMES[15] == 53 && K[15] == 0xc19bf174; }
  }

  lemma Constants2(i: nat)
    requires 16 <= i < 24
    ensures RoundConstantOk(i)
  {
    hide Prime, PrimesBelow, CubeRootFraction;
    AllPrimes();
    CubeRoots2();
    if i == 16 { assert FIRST_PRIMES[16] == 59 && K[16] == 0xe49b69c1; }
    else if i == 17 { assert FIRST_PRIMES[17] == 61 && K[17] == 0xefbe4786; }
    else if i == 18 { assert FIRST_PRIMES[18] == 67 && K[18] == 0x0fc19dc6; }
    else if i == 19 { assert FIRST_PRIMES[19] == 71 && K[19] == 0x240ca1cc; }
    else if i == 20 { assert FIRST_PRIMES[20] == 73 && K[20] == 0x2de92c6f; }
    else if i == 21 { assert FIRST_PRIMES[21] == 79 && K[21] == 0x4a7484aa; }
    else if i == 22 { assert FIRST_PRIMES[22] == 83 && K[22] == 0x5cb0a9dc; }
    else if i == 23 { assert FIRST_PRIMES[23] == 89 && K[23] == 0x76f988da; }
  }

  lemma Constants3(i: nat)
    requires 24 <= i < 32
    ensures RoundConstantOk(i)
  {
    hide Prime, PrimesBelow, CubeRootFraction;
    AllPrimes();
    CubeRoots3();
    if i == 24 { assert FIRST_PRIMES[24] == 97 && K[24] == 0x983e5152; }
    else if i == 25 { assert FIRST_PRIMES[25] == 101 && K[25] == 0xa831c66d; }
    else if i == 26 { assert FIRST_PRIMES[26] == 103 && K[26] == 0xb00327c8; }
    else if i == 27 { assert FIRST_PRIMES[27] == 107 && K[27] == 0xbf597fc7; }
    else if i == 28 { assert FIRST_PRIMES[28] == 109 && K[28] == 0xc6e00bf3; }
    else if i == 29 { assert FIRST_PRIMES[29] == 113 && K[29] == 0xd5a79147; }
    else if i == 30 { assert FIRST_PRIMES[30] == 127 && K[30] == 0x06ca6351; }
    else if i == 31 { assert FIRST_PRIMES[31] == 131 && K[31] == 0x14292967; }
  }

  lemma Constants4(i: nat)
    requires 32 <= i < 40
    ensures RoundConstantOk(i)
  {
    hide Prime, PrimesBelow, CubeRootFraction;
    AllPrimes();
    CubeRoots4();
    if i == 32 { assert FIRST_PRIMES[32] == 137 && K[32] == 0x27b70a85; }
    else if i == 33 { assert FIRST_PRIMES[33] == 139 && K[33] == 0x2e1b2138; }
    else if i == 34 { assert FIRST_PRIMES[34] == 149 && K[34] == 0x4d2c6dfc; }
    else if i == 35 { assert FIRST_PRIMES[35] == 151 && K[35] == 0x53380d13; }
    else if i == 36 { assert FIRST_PRIMES[36] == 157 && K[36] == 0x650a7354; }
    else if i == 37 { assert FIRST_PRIMES[37] == 163 && K[37] == 0x766a0abb; }
    else if i == 38 { assert FIRST_PRIMES[38] == 167 && K[38] == 0x81c2c92e; }
    else if i == 39 { assert FIRST_PRIMES[39] == 173 && K[39] == 0x92722c85; }
  }

  lemma Constants5(i: nat)
    requires 40 <= i < 48
    ensures RoundConstantOk(i)
  {
    hide Prime, PrimesBelow, CubeRootFraction;
    AllPrimes();
    CubeRoots5();
    if i == 40 { assert FIRST_PRIMES[40] == 179 && K[40] == 0xa2bfe8a1; }
    else if i == 41 { assert FIRST_PRIMES[41] == 181 && K[41] == 0xa81a664b; }
    else if i == 42 { assert FIRST_PRIMES[42] == 191 && K[42] == 0xc24b8b70; }
    else if i == 43 { assert FIRST_PRIMES[43] == 193 && K[43] == 0xc76c51a3; }
    else if i == 44 { assert FIRST_PRIMES[44] == 197 && K[44] == 0xd192e819; }
    else if i == 45 { assert FIRST_PRIMES[45] == 199 && K[45] == 0xd6990624; }
    else if i == 46 { assert FIRST_PRIMES[46] == 211 && K[46] == 0xf40e3585; }
    else if i == 47 { assert FIRST_PRIMES[47] == 223 && K[47] == 0x106aa070; }
  }

  lemma Constants6(i: nat)
    requires 48 <= i < 56
    ensures RoundConstantOk(i)
  {
    hide Prime, PrimesBelow, CubeRootFraction;
    AllPrimes();
    CubeRoots6();
    if i == 48 { assert FIRST_PRIMES[48] == 227 && K[48] == 0x19a4c116; }
    else if i == 49 { assert FIRST_PRIMES[49] == 229 && K[49] == 0x1e376c08; }
    else if i == 50 { assert FIRST_PRIMES[50] == 233 && K[50] == 0x2748774c; }
    else if i == 51 { assert FIRST_PRIMES[51] == 239 && K[51] == 0x34b0bcb5; }
    else if i == 52 { assert FIRST_PRIMES[52] == 241 && K[52] == 0x391c0cb3; }
    else if i == 53 { assert FIRST_PRIMES[53] == 251 && K[53] == 0x4ed8aa4a; }
    else if i == 54 { assert FIRST_PRIMES[54] == 257 && K[54] == 0x5b9cca4f; }
    else if i == 55 { assert FIRST_PRIMES[55] == 263 && K[55] == 0x682e6ff3; }
  }

  lemma Constants7(i: nat)
    requires 56 <= i < 64
    ensures RoundConstantOk(i)
  {
    hide Prime, PrimesBelow, CubeRootFraction;
    AllPrimes();
    CubeRoots7();
    if i == 56 { assert FIRST_PRIMES[56] == 269 && K[56] == 0x748f82ee; }
    else if i == 57 { assert FIRST_PRIMES[57] == 271 && K[57] == 0x78a5636f; }
    else if i == 58 { assert FIRST_PRIMES[58] == 277 && K[58] == 0x84c87814; }
    else if i == 59 { assert FIRST_PRIMES[59] == 281 && K[59] == 0x8cc70208; }
    else if i == 60 { assert FIRST_PRIMES[60] == 283 && K[60] == 0x90befffa; }
    else if i == 61 { assert FIRST_PRIMES[61] == 293 && K[61] == 0xa4506ceb; }
    else if i == 62 { assert FIRST_PRIMES[62] == 307 && K[62] == 0xbef9a3f7; }
    else if i == 63 { assert FIRST_PRIMES[63] == 311 && K[63] == 0xc67178f2; }
  }

  lemma RoundConstants(i: nat)
    requires i < 64
    ensures RoundConstantOk(i)
  {
    hide RoundConstantOk;
    if i < 8 { Constants0(i); } else if i < 16 { Constants1(i); } else if i < 24 { Constants2(i); } else if i < 32 { Constants3(i); }
    else if i < 40 { Constants4(i); } else if i < 48 { Constants5(i); } else if i < 56 { Constants6(i); } else { Constants7(i); }
  }

  lemma InitialHash(i: nat)
    requires i < 8
    ensures InitialWordOk(i)
  {
    hide Prime, PrimesBelow, SquareRootFraction;
    AllPrimes();
    SquareRoots();
    if i == 0 { assert FIRST_PRIMES[0] == 2 && H_INIT[0] == 0x6a09e667; }
    else if i == 1 { assert FIRST_PRIMES[1] == 3 && H_INIT[1] == 0xbb67ae85; }
    else if i == 2 { assert FIRST_PRIMES[2] == 5 && H_INIT[2] == 0x3c6ef372; }
    else if i == 3 { assert FIRST_PRIMES[3] == 7 && H_INIT[3] == 0xa54ff53a; }
    else if i == 4 { assert FIRST_PRIMES[4] == 11 && H_INIT[4] == 0x510e527f; }
    else if i == 5 { assert FIRST_PRIMES[5] == 13 && H_INIT[5] == 0x9b05688c; }
    else if i == 6 { assert FIRST_PRIMES[6] == 17 && H_INIT[6] == 0x1f83d9ab; }
    else if i == 7 { assert FIRST_PRIMES[7] == 19 && H_INIT[7] == 0x5be0cd19; }
  }

  lemma SquareRoots()
    ensures SquareRootFraction(2, 0x6a09e667)
    ensures SquareRootFraction(3, 0xbb67ae85)
    ensures SquareRootFraction(5, 0x3c6ef372)
    ensures SquareRootFraction(7, 0xa54ff53a)
    ensures SquareRootFraction(11, 0x510e527f)
    ensures SquareRootFraction(13, 0x9b05688c)
    ensures SquareRootFraction(17, 0x1f83d9ab)
    ensures SquareRootFraction(19, 0x5be0cd19)
  {
    SquareRoot(2, 1, 0x6a09e667);
    SquareRoot(3, 1, 0xbb67ae85);
    SquareRoot(5, 2, 0x3c6ef372);
    SquareRoot(7, 2, 0xa54ff53a);
    SquareRoot(11, 3, 0x510e527f);
    SquareRoot(13, 3, 0x9b05688c);
    SquareRoot(17, 4, 0x1f83d9ab);
    SquareRoot(19, 4, 0x5be0cd19);
  }
}
