/** The multiplication tables of oaes_lib.c are multiplications in GF(2^8), and MixColumns is undone by
    InvMixColumns (sections 4.2, 5.1.3 and 5.3.3 of FIPS 197). */
module AesField {
  import opened AesTables

  /** Exclusive or, named so that proofs can keep it apart from the bits. */
  function Xor(x: bv8, y: bv8): bv8 { x ^ y }

  function Xor3(x: bv8, y: bv8, z: bv8): bv8 { Xor(Xor(x, y), z) }
  function Xor4(x: bv8, y: bv8, z: bv8, w: bv8): bv8 { Xor(Xor(Xor(x, y), z), w) }
  function Xor5(x: bv8, y: bv8, z: bv8, w: bv8, v: bv8): bv8 { Xor(Xor(Xor(Xor(x, y), z), w), v) }

  lemma XorTwice(x: bv8, k: bv8)
    ensures Xor(Xor(x, k), k) == x
  {
    assert Xor(x ^ k, k) == x;
  }

  // Addition in GF(2^8) is an abelian group in which every element is its own inverse.

  lemma Associates(x: bv8, y: bv8, z: bv8)
    ensures Xor(Xor(x, y), z) == Xor(x, Xor(y, z))
  {
    assert Xor(x ^ y, z) == x ^ y ^ z;
    assert Xor(x, y ^ z) == x ^ y ^ z;
  }

  lemma Commutes(x: bv8, y: bv8)
    ensures Xor(x, y) == Xor(y, x)
  {
  }

  /** x + (x + y) = y. */
  lemma Cancels(x: bv8, y: bv8)
    ensures Xor(x, Xor(x, y)) == y
  {
    assert Xor(x, x ^ y) == y;
  }

  lemma Exchange(x: bv8, y: bv8, z: bv8, w: bv8)
    ensures Xor(Xor(x, y), Xor(z, w)) == Xor(Xor(x, z), Xor(y, w))
    ensures Xor(Xor(x, y), Xor(z, w)) == Xor4(x, y, z, w)
  {
    hide Xor;
    Associates(Xor(x, y), z, w);
    Associates(x, y, z);
    Commutes(y, z);
    Associates(x, z, y);
    Associates(Xor(x, z), y, w);
  }

  lemma FrontSplit(x: bv8, y: bv8, z: bv8, w: bv8, v: bv8)
    ensures Xor3(x, y, z) == Xor(x, Xor(y, z))
    ensures Xor4(x, y, z, w) == Xor(x, Xor3(y, z, w))
    ensures Xor5(x, y, z, w, v) == Xor(Xor(x, y), Xor3(z, w, v))
  {
    hide Xor;
    Associates(x, y, z);
    Associates(x, Xor(y, z), w);
    Associates(Xor(x, y), z, w);
    Associates(Xor(x, y), Xor(z, w), v);
  }

  /** Multiplication by {02}: a shift, reduced by x^8 + x^4 + x^3 + x + 1 when the top bit falls out. */
  function Double(x: bv8): bv8 {
    var h := x >> 7;
    (x << 1) ^ h ^ (h << 1) ^ (h << 3) ^ (h << 4)
  }

  lemma DoubleReduces(x: bv8)
    ensures Double(x) == (x << 1) ^ (if x & 0x80 != 0 then 0x1b else 0)
  {
  }

  // {09}, {0b}, {0d} and {0e} as sums of powers of {02}.

  function Times9(x: bv8): bv8 { Xor(Double(Double(Double(x))), x) }
  function TimesB(x: bv8): bv8 { Xor3(Double(Double(Double(x))), Double(x), x) }
  function TimesD(x: bv8): bv8 { Xor3(Double(Double(Double(x))), Double(Double(x)), x) }
  function TimesE(x: bv8): bv8 { Xor3(Double(Double(Double(x))), Double(Double(x)), Double(x)) }

  lemma Table2(x: bv8)
    ensures Mul2(x) == Double(x)
  {
  }

  lemma Table3(x: bv8)
    ensures Mul3(x) == Xor(Double(x), x)
  {
  }

  lemma Table9(x: bv8)
    ensures Mul9(x) == Times9(x)
  {
  }

  lemma TableB(x: bv8)
    ensures MulB(x) == TimesB(x)
  {
  }

  lemma TableD(x: bv8)
    ensures MulD(x) == TimesD(x)
  {
  }

  lemma TableE(x: bv8)
    ensures MulE(x) == TimesE(x)
  {
  }

  lemma SubUndone(x: bv8)
    ensures InvSubByte(SubByte(x)) == x
  {
  }

  lemma DoubleOfXor(x: bv8, y: bv8)
    ensures Double(x ^ y) == Double(x) ^ Double(y)
  {
  }

  lemma DoubleLinear(x: bv8, y: bv8)
    ensures Double(Xor(x, y)) == Xor(Double(x), Double(y))
  {
    DoubleOfXor(x, y);
    hide Double;
  }

  /** One byte of a MixColumns column: {02}a + {03}b + c + d. */
  function Mixed(a: bv8, b: bv8, c: bv8, d: bv8): bv8 {
    Xor5(Double(a), Double(b), b, c, d)
  }

  /** One byte of an InvMixColumns column: {0e}a + {0b}b + {0d}c + {09}d. */
  function Unmixed(a: bv8, b: bv8, c: bv8, d: bv8): bv8 {
    Xor4(TimesE(a), TimesB(b), TimesD(c), Times9(d))
  }

  lemma DoubleOfFour(x: bv8, y: bv8, z: bv8, w: bv8)
    ensures Double(Xor4(x, y, z, w)) == Xor4(Double(x), Double(y), Double(z), Double(w))
  {
    hide Double, Xor;
    DoubleLinear(Xor3(x, y, z), w);
    DoubleLinear(Xor(x, y), z);
    DoubleLinear(x, y);
  }

  // {0e}p + {0b}q + {0d}r + {09}s = {08}(p + q + r + s) + {04}(p + r) + {02}(p + q) + (q + r + s).

  lemma ExchangeFour(x: bv8, y: bv8, z: bv8, w: bv8, k: bv8, l: bv8, m: bv8, n: bv8)
    ensures Xor4(Xor(x, k), Xor(y, l), Xor(z, m), Xor(w, n)) == Xor(Xor4(x, y, z, w), Xor4(k, l, m, n))
  {
    hide Xor, Xor4;
    Exchange(Xor(x, k), Xor(y, l), Xor(z, m), Xor(w, n));
    Exchange(x, k, y, l);
    Exchange(z, m, w, n);
    Exchange(Xor(x, y), Xor(k, l), Xor(z, w), Xor(m, n));
    Exchange(x, y, z, w);
    Exchange(k, l, m, n);
  }

  lemma LowTerms(p2: bv8, p4: bv8, q: bv8, q2: bv8, r: bv8, r4: bv8, s: bv8)
    ensures Xor4(Xor(p4, p2), Xor(q2, q), Xor(r4, r), s) == Xor3(Xor(p4, r4), Xor(p2, q2), Xor3(q, r, s))
  {
    hide Xor;
    // (p4 + p2) + (q2 + q) = (p4 + q) + (p2 + q2), then + (r4 + r)
    Commutes(q2, q);
    Exchange(p4, p2, q, q2);
    Associates(p4, q, r4);
    Commutes(q, r4);
    Associates(p4, r4, q);
    // ((p4 + r4) + q) + (r + (p2 + q2)) + s
    Exchange(Xor(p4, r4), q, Xor(p2, q2), r);
    Associates(Xor(Xor(p4, r4), Xor(p2, q2)), Xor(q, r), s);
    Exchange(Xor(p4, q), Xor(p2, q2), r4, r);
  }

  lemma Regrouped(p: bv8, p2: bv8, p4: bv8, p8: bv8, q: bv8, q2: bv8, q8: bv8, r: bv8, r4: bv8, r8: bv8, s: bv8, s8: bv8)
    ensures Xor4(Xor3(p8, p4, p2), Xor3(q8, q2, q), Xor3(r8, r4, r), Xor(s8, s)) ==
            Xor4(Xor4(p8, q8, r8, s8), Xor(p4, r4), Xor(p2, q2), Xor3(q, r, s))
  {
    hide Xor, Xor3, Xor4, Xor5;
    FrontSplit(p8, p4, p2, p, p);
    FrontSplit(q8, q2, q, q, q);
    FrontSplit(r8, r4, r, r, r);
    ExchangeFour(p8, q8, r8, s8, Xor(p4, p2), Xor(q2, q), Xor(r4, r), s);
    LowTerms(p2, p4, q, q2, r, r4, s);
    FrontSplit(Xor4(p8, q8, r8, s8), Xor(p4, r4), Xor(p2, q2), Xor3(q, r, s), p);
  }

  lemma UnmixedGrouped(p: bv8, q: bv8, r: bv8, s: bv8)
    ensures Unmixed(p, q, r, s) ==
            Xor4(Double(Double(Double(Xor4(p, q, r, s)))), Double(Double(Xor(p, r))), Double(Xor(p, q)), Xor3(q, r, s))
  {
    hide Double, Xor, Xor3, Xor4;
    var p2, q2, r2, s2 := Double(p), Double(q), Double(r), Double(s);
    var p4, q4, r4, s4 := Double(p2), Double(q2), Double(r2), Double(s2);
    DoubleOfFour(p, q, r, s);
    DoubleOfFour(p2, q2, r2, s2);
    DoubleOfFour(p4, q4, r4, s4);
    DoubleLinear(p, r);
    DoubleLinear(p2, r2);
    DoubleLinear(p, q);
    Regrouped(p, p2, p4, Double(p4), q, q2, Double(q4), r, r4, Double(r4), s, Double(s4));
  }

  // The three groups of a mixed column, with x1 standing for {02}x.

  lemma SharedTwo(a: bv8, b: bv8, c: bv8, d: bv8)
    ensures Xor(Xor3(b, c, d), Xor3(d, a, b)) == Xor(a, c)
  {
    hide Xor;
    // d + (b + c) and d + (a + b)
    Commutes(Xor(b, c), d);
    Associates(d, a, b);
    Commutes(a, b);
    Exchange(d, Xor(b, c), d, Xor(b, a));
    Exchange(b, c, b, a);
    Commutes(c, a);
    Nothing(d, Xor(Xor(b, b), Xor(a, c)));
    Nothing(b, Xor(a, c));
  }

  lemma Nothing(x: bv8, z: bv8)
    ensures Xor(Xor(x, x), z) == z
  {
    hide Xor;
    Associates(x, x, z);
    Cancels(x, z);
  }

  lemma SumOfOpposite(a: bv8, b: bv8, c: bv8, d: bv8, a1: bv8, b1: bv8, c1: bv8, d1: bv8)
    ensures Xor(Xor5(a1, b1, b, c, d), Xor5(c1, d1, d, a, b)) == Xor(Xor4(a1, b1, c1, d1), Xor(a, c))
  {
    hide Xor, Xor3, Xor4, Xor5;
    FrontSplit(a1, b1, b, c, d);
    FrontSplit(c1, d1, d, a, b);
    Exchange(Xor(a1, b1), Xor3(b, c, d), Xor(c1, d1), Xor3(d, a, b));
    Exchange(a1, b1, c1, d1);
    SharedTwo(a, b, c, d);
  }

  lemma SumOfNext(a: bv8, b: bv8, c: bv8, d: bv8, a1: bv8, b1: bv8, c1: bv8)
    ensures Xor(Xor5(a1, b1, b, c, d), Xor5(b1, c1, c, d, a)) == Xor(Xor(a1, c1), Xor(a, b))
  {
    hide Xor;
    hide Xor5;
    FrontSplit(a1, b1, b, c, d);
    FrontSplit(b1, c1, c, d, a);
    Exchange(Xor(a1, b1), Xor3(b, c, d), Xor(b1, c1), Xor3(c, d, a));
    // (a1 + b1) + (b1 + c1)
    Associates(a1, b1, Xor(b1, c1));
    Cancels(b1, c1);
    // (b + c + d) + (c + d + a)
    Associates(b, c, d);
    Associates(b, Xor(c, d), Xor(Xor(c, d), a));
    Cancels(Xor(c, d), a);
    Commutes(a, b);
  }

  lemma SumOfFour(a: bv8, b: bv8, c: bv8, d: bv8, a1: bv8, b1: bv8, c1: bv8, d1: bv8)
    ensures Xor4(Xor5(a1, b1, b, c, d), Xor5(b1, c1, c, d, a), Xor5(c1, d1, d, a, b), Xor5(d1, a1, a, b, c)) == Xor4(a, b, c, d)
  {
    hide Xor, Xor3, Xor4, Xor5;
    var p, q, r, s := Xor5(a1, b1, b, c, d), Xor5(b1, c1, c, d, a), Xor5(c1, d1, d, a, b), Xor5(d1, a1, a, b, c);
    Exchange(p, q, r, s);
    SumOfOpposite(a, b, c, d, a1, b1, c1, d1);
    SumOfOpposite(b, c, d, a, b1, c1, d1, a1);
    Rotated(a1, b1, c1, d1);
    Exchange(Xor4(a1, b1, c1, d1), Xor(a, c), Xor4(a1, b1, c1, d1), Xor(b, d));
    Nothing(Xor4(a1, b1, c1, d1), Xor(Xor(a, c), Xor(b, d)));
    Exchange(a, b, c, d);
  }

  lemma Rotated(a: bv8, b: bv8, c: bv8, d: bv8)
    ensures Xor4(b, c, d, a) == Xor4(a, b, c, d)
  {
    hide Xor;
    FrontSplit(a, b, c, d, d);
    Commutes(a, Xor3(b, c, d));
  }

  lemma SumOfThree(a: bv8, b: bv8, c: bv8, d: bv8, a1: bv8, b1: bv8, c1: bv8, d1: bv8)
    ensures Xor3(Xor5(b1, c1, c, d, a), Xor5(c1, d1, d, a, b), Xor5(d1, a1, a, b, c)) == Xor3(a1, b1, a)
  {
    hide Xor, Xor3, Xor4, Xor5;
    // q + r + s = p + (p + q + r + s), and p + (a + b + c + d) = {02}a + {02}b + a
    var p, q, r, s := Xor5(a1, b1, b, c, d), Xor5(b1, c1, c, d, a), Xor5(c1, d1, d, a, b), Xor5(d1, a1, a, b, c);
    SumOfFour(a, b, c, d, a1, b1, c1, d1);
    FrontSplit(p, q, r, s, s);
    Cancels(p, Xor3(q, r, s));
    FrontSplit(a1, b1, b, c, d);
    FrontSplit(a, b, c, d, d);
    FrontSplit(a1, b1, a, a, a);
    Commutes(a, Xor3(b, c, d));
    Associates(Xor(a1, b1), Xor3(b, c, d), Xor(Xor3(b, c, d), a));
    Cancels(Xor3(b, c, d), a);
    Associates(a1, b1, a);
  }

  lemma Telescopes(x: bv8, y: bv8, z: bv8, a: bv8)
    ensures Xor4(x, Xor(x, y), Xor(y, z), Xor(z, a)) == a
  {
    hide Xor;
    Cancels(x, y);
    Cancels(y, z);
    Cancels(z, a);
  }

  /** The four bytes of a mixed column, recombined by the first row of the inverse matrix, give back the first byte;
      rotating the column gives the other three rows. */
  lemma MixUndone(a: bv8, b: bv8, c: bv8, d: bv8)
    ensures Unmixed(Mixed(a, b, c, d), Mixed(b, c, d, a), Mixed(c, d, a, b), Mixed(d, a, b, c)) == a
  {
    hide Double, Xor, Xor5, Xor4, Unmixed;
    var a1, b1, c1, d1 := Double(a), Double(b), Double(c), Double(d);
    var total := Xor4(a, b, c, d);
    UnmixedGrouped(Mixed(a, b, c, d), Mixed(b, c, d, a), Mixed(c, d, a, b), Mixed(d, a, b, c));
    SumOfFour(a, b, c, d, a1, b1, c1, d1);
    SumOfOpposite(a, b, c, d, a1, b1, c1, d1);
    SumOfNext(a, b, c, d, a1, b1, c1);
    SumOfThree(a, b, c, d, a1, b1, c1, d1);
    DoubleOfFour(a, b, c, d);
    DoubleLinear(Double(total), Xor(a, c));
    DoubleLinear(Double(Double(total)), Double(Xor(a, c)));
    DoubleLinear(a, c);
    DoubleLinear(Xor(a1, c1), Xor(a, b));
    DoubleLinear(a, b);
    Telescopes(Double(Double(Double(total))), Double(Double(Xor(a, c))), Double(Xor(a, b)), a);
  }

  // The other way round, by columns: each byte of an unmixed column takes part with its own sum of multiples.

  lemma OwnSum(x: bv8)
    ensures Xor5(Double(TimesE(x)), Double(Times9(x)), Times9(x), TimesD(x), TimesB(x)) == x
  {
  }

  lemma SecondSum(x: bv8)
    ensures Xor5(Double(TimesB(x)), Double(TimesE(x)), TimesE(x), Times9(x), TimesD(x)) == 0
  {
    SecondFour(x);
    hide Double, Xor, TimesB, TimesE, Times9, TimesD;
    Same(TimesD(x));
  }

  lemma SecondFour(x: bv8)
    ensures Xor4(Double(TimesB(x)), Double(TimesE(x)), TimesE(x), Times9(x)) == TimesD(x)
  {
  }

  lemma ThirdSum(x: bv8)
    ensures Xor5(Double(TimesD(x)), Double(TimesB(x)), TimesB(x), TimesE(x), Times9(x)) == 0
  {
    ThirdFour(x);
    hide Double, Xor, TimesB, TimesE, Times9, TimesD;
    Same(Times9(x));
  }

  lemma ThirdFour(x: bv8)
    ensures Xor4(Double(TimesD(x)), Double(TimesB(x)), TimesB(x), TimesE(x)) == Times9(x)
  {
  }

  lemma FourthSum(x: bv8)
    ensures Xor5(Double(Times9(x)), Double(TimesD(x)), TimesD(x), TimesB(x), TimesE(x)) == 0
  {
    FourthFour(x);
    hide Double, Xor, TimesB, TimesE, Times9, TimesD;
    Same(TimesE(x));
  }

  lemma FourthFour(x: bv8)
    ensures Xor4(Double(Times9(x)), Double(TimesD(x)), TimesD(x), TimesB(x)) == TimesE(x)
  {
  }

  lemma Same(x: bv8)
    ensures Xor(x, x) == 0
  {
  }

  lemma ExchangeFive(x: seq<bv8>, y: seq<bv8>, z: seq<bv8>, w: seq<bv8>, v: seq<bv8>)
    requires |x| == |y| == |z| == |w| == |v| == 4
    ensures Xor5(Xor4(x[0], x[1], x[2], x[3]), Xor4(y[0], y[1], y[2], y[3]), Xor4(z[0], z[1], z[2], z[3]),
                 Xor4(w[0], w[1], w[2], w[3]), Xor4(v[0], v[1], v[2], v[3])) ==
            Xor4(Xor5(x[0], y[0], z[0], w[0], v[0]), Xor5(x[1], y[1], z[1], w[1], v[1]),
                 Xor5(x[2], y[2], z[2], w[2], v[2]), Xor5(x[3], y[3], z[3], w[3], v[3]))
  {
    hide Xor, Xor4;
    ExchangeFour(x[0], x[1], x[2], x[3], y[0], y[1], y[2], y[3]);
    ExchangeFour(Xor(x[0], y[0]), Xor(x[1], y[1]), Xor(x[2], y[2]), Xor(x[3], y[3]), z[0], z[1], z[2], z[3]);
    ExchangeFour(Xor(Xor(x[0], y[0]), z[0]), Xor(Xor(x[1], y[1]), z[1]), Xor(Xor(x[2], y[2]), z[2]), Xor(Xor(x[3], y[3]), z[3]),
                 w[0], w[1], w[2], w[3]);
    ExchangeFour(Xor(Xor(Xor(x[0], y[0]), z[0]), w[0]), Xor(Xor(Xor(x[1], y[1]), z[1]), w[1]),
                 Xor(Xor(Xor(x[2], y[2]), z[2]), w[2]), Xor(Xor(Xor(x[3], y[3]), z[3]), w[3]), v[0], v[1], v[2], v[3]);
  }

  lemma ZerosAdded(x: bv8)
    ensures Xor4(x, 0, 0, 0) == x
  {
  }

  /** Mixing undoes unmixing as well. */
  lemma UnmixUndone(a: bv8, b: bv8, c: bv8, d: bv8)
    ensures Mixed(Unmixed(a, b, c, d), Unmixed(b, c, d, a), Unmixed(c, d, a, b), Unmixed(d, a, b, c)) == a
  {
    hide Double, Xor, Xor4, Xor5, Times9, TimesB, TimesD, TimesE;
    Rotated(Times9(a), TimesE(b), TimesB(c), TimesD(d));
    Rotated(Times9(b), TimesE(c), TimesB(d), TimesD(a));
    Rotated(TimesD(a), Times9(b), TimesE(c), TimesB(d));
    Rotated(Times9(c), TimesE(d), TimesB(a), TimesD(b));
    Rotated(TimesD(b), Times9(c), TimesE(d), TimesB(a));
    Rotated(TimesB(a), TimesD(b), Times9(c), TimesE(d));
    DoubleOfFour(TimesE(a), TimesB(b), TimesD(c), Times9(d));
    DoubleOfFour(Times9(a), TimesE(b), TimesB(c), TimesD(d));
    ExchangeFive([Double(TimesE(a)), Double(TimesB(b)), Double(TimesD(c)), Double(Times9(d))],
                 [Double(Times9(a)), Double(TimesE(b)), Double(TimesB(c)), Double(TimesD(d))],
                 [Times9(a), TimesE(b), TimesB(c), TimesD(d)],
                 [TimesD(a), Times9(b), TimesE(c), TimesB(d)],
                 [TimesB(a), TimesD(b), Times9(c), TimesE(d)]);
    OwnSum(a);
    SecondSum(b);
    ThirdSum(c);
    FourthSum(d);
    ZerosAdded(a);
  }

  lemma InvSubUndone(y: bv8)
    ensures SubByte(InvSubByte(y)) == y
  {
    hide SubByte, InvSubByte;
    if y < 0x80 { LowUndone(y); } else { HighUndone(y); }
  }

  lemma LowUndone(y: bv8)
    requires y < 0x80
    ensures SubByte(InvSubByte(y)) == y
  {
  }

  lemma HighUndone(y: bv8)
    requires y >= 0x80
    ensures SubByte(InvSubByte(y)) == y
  {
  }
}
