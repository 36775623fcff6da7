/** Keccak as FIPS 202 writes it, on lanes in columns and rows, and the proof that c_keccak.c computes it. */
module Fips202 {
  import opened Powers
  import opened Keccak

  // Round constants, section 3.2.5.

  /** The shift register of algorithm 5 after t steps, with R[i] as bit i. */
  function Register(t: nat): bv8 {
    if t == 0 then 1 else Shifted(Register(t - 1))
  }

  function Shifted(r: bv8): bv8 { (r << 1) ^ (if r & 0x80 != 0 then 0x71 else 0) }

  function Rc(t: nat): Lane { (Register(t) & 1) as bv64 }

  /** Bit 2^j - 1 of the round constant is rc(j + 7 n), and all other bits are zero. */
  function StdConstant(n: nat): Lane {
    Rc(7 * n) | (Rc(7 * n + 1) << 1) | (Rc(7 * n + 2) << 3) | (Rc(7 * n + 3) << 7)
    | (Rc(7 * n + 4) << 15) | (Rc(7 * n + 5) << 31) | (Rc(7 * n + 6) << 63)
  }

  /** The constant whose first bit the register r gives, and the register seven steps on. */
  function ConstantFrom(r: bv8): Lane {
    var r1 := Shifted(r);
    var r2 := Shifted(r1);
    var r3 := Shifted(r2);
    var r4 := Shifted(r3);
    var r5 := Shifted(r4);
    var r6 := Shifted(r5);
    (r & 1) as bv64 | ((r1 & 1) as bv64 << 1) | ((r2 & 1) as bv64 << 3) | ((r3 & 1) as bv64 << 7)
    | ((r4 & 1) as bv64 << 15) | ((r5 & 1) as bv64 << 31) | ((r6 & 1) as bv64 << 63)
  }

  function SevenOn(r: bv8): bv8 { Shifted(Shifted(Shifted(Shifted(Shifted(Shifted(Shifted(r))))))) }

  lemma RegisterNext(t: nat)
    ensures Register(0) == 1 && Register(t + 1) == Shifted(Register(t))
  {
    hide Shifted;
  }

  lemma SevenSteps(n: nat)
    ensures StdConstant(n) == ConstantFrom(Register(7 * n)) && Register(7 * (n + 1)) == SevenOn(Register(7 * n))
  {
    hide Shifted, Register;
    RegisterNext(7 * n);
    RegisterNext(7 * n + 1);
    RegisterNext(7 * n + 2);
    RegisterNext(7 * n + 3);
    RegisterNext(7 * n + 4);
    RegisterNext(7 * n + 5);
    RegisterNext(7 * n + 6);
  }

  /** Each register with its constant and its successor. */
  lemma Constants()
    ensures ConstantFrom(0x01) == 0x0000000000000001 && SevenOn(0x01) == 0x80
    ensures ConstantFrom(0x80) == 0x0000000000008082 && SevenOn(0x80) == 0xd8
    ensures ConstantFrom(0xd8) == 0x800000000000808a && SevenOn(0xd8) == 0x1a
    ensures ConstantFrom(0x1a) == 0x8000000080008000 && SevenOn(0x1a) == 0xdf
    ensures ConstantFrom(0xdf) == 0x000000000000808b && SevenOn(0xdf) == 0x09
    ensures ConstantFrom(0x09) == 0x0000000080000001 && SevenOn(0x09) == 0x35
    ensures ConstantFrom(0x35) == 0x8000000080008081 && SevenOn(0x35) == 0x4f
    ensures ConstantFrom(0x4f) == 0x8000000000008009 && SevenOn(0x4f) == 0xca
    ensures ConstantFrom(0xca) == 0x000000000000008a && SevenOn(0xca) == 0x70
    ensures ConstantFrom(0x70) == 0x0000000000000088 && SevenOn(0x70) == 0x41
    ensures ConstantFrom(0x41) == 0x0000000080008009 && SevenOn(0x41) == 0xec
    ensures ConstantFrom(0xec) == 0x000000008000000a && SevenOn(0xec) == 0xd5
    ensures ConstantFrom(0xd5) == 0x000000008000808b && SevenOn(0xd5) == 0xcd
    ensures ConstantFrom(0xcd) == 0x800000000000008b && SevenOn(0xcd) == 0x63
    ensures ConstantFrom(0x63) == 0x8000000000008089 && SevenOn(0x63) == 0xab
    ensures ConstantFrom(0xab) == 0x8000000000008003 && SevenOn(0xab) == 0xaa
    ensures ConstantFrom(0xaa) == 0x8000000000008002 && SevenOn(0xaa) == 0x2a
    ensures ConstantFrom(0x2a) == 0x8000000000000080 && SevenOn(0x2a) == 0xf2
    ensures ConstantFrom(0xf2) == 0x000000000000800a && SevenOn(0xf2) == 0xe8
    ensures ConstantFrom(0xe8) == 0x800000008000000a && SevenOn(0xe8) == 0x37
    ensures ConstantFrom(0x37) == 0x8000000080008081 && SevenOn(0x37) == 0x3e
    ensures ConstantFrom(0x3e) == 0x8000000000008080 && SevenOn(0x3e) == 0x0b
    ensures ConstantFrom(0x0b) == 0x0000000080000001 && SevenOn(0x0b) == 0x44
    ensures ConstantFrom(0x44) == 0x8000000080008008 && SevenOn(0x44) == 0x8e
  {
  }

  lemma ConstantsListed0()
    ensures RoundConstant(0) == 0x0000000000000001
    ensures RoundConstant(1) == 0x0000000000008082
    ensures RoundConstant(2) == 0x800000000000808a
    ensures RoundConstant(3) == 0x8000000080008000
  {
  }

  lemma ConstantsListed3()
    ensures RoundConstant(4) == 0x000000000000808b
    ensures RoundConstant(5) == 0x0000000080000001
    ensures RoundConstant(6) == 0x8000000080008081
    ensures RoundConstant(7) == 0x8000000000008009
  {
  }

  lemma ConstantsListed1()
    ensures RoundConstant(8) == 0x000000000000008a
    ensures RoundConstant(9) == 0x0000000000000088
    ensures RoundConstant(10) == 0x0000000080008009
    ensures RoundConstant(11) == 0x000000008000000a
    ensures RoundConstant(12) == 0x000000008000808b
    ensures RoundConstant(13) == 0x800000000000008b
    ensures RoundConstant(14) == 0x8000000000008089
    ensures RoundConstant(15) == 0x8000000000008003
  {
  }

  lemma ConstantsListed2()
    ensures RoundConstant(16) == 0x8000000000008002
    ensures RoundConstant(17) == 0x8000000000000080
    ensures RoundConstant(18) == 0x000000000000800a
    ensures RoundConstant(19) == 0x800000008000000a
    ensures RoundConstant(20) == 0x8000000080008081
    ensures RoundConstant(21) == 0x8000000000008080
    ensures RoundConstant(22) == 0x0000000080000001
    ensures RoundConstant(23) == 0x8000000080008008
  {
  }

  /** The program's table holds the constants of the standard. */
  lemma ConstantsAreStd()
    ensures forall n :: 0 <= n < 24 ==> RoundConstant(n) == StdConstant(n)
  {
    hide ConstantFrom, SevenOn, StdConstant, Register, RoundConstant;
    RegisterNext(0);
    Constants();
    ConstantsListed0();
    ConstantsListed3();
    ConstantsListed1();
    ConstantsListed2();
    SevenSteps(0);
    SevenSteps(1);
    SevenSteps(2);
    SevenSteps(3);
    SevenSteps(4);
    SevenSteps(5);
    SevenSteps(6);
    SevenSteps(7);
    SevenSteps(8);
    SevenSteps(9);
    SevenSteps(10);
    SevenSteps(11);
    SevenSteps(12);
    SevenSteps(13);
    SevenSteps(14);
    SevenSteps(15);
    SevenSteps(16);
    SevenSteps(17);
    SevenSteps(18);
    SevenSteps(19);
    SevenSteps(20);
    SevenSteps(21);
    SevenSteps(22);
    SevenSteps(23);
  }

  // The step mappings, sections 3.2.1 to 3.2.4; the lane in column x and row y is lane x + 5 y.

  function StdRotl(x: Lane, n: nat): Lane
    requires n < 64
  {
    x.RotateLeft(n)
  }

  function Sum(x: Lane, y: Lane): Lane { x ^ y }

  function Product(x: Lane, y: Lane): Lane { !x & y }

  function StdParity(s: Lanes, x: nat): Lane
    requires x < 5
  {
    Sum(Sum(Sum(Sum(s[x], s[x + 5]), s[x + 10]), s[x + 15]), s[x + 20])
  }

  /** What is added to every lane of column x. */
  function StdEffect(s: Lanes, x: nat): Lane
    requires x < 5
  {
    Sum(StdParity(s, (x + 4) % 5), StdRotl(StdParity(s, (x + 1) % 5), 1))
  }

  function StdTheta(s: Lanes): Lanes { seq(25, i requires 0 <= i < 25 => Sum(s[i], StdEffect(s, i % 5))) }

  /** Where the walk of algorithm 2 is after t steps from column 1, row 0: from (x, y) it goes to (y, 2x + 3y). */
  function Walk(t: nat): (i: nat)
    ensures i < 25
  {
    if t == 0 then 1 else var i := Walk(t - 1); i / 5 + 5 * ((2 * (i % 5) + 3 * (i / 5)) % 5)
  }

  /** The first step, from t on, at which the walk is at lane i. */
  function StepAt(i: nat, t: nat): nat
    requires t <= 24
    decreases 24 - t
  {
    if t == 24 || Walk(t) == i then t else StepAt(i, t + 1)
  }

  function StdOffset(i: nat): (r: nat)
    ensures r < 64
  {
    if i == 0 then 0 else var t := StepAt(i, 0); (t + 1) * (t + 2) / 2 % 64
  }

  function StdRho(s: Lanes): Lanes { seq(25, i requires 0 <= i < 25 => StdRotl(s[i], StdOffset(i))) }

  /** Lane (x, y) comes from lane (x + 3y, x). */
  function StdPi(s: Lanes): Lanes {
    seq(25, i requires 0 <= i < 25 => s[(i % 5 + 3 * (i / 5)) % 5 + 5 * (i % 5)])
  }

  function StdChi(s: Lanes): Lanes {
    seq(25, i requires 0 <= i < 25 =>
      Sum(s[i], Product(s[(i % 5 + 1) % 5 + 5 * (i / 5)], s[(i % 5 + 2) % 5 + 5 * (i / 5)])))
  }

  function StdIota(s: Lanes, c: Lane): Lanes { s[0 := Sum(s[0], c)] }

  function StdRound(s: Lanes, n: nat): Lanes { StdIota(StdChi(StdPi(StdRho(StdTheta(s)))), StdConstant(n)) }

  function StdRounds(s: Lanes, n: nat): Lanes {
    if n == 0 then s else StdRound(StdRounds(s, n - 1), n - 1)
  }

  lemma RotationsListed0(x: Lane)
    ensures Rotl(x, 0) == StdRotl(x, 0)
    ensures Rotl(x, 1) == StdRotl(x, 1)
    ensures Rotl(x, 2) == StdRotl(x, 2)
    ensures Rotl(x, 3) == StdRotl(x, 3)
    ensures Rotl(x, 6) == StdRotl(x, 6)
    ensures Rotl(x, 8) == StdRotl(x, 8)
    ensures Rotl(x, 10) == StdRotl(x, 10)
    ensures Rotl(x, 14) == StdRotl(x, 14)
    ensures Rotl(x, 15) == StdRotl(x, 15)
    ensures Rotl(x, 18) == StdRotl(x, 18)
    ensures Rotl(x, 20) == StdRotl(x, 20)
    ensures Rotl(x, 21) == StdRotl(x, 21)
    ensures Rotl(x, 25) == StdRotl(x, 25)
  {
  }

  lemma RotationsListed1(x: Lane)
    ensures Rotl(x, 27) == StdRotl(x, 27)
    ensures Rotl(x, 28) == StdRotl(x, 28)
    ensures Rotl(x, 36) == StdRotl(x, 36)
    ensures Rotl(x, 39) == StdRotl(x, 39)
    ensures Rotl(x, 41) == StdRotl(x, 41)
    ensures Rotl(x, 43) == StdRotl(x, 43)
    ensures Rotl(x, 44) == StdRotl(x, 44)
    ensures Rotl(x, 45) == StdRotl(x, 45)
    ensures Rotl(x, 55) == StdRotl(x, 55)
    ensures Rotl(x, 56) == StdRotl(x, 56)
    ensures Rotl(x, 61) == StdRotl(x, 61)
    ensures Rotl(x, 62) == StdRotl(x, 62)
  {
  }

  lemma XorIs(x: Lane, y: Lane)
    ensures XorL(x, y) == Sum(x, y) && AndNot(x, y) == Product(x, y)
  {
  }

  lemma ParityIsStd(s: Lanes, x: nat)
    requires x < 5
    ensures ColumnParity(s, x) == StdParity(s, x)
  {
    hide XorL, Sum, AndNot, Product;
    var a := Sum(s[x], s[x + 5]);
    var b := Sum(a, s[x + 10]);
    XorIs(s[x], s[x + 5]);
    XorIs(a, s[x + 10]);
    XorIs(b, s[x + 15]);
    XorIs(Sum(b, s[x + 15]), s[x + 20]);
  }

  lemma ColumnIs(i: nat)
    requires i < 25
    ensures Column(i) == i % 5
  {
  }

  lemma EffectIsStd(s: Lanes, x: nat)
    requires x < 5
    ensures ThetaEffect(s, x) == StdEffect(s, x)
  {
    hide ColumnParity, StdParity, Rotl, StdRotl, XorL, Sum, AndNot, Product;
    ParityIsStd(s, (x + 4) % 5);
    ParityIsStd(s, (x + 1) % 5);
    RotationsListed0(StdParity(s, (x + 1) % 5));
    XorIs(StdParity(s, (x + 4) % 5), StdRotl(StdParity(s, (x + 1) % 5), 1));
  }

  lemma ThetaIsStd(s: Lanes)
    ensures Theta(s) == StdTheta(s)
  {
    hide ThetaEffect, StdEffect, XorL, Sum, AndNot, Product, Column;
    forall i | 0 <= i < 25 ensures Theta(s)[i] == StdTheta(s)[i] {
      ColumnIs(i);
      EffectIsStd(s, i % 5);
      XorIs(s[i], StdEffect(s, i % 5));
    }
  }

  /** The tour of the program is the walk of the standard. */
  lemma {:induction false} WalkIsTour(t: nat)
    requires t < 24
    ensures Walk(t) == Before(t)
  {
    hide Piln;
    if t > 0 {
      WalkIsTour(t - 1);
      WalkStep(t);
    }
  }

  lemma WalkStep(t: nat)
    requires 0 < t < 24
    ensures var i := Before(t - 1); i / 5 + 5 * ((2 * (i % 5) + 3 * (i / 5)) % 5) == Before(t)
  {
  }

  /** Which step of the tour reads lane i. */
  function ReadAt(i: nat): nat
    requires 0 < i < 25
  {
    if i == 1 then 0 else Step(i) + 1
  }

  lemma ReadOnce(i: nat)
    requires 0 < i < 25
    ensures ReadAt(i) < 24 && Before(ReadAt(i)) == i
    ensures forall u: nat :: u < 24 && Before(u) == i ==> u == ReadAt(i)
  {
    hide Step, Piln, Source, Offset;
    TourReachesAll(i);
    ReadInTime(i);
    forall u: nat | u < 24 && Before(u) == i ensures u == ReadAt(i) {
      if u > 0 {
        TourOrder(u - 1);
        NotLaneOne(u - 1);
      }
    }
  }

  lemma ReadInTime(i: nat)
    requires 0 < i < 25
    ensures ReadAt(i) < 24
  {
  }

  lemma NotLaneOne(n: nat)
    requires n < 23
    ensures Piln(n) != 1
  {
  }

  lemma {:induction false} StepFound(i: nat, t: nat)
    requires 0 < i < 25 && t <= ReadAt(i) < 24
    ensures StepAt(i, t) == ReadAt(i)
    decreases 24 - t
  {
    hide Walk, Before, ReadAt;
    WalkIsTour(t);
    ReadOnce(i);
    if t < ReadAt(i) { StepFound(i, t + 1); }
  }

  lemma OffsetIsStd(i: nat)
    requires i < 25
    ensures Offset(i) == StdOffset(i)
  {
    hide Offset, StepAt, Before, ReadAt, Rotc;
    if i == 0 {
      TourReachesAll(0);
    } else {
      ReadOnce(i);
      StepFound(i, 0);
      TourRotation(ReadAt(i));
      RotationsTriangular(ReadAt(i));
    }
  }

  lemma RotatedByOffset(x: Lane, i: nat)
    requires i < 25
    ensures Rotl(x, Offset(i)) == StdRotl(x, Offset(i))
  {
    hide Rotl, StdRotl;
    RotationsListed0(x);
    RotationsListed1(x);
  }

  lemma SourceIs(i: nat)
    requires i < 25
    ensures Source(i) == (i % 5 + 3 * (i / 5)) % 5 + 5 * (i % 5)
  {
  }

  lemma RhoPiIsStd(s: Lanes)
    ensures RhoPi(s) == StdPi(StdRho(s))
  {
    hide Rotl, StdRotl, Offset, StdOffset, Source;
    forall i | 0 <= i < 25 ensures RhoPi(s)[i] == StdPi(StdRho(s))[i] {
      SourceIs(i);
      OffsetIsStd(Source(i));
      RotatedByOffset(s[Source(i)], Source(i));
    }
  }

  lemma RightIs(i: nat, n: nat)
    requires i < 25 && n < 5
    ensures Right(i, n) == (i % 5 + n) % 5 + 5 * (i / 5)
  {
  }

  lemma ChiIsStd(s: Lanes)
    ensures Chi(s) == StdChi(s)
  {
    hide XorL, AndNot, Sum, Product, Right;
    forall i | 0 <= i < 25 ensures Chi(s)[i] == StdChi(s)[i] {
      RightIs(i, 1);
      RightIs(i, 2);
      XorIs(s[Right(i, 1)], s[Right(i, 2)]);
      XorIs(s[i], Product(s[Right(i, 1)], s[Right(i, 2)]));
    }
  }

  lemma RoundIsStd(s: Lanes, n: nat)
    requires n < 24
    ensures Round(s, n) == StdRound(s, n)
  {
    hide Theta, StdTheta, RhoPi, StdRho, StdPi, Chi, StdChi, RoundConstant, StdConstant, XorL, Sum, AndNot, Product;
    ThetaIsStd(s);
    RhoPiIsStd(Theta(s));
    ChiIsStd(RhoPi(Theta(s)));
    ConstantsAreStd();
    XorIs(Chi(RhoPi(Theta(s)))[0], RoundConstant(n));
  }

  lemma {:induction false} RoundsAreStd(s: Lanes, n: nat)
    requires n <= 24
    ensures Rounds(s, n) == StdRounds(s, n)
  {
    hide Round, StdRound;
    if n > 0 {
      RoundsAreStd(s, n - 1);
      RoundIsStd(Rounds(s, n - 1), n - 1);
    }
  }

  // States as strings of 200 bytes (section 3.1.2), and the sponge (section 4) over them.

  type State = b: Bytes | |b| == 200 witness seq(200, _ => 0)

  function StringOf(s: Lanes): State { seq(200, i requires 0 <= i < 200 => ByteOfLane(s[i / 8], i % 8)) }

  /** The permutation of FIPS 202 on strings: b becomes c if lanes that read as b become lanes that read as c. */
  ghost predicate Permuted(b: State, c: State) {
    exists s: Lanes :: Reads(s, b) && c == StringOf(StdRounds(s, 24))
  }

  ghost predicate Reads(s: Lanes, b: State) { StringOf(s) == b }

  function SumOfBytes(x: bv8, y: bv8): bv8 { x ^ y }

  /** A block added to the front of the state. */
  function WithBlock(b: State, p: Bytes, at: nat, rate: nat): State
    requires at + rate <= |p| && rate <= 200
  {
    seq(200, i requires 0 <= i < 200 => if i < rate then SumOfBytes(b[i], p[at + i]) else b[i])
  }

  /** Padding with one 0x01 bit pattern after the message and 0x80 at the end of its block; they may meet in one byte. */
  function StdPadded(m: Bytes, rate: nat): Bytes
    requires rate > 0
  {
    var n := rate * (|m| / rate + 1);
    DivMod(|m|, rate);
    seq(n, i requires 0 <= i < n =>
      if i < |m| then m[i] else (if i == |m| then 0x01 else 0x00) + (if i == n - 1 then 0x80 else 0x00))
  }

  /** bs[n] is the state after n blocks of p. */
  ghost predicate Absorption(bs: seq<State>, p: Bytes, rate: nat) {
    && 0 < rate <= 200 && bs != [] && (|bs| - 1) * rate == |p|
    && bs[0] == seq(200, _ => 0)
    && forall n :: 0 <= n < |bs| - 1 ==> BlockAbsorbed(bs[n], p, n, rate, bs[n + 1])
  }

  ghost predicate BlockAbsorbed(b: State, p: Bytes, n: nat, rate: nat, c: State) {
    0 < rate <= 200 && n * rate + rate <= |p| && Permuted(WithBlock(b, p, n * rate, rate), c)
  }

  lemma Byte0OfSum(x: Lane, y: Lane)
    ensures ByteOfLane(XorL(x, y), 0) == SumOfBytes(ByteOfLane(x, 0), ByteOfLane(y, 0))
  {
    assert ((x ^ y) & 0xff) as bv8 == (x & 0xff) as bv8 ^ (y & 0xff) as bv8;
  }

  lemma Byte1OfSum(x: Lane, y: Lane)
    ensures ByteOfLane(XorL(x, y), 1) == SumOfBytes(ByteOfLane(x, 1), ByteOfLane(y, 1))
  {
    assert (((x ^ y) >> 8) & 0xff) as bv8 == ((x >> 8) & 0xff) as bv8 ^ ((y >> 8) & 0xff) as bv8;
  }

  lemma Byte2OfSum(x: Lane, y: Lane)
    ensures ByteOfLane(XorL(x, y), 2) == SumOfBytes(ByteOfLane(x, 2), ByteOfLane(y, 2))
  {
    assert (((x ^ y) >> 16) & 0xff) as bv8 == ((x >> 16) & 0xff) as bv8 ^ ((y >> 16) & 0xff) as bv8;
  }

  lemma Byte3OfSum(x: Lane, y: Lane)
    ensures ByteOfLane(XorL(x, y), 3) == SumOfBytes(ByteOfLane(x, 3), ByteOfLane(y, 3))
  {
    assert (((x ^ y) >> 24) & 0xff) as bv8 == ((x >> 24) & 0xff) as bv8 ^ ((y >> 24) & 0xff) as bv8;
  }

  lemma Byte4OfSum(x: Lane, y: Lane)
    ensures ByteOfLane(XorL(x, y), 4) == SumOfBytes(ByteOfLane(x, 4), ByteOfLane(y, 4))
  {
    assert (((x ^ y) >> 32) & 0xff) as bv8 == ((x >> 32) & 0xff) as bv8 ^ ((y >> 32) & 0xff) as bv8;
  }

  lemma Byte5OfSum(x: Lane, y: Lane)
    ensures ByteOfLane(XorL(x, y), 5) == SumOfBytes(ByteOfLane(x, 5), ByteOfLane(y, 5))
  {
    assert (((x ^ y) >> 40) & 0xff) as bv8 == ((x >> 40) & 0xff) as bv8 ^ ((y >> 40) & 0xff) as bv8;
  }

  lemma Byte6OfSum(x: Lane, y: Lane)
    ensures ByteOfLane(XorL(x, y), 6) == SumOfBytes(ByteOfLane(x, 6), ByteOfLane(y, 6))
  {
    assert (((x ^ y) >> 48) & 0xff) as bv8 == ((x >> 48) & 0xff) as bv8 ^ ((y >> 48) & 0xff) as bv8;
  }

  lemma Byte7OfSum(x: Lane, y: Lane)
    ensures ByteOfLane(XorL(x, y), 7) == SumOfBytes(ByteOfLane(x, 7), ByteOfLane(y, 7))
  {
    assert (((x ^ y) >> 56) & 0xff) as bv8 == ((x >> 56) & 0xff) as bv8 ^ ((y >> 56) & 0xff) as bv8;
  }

  lemma ByteOfSum(x: Lane, y: Lane, k: nat)
    requires k < 8
    ensures ByteOfLane(XorL(x, y), k) == SumOfBytes(ByteOfLane(x, k), ByteOfLane(y, k))
  {
    hide ByteOfLane, XorL, SumOfBytes;
    Byte0OfSum(x, y);
    Byte1OfSum(x, y);
    Byte2OfSum(x, y);
    Byte3OfSum(x, y);
    Byte4OfSum(x, y);
    Byte5OfSum(x, y);
    Byte6OfSum(x, y);
    Byte7OfSum(x, y);
  }

  lemma BytesOfPack(b0: bv8, b1: bv8, b2: bv8, b3: bv8, b4: bv8, b5: bv8, b6: bv8, b7: bv8)
    ensures var x := Pack(b0, b1, b2, b3, b4, b5, b6, b7);
            && ByteOfLane(x, 0) == b0 && ByteOfLane(x, 1) == b1 && ByteOfLane(x, 2) == b2 && ByteOfLane(x, 3) == b3
            && ByteOfLane(x, 4) == b4 && ByteOfLane(x, 5) == b5 && ByteOfLane(x, 6) == b6 && ByteOfLane(x, 7) == b7
  {
  }

  /** A lane is known by its bytes. */
  lemma LaneOfBytes(x: Lane)
    ensures x == Pack(ByteOfLane(x, 0), ByteOfLane(x, 1), ByteOfLane(x, 2), ByteOfLane(x, 3), ByteOfLane(x, 4), ByteOfLane(x, 5), ByteOfLane(x, 6), ByteOfLane(x, 7))
  {
  }

  lemma ByteOfMemory(p: Bytes, at: nat, k: nat)
    requires at + 8 <= |p| && k < 8
    ensures ByteOfLane(LaneAt(p, at), k) == p[at + k]
  {
    hide ByteOfLane, Pack;
    BytesOfPack(p[at], p[at + 1], p[at + 2], p[at + 3], p[at + 4], p[at + 5], p[at + 6], p[at + 7]);
  }

  lemma StateBytesAre(s: Lanes)
    ensures StateBytes(s) == StringOf(s)
  {
    hide ByteOfLane;
  }

  /** Strings and lanes determine each other, so the permutation on strings is a function. */
  lemma ReadsOnce(s: Lanes, t: Lanes, b: State)
    requires Reads(s, b) && Reads(t, b)
    ensures s == t
  {
    hide ByteOfLane, Pack;
    forall i | 0 <= i < 25 ensures s[i] == t[i] {
      forall k | 0 <= k < 8 ensures ByteOfLane(s[i], k) == ByteOfLane(t[i], k) {
        assert b[8 * i + k] == ByteOfLane(s[(8 * i + k) / 8], (8 * i + k) % 8);
        assert b[8 * i + k] == ByteOfLane(t[(8 * i + k) / 8], (8 * i + k) % 8);
      }
      LaneOfBytes(s[i]);
      LaneOfBytes(t[i]);
    }
  }

  lemma BlockRead(s: Lanes, p: Bytes, at: nat, rate: nat)
    requires RateOk(rate) && rate % 8 == 0 && at + rate <= |p|
    ensures Reads(XorInto(s, p, at, rate), WithBlock(StringOf(s), p, at, rate))
  {
    hide ByteOfLane, XorL, LaneAt, SumOfBytes;
    var t := XorInto(s, p, at, rate);
    forall i | 0 <= i < 200 ensures StringOf(t)[i] == WithBlock(StringOf(s), p, at, rate)[i] {
      var lane, k := i / 8, i % 8;
      if i < rate {
        ByteOfSum(s[lane], LaneAt(p, at + 8 * lane), k);
        ByteOfMemory(p, at + 8 * lane, k);
      }
    }
  }

  lemma PaddedIsStd(m: Bytes, rate: nat)
    requires RateOk(rate)
    ensures Padded(m, rate) == StdPadded(m, rate)
  {
    hide Start;
    StartAfter(|m|, rate);
    StartIs(Blocks(|m|, rate), rate);
    DivMod(|m|, rate);
    Commute(rate, |m| / rate + 1);
    var p, q := Padded(m, rate), StdPadded(m, rate);
    assert |p| == |q|;
    forall i | 0 <= i < |p| ensures p[i] == q[i] {}
  }

  /** The sponge of the program is that of the standard, over the padding of Keccak, for every rate of whole lanes. */
  lemma SpongeIsStd(m: Bytes, rate: nat)
    requires RateOk(rate) && rate % 8 == 0
    ensures exists bs: seq<State> :: Absorption(bs, StdPadded(m, rate), rate) && StateBytes(Sponge(m, rate)) == bs[|bs| - 1]
  {
    hide Start, StdPadded, StringOf, Absorbed, StateBytes, Padded, WithBlock, Permuted;
    var p, n := Padded(m, rate), Blocks(|m|, rate);
    PaddedIsStd(m, rate);
    StartIs(n, rate);
    StartsBelow(n, rate);
    var bs: seq<State> := seq(n + 1, k requires 0 <= k <= n => StringOf(Absorbed(p, rate, k)));
    StartsEmpty(p, rate);
    ZeroString();
    forall k | 0 <= k < n ensures BlockAbsorbed(bs[k], p, k, rate, bs[k + 1]) {
      StartIs(k, rate);
      StartIs(k + 1, rate);
      NextBlock(p, rate, k);
    }
    StateBytesAre(Absorbed(p, rate, n));
  }

  lemma StartsBelow(n: nat, rate: nat)
    ensures forall k: nat :: k <= n ==> Start(k, rate) <= Start(n, rate)
  {
    if n > 0 { StartsBelow(n - 1, rate); }
  }

  lemma ZeroString()
    ensures StringOf(seq(25, _ => 0)) == seq(200, _ => 0)
  {
  }

  lemma NextBlock(p: Bytes, rate: nat, n: nat)
    requires RateOk(rate) && rate % 8 == 0 && Start(n + 1, rate) <= |p| && Start(n + 1, rate) == Start(n, rate) + rate
    ensures Permuted(WithBlock(StringOf(Absorbed(p, rate, n)), p, Start(n, rate), rate), StringOf(Absorbed(p, rate, n + 1)))
  {
    hide Start, StringOf, WithBlock, XorInto, StdRounds, Rounds;
    var s := Absorbed(p, rate, n);
    BlockRead(s, p, Start(n, rate), rate);
    RoundsAreStd(XorInto(s, p, Start(n, rate), rate), 24);
  }
}
