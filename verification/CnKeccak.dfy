/** The unrolled Keccak of cuda_cryptonight_keccak.hpp equals the plain one. */
module CnKeccak {
  import opened Keccak

  /** Rotation by 32 + y, as an exchange of the halves and a rotation by y. */
  function Rotl2(x: Lane, y: nat): Lane
    requires y < 32
  {
    Rotl((x >> 32) | (x << 32), y)
  }

  function AndL(x: Lane, y: Lane): Lane { x & y }

  function BitSelect(a: Lane, b: Lane, c: Lane): Lane { XorL(a, AndL(c, XorL(b, a))) }

  lemma ExchangedLow(x: Lane, y: Amount)
    requires y < 16
    ensures (((x >> 32) | (x << 32)) << y) | (((x >> 32) | (x << 32)) >> (64 - y)) == (x << (y + 32)) | (x >> (64 - (y + 32)))
  {
  }

  lemma ExchangedHigh(x: Lane, y: Amount)
    requires 16 <= y < 32
    ensures (((x >> 32) | (x << 32)) << y) | (((x >> 32) | (x << 32)) >> (64 - y)) == (x << (y + 32)) | (x >> (64 - (y + 32)))
  {
  }

  lemma AmountBy32(y: nat)
    requires y < 32
    ensures (y as Amount) < 32 && (y + 32) as Amount == y as Amount + 32
  {
  }

  lemma TurnExchanged(x: Lane, y: Amount)
    requires y < 32
    ensures Turned((x >> 32) | (x << 32), y) == Turned(x, y + 32)
  {
    if y < 16 { ExchangedLow(x, y); } else { ExchangedHigh(x, y); }
  }

  /** Exchanging the halves and rotating by any y below 32 rotates by y + 32. */
  lemma Rotl2Is(x: Lane, y: nat)
    requires y < 32
    ensures Rotl2(x, y) == Rotl(x, y + 32)
  {
    hide Turned;
    AmountBy32(y);
    TurnExchanged(x, y as Amount);
  }

  lemma Associates(x: Lane, y: Lane, z: Lane)
    ensures XorL(XorL(x, y), z) == XorL(x, XorL(y, z))
  {
    assert XorL(x ^ y, z) == x ^ y ^ z;
    assert XorL(x, y ^ z) == x ^ y ^ z;
  }

  lemma Cancels(x: Lane, y: Lane)
    ensures XorL(x, XorL(x, y)) == y
  {
    assert XorL(x, x ^ y) == y;
  }

  lemma OutsideMask(y: Lane, z: Lane)
    ensures XorL(z, AndL(y, z)) == AndNot(y, z)
  {
    assert XorL(z, y & z) == z ^ (y & z);
  }

  /** Chi as a choice of bits. */
  lemma BitSelectIsChi(x: Lane, y: Lane, z: Lane)
    ensures BitSelect(XorL(x, z), x, y) == XorL(x, AndNot(y, z))
  {
    hide XorL, AndL, AndNot;
    Cancels(x, z);
    Associates(x, z, AndL(y, z));
    OutsideMask(y, z);
  }

  /** What lane i holds after Theta, Rho and Pi. */
  function NewLane(s: Lanes, i: nat): Lane
    requires i < 25
  {
    Rotl(XorL(s[Source(i)], ThetaEffect(s, Column(Source(i)))), Offset(Source(i)))
  }

  lemma NewLaneIs(s: Lanes, i: nat)
    requires i < 25
    ensures RhoPi(Theta(s))[i] == NewLane(s, i)
  {
    hide Rotl, XorL, ThetaEffect, Source, Offset, Column;
  }


  /** The order in which the lanes are written: each after the last lane that still needs its old value. */
  function When(i: nat): nat
    requires i < 25
  {
    if i == 0 then 0 else if i == 1 then 1 else if i == 2 then 7 else if i == 3 then 19 else if i == 4 then 13 else
    if i == 5 then 18 else if i == 6 then 2 else if i == 7 then 23 else if i == 8 then 16 else if i == 9 then 3 else
    if i == 10 then 24 else if i == 11 then 22 else if i == 12 then 8 else if i == 13 then 9 else if i == 14 then 5 else
    if i == 15 then 12 else if i == 16 then 17 else if i == 17 then 21 else if i == 18 then 20 else if i == 19 then 10 else
    if i == 20 then 6 else if i == 21 then 15 else if i == 22 then 4 else if i == 23 then 11 else 14
  }

  /** The first k lanes in that order hold their new values, the others their old ones. */
  ghost predicate MixReady(s: array<Lane>, bc: seq<Lane>, tmp1: Lane, was: Lanes, k: nat)
    reads s
  {
    && s.Length == 25 && |bc| == 5
    && bc[0] == ThetaEffect(was, 1) && bc[1] == ThetaEffect(was, 2) && bc[2] == ThetaEffect(was, 3)
    && bc[3] == ThetaEffect(was, 4) && bc[4] == ThetaEffect(was, 0)
    && tmp1 == XorL(was[1], bc[0])
    && forall i :: 0 <= i < 25 ==> s[i] == if When(i) < k then NewLane(was, i) else was[i]
  }

  /** The lanes written in turns 0 to 4. */
  lemma Turns0(s: Lanes)
    ensures When(0) >= 0 && When(6) >= 0 && When(9) >= 0 && When(14) >= 0 && When(22) >= 0
    ensures forall i :: 0 <= i < 25 ==> (When(i) < 5 <==> When(i) < 0 || i == 0 || i == 1 || i == 6 || i == 9 || i == 22)
    ensures NewLane(s, 0) == Rotl(XorL(s[0], ThetaEffect(s, 0)), 0)
    ensures NewLane(s, 1) == Rotl(XorL(s[6], ThetaEffect(s, 1)), 44)
    ensures NewLane(s, 6) == Rotl(XorL(s[9], ThetaEffect(s, 4)), 20)
    ensures NewLane(s, 9) == Rotl(XorL(s[22], ThetaEffect(s, 2)), 61)
    ensures NewLane(s, 22) == Rotl(XorL(s[14], ThetaEffect(s, 4)), 39)
  {
    hide Rotl, XorL, ThetaEffect;
  }

  /** The lanes written in turns 5 to 9. */
  lemma Turns1(s: Lanes)
    ensures When(2) >= 5 && When(12) >= 5 && When(13) >= 5 && When(19) >= 5 && When(20) >= 5
    ensures forall i :: 0 <= i < 25 ==> (When(i) < 10 <==> When(i) < 5 || i == 14 || i == 20 || i == 2 || i == 12 || i == 13)
    ensures NewLane(s, 14) == Rotl(XorL(s[20], ThetaEffect(s, 0)), 18)
    ensures NewLane(s, 20) == Rotl(XorL(s[2], ThetaEffect(s, 2)), 62)
    ensures NewLane(s, 2) == Rotl(XorL(s[12], ThetaEffect(s, 2)), 43)
    ensures NewLane(s, 12) == Rotl(XorL(s[13], ThetaEffect(s, 3)), 25)
    ensures NewLane(s, 13) == Rotl(XorL(s[19], ThetaEffect(s, 4)), 8)
  {
    hide Rotl, XorL, ThetaEffect;
  }

  /** When the lanes of turns 10 to 14 are written, and the last two of them. */
  lemma Writes2(s: Lanes)
    ensures When(4) >= 10 && When(15) >= 10 && When(21) >= 10 && When(23) >= 10 && When(24) >= 10
    ensures forall i :: 0 <= i < 25 ==> (When(i) < 15 <==> When(i) < 10 || i == 19 || i == 23 || i == 15 || i == 4 || i == 24)
    ensures NewLane(s, 4) == Rotl(XorL(s[24], ThetaEffect(s, 4)), 14)
    ensures NewLane(s, 24) == Rotl(XorL(s[21], ThetaEffect(s, 1)), 2)
  {
    hide Rotl, XorL, ThetaEffect;
  }

  /** The lanes written in turns 10 to 14. */
  lemma Turns2(s: Lanes)
    ensures When(4) >= 10 && When(15) >= 10 && When(21) >= 10 && When(23) >= 10 && When(24) >= 10
    ensures forall i :: 0 <= i < 25 ==> (When(i) < 15 <==> When(i) < 10 || i == 19 || i == 23 || i == 15 || i == 4 || i == 24)
    ensures NewLane(s, 19) == Rotl(XorL(s[23], ThetaEffect(s, 3)), 56)
    ensures NewLane(s, 23) == Rotl(XorL(s[15], ThetaEffect(s, 0)), 41)
    ensures NewLane(s, 15) == Rotl(XorL(s[4], ThetaEffect(s, 4)), 27)
    ensures NewLane(s, 4) == Rotl(XorL(s[24], ThetaEffect(s, 4)), 14)
    ensures NewLane(s, 24) == Rotl(XorL(s[21], ThetaEffect(s, 1)), 2)
  {
    hide Rotl, XorL, ThetaEffect, When;
    Writes2(s);
  }

  /** The lanes written in turns 15 to 19. */
  lemma Turns3(s: Lanes)
    ensures When(3) >= 15 && When(5) >= 15 && When(8) >= 15 && When(16) >= 15 && When(18) >= 15
    ensures forall i :: 0 <= i < 25 ==> (When(i) < 20 <==> When(i) < 15 || i == 21 || i == 8 || i == 16 || i == 5 || i == 3)
    ensures NewLane(s, 21) == Rotl(XorL(s[8], ThetaEffect(s, 3)), 55)
    ensures NewLane(s, 8) == Rotl(XorL(s[16], ThetaEffect(s, 1)), 45)
    ensures NewLane(s, 16) == Rotl(XorL(s[5], ThetaEffect(s, 0)), 36)
    ensures NewLane(s, 5) == Rotl(XorL(s[3], ThetaEffect(s, 3)), 28)
    ensures NewLane(s, 3) == Rotl(XorL(s[18], ThetaEffect(s, 3)), 21)
  {
    hide Rotl, XorL, ThetaEffect;
  }

  /** The lanes written in turns 20 to 24. */
  lemma Turns4(s: Lanes)
    ensures When(7) >= 20 && When(10) >= 20 && When(11) >= 20 && When(17) >= 20
    ensures forall i :: 0 <= i < 25 ==> (When(i) < 25 <==> When(i) < 20 || i == 18 || i == 17 || i == 11 || i == 7 || i == 10)
    ensures NewLane(s, 18) == Rotl(XorL(s[17], ThetaEffect(s, 2)), 15)
    ensures NewLane(s, 17) == Rotl(XorL(s[11], ThetaEffect(s, 1)), 10)
    ensures NewLane(s, 11) == Rotl(XorL(s[7], ThetaEffect(s, 2)), 6)
    ensures NewLane(s, 7) == Rotl(XorL(s[10], ThetaEffect(s, 0)), 3)
    ensures NewLane(s, 10) == Rotl(XorL(s[1], ThetaEffect(s, 1)), 1)
  {
    hide Rotl, XorL, ThetaEffect;
  }

  method Mix0(s: array<Lane>, bc: seq<Lane>, tmp1: Lane, ghost was: Lanes)
    requires MixReady(s, bc, tmp1, was, 0)
    modifies s
    ensures MixReady(s, bc, tmp1, was, 5)
  {
    hide Rotl, Rotl2, XorL, ThetaEffect, NewLane, When;
    Turns0(was);
    NoRotation(XorL(was[0], bc[4]));
    Rotl2Is(XorL(was[6], bc[0]), 12);
    Rotl2Is(XorL(was[22], bc[1]), 29);
    Rotl2Is(XorL(was[14], bc[3]), 7);
    s[0] := XorL(s[0], bc[4]);
    s[1] := Rotl2(XorL(s[6], bc[0]), 12);
    s[6] := Rotl(XorL(s[9], bc[3]), 20);
    s[9] := Rotl2(XorL(s[22], bc[1]), 29);
    s[22] := Rotl2(XorL(s[14], bc[3]), 7);
  }

  method Mix1(s: array<Lane>, bc: seq<Lane>, tmp1: Lane, ghost was: Lanes)
    requires MixReady(s, bc, tmp1, was, 5)
    modifies s
    ensures MixReady(s, bc, tmp1, was, 10)
  {
    hide Rotl, Rotl2, XorL, ThetaEffect, NewLane, When;
    Turns1(was);
    Rotl2Is(XorL(was[2], bc[1]), 30);
    Rotl2Is(XorL(was[12], bc[1]), 11);
    s[14] := Rotl(XorL(s[20], bc[4]), 18);
    s[20] := Rotl2(XorL(s[2], bc[1]), 30);
    s[2] := Rotl2(XorL(s[12], bc[1]), 11);
    s[12] := Rotl(XorL(s[13], bc[2]), 25);
    s[13] := Rotl(XorL(s[19], bc[3]), 8);
  }

  method Mix2(s: array<Lane>, bc: seq<Lane>, tmp1: Lane, ghost was: Lanes)
    requires MixReady(s, bc, tmp1, was, 10)
    modifies s
    ensures MixReady(s, bc, tmp1, was, 15)
  {
    hide Rotl, Rotl2, XorL, ThetaEffect, NewLane, When;
    Turns2(was);
    Rotl2Is(XorL(was[23], bc[2]), 24);
    Rotl2Is(XorL(was[15], bc[4]), 9);
    s[19] := Rotl2(XorL(s[23], bc[2]), 24);
    s[23] := Rotl2(XorL(s[15], bc[4]), 9);
    s[15] := Rotl(XorL(s[4], bc[3]), 27);
    s[4] := Rotl(XorL(s[24], bc[3]), 14);
    s[24] := Rotl(XorL(s[21], bc[0]), 2);
  }

  method Mix3(s: array<Lane>, bc: seq<Lane>, tmp1: Lane, ghost was: Lanes)
    requires MixReady(s, bc, tmp1, was, 15)
    modifies s
    ensures MixReady(s, bc, tmp1, was, 20)
  {
    hide Rotl, Rotl2, XorL, ThetaEffect, NewLane, When;
    Turns3(was);
    Rotl2Is(XorL(was[8], bc[2]), 23);
    Rotl2Is(XorL(was[16], bc[0]), 13);
    Rotl2Is(XorL(was[5], bc[4]), 4);
    s[21] := Rotl2(XorL(s[8], bc[2]), 23);
    s[8] := Rotl2(XorL(s[16], bc[0]), 13);
    s[16] := Rotl2(XorL(s[5], bc[4]), 4);
    s[5] := Rotl(XorL(s[3], bc[2]), 28);
    s[3] := Rotl(XorL(s[18], bc[2]), 21);
  }

  method Mix4(s: array<Lane>, bc: seq<Lane>, tmp1: Lane, ghost was: Lanes)
    requires MixReady(s, bc, tmp1, was, 20)
    modifies s
    ensures MixReady(s, bc, tmp1, was, 25)
  {
    hide Rotl, Rotl2, XorL, ThetaEffect, NewLane, When;
    Turns4(was);
    s[18] := Rotl(XorL(s[17], bc[1]), 15);
    s[17] := Rotl(XorL(s[11], bc[0]), 10);
    s[11] := Rotl(XorL(s[7], bc[1]), 6);
    s[7] := Rotl(XorL(s[10], bc[4]), 3);
    s[10] := Rotl(tmp1, 1);
  }

  function EffectsOf(p: seq<Lane>): (bc: seq<Lane>)
    requires |p| == 5
    ensures |bc| == 5
  {
    [XorL(p[0], Rotl(p[2], 1)), XorL(p[1], Rotl(p[3], 1)), XorL(p[2], Rotl(p[4], 1)),
     XorL(p[3], Rotl(p[0], 1)), XorL(p[4], Rotl(p[1], 1))]
  }

  lemma EffectsAre(s: Lanes, p: seq<Lane>)
    requires |p| == 5 && p[0] == ColumnParity(s, 0) && p[1] == ColumnParity(s, 1) && p[2] == ColumnParity(s, 2)
    requires p[3] == ColumnParity(s, 3) && p[4] == ColumnParity(s, 4)
    ensures var bc := EffectsOf(p);
            && bc[0] == ThetaEffect(s, 1) && bc[1] == ThetaEffect(s, 2) && bc[2] == ThetaEffect(s, 3)
            && bc[3] == ThetaEffect(s, 4) && bc[4] == ThetaEffect(s, 0)
  {
    hide XorL, Rotl, ColumnParity;
  }

  /** Theta's effects on the columns, in the order in which the program numbers them. */
  method Effects(s: array<Lane>) returns (bc: seq<Lane>, tmp1: Lane)
    requires s.Length == 25
    ensures MixReady(s, bc, tmp1, s[..], 0)
  {
    hide Rotl, XorL, XorFive, NewLane, When, EffectsOf, ThetaEffect;
    var tmpxor := Parity(s);
    EffectsAre(s[..], tmpxor);
    bc := EffectsOf(tmpxor);
    tmp1 := XorL(s[1], bc[0]);
  }

  /** One row of Chi as five choices of bits. */
  method SelectRow(s: array<Lane>, j: nat)
    requires s.Length == 25 && j + 5 <= 25
    modifies s
    ensures var a, b, c, d, e := old(s[j]), old(s[j + 1]), old(s[j + 2]), old(s[j + 3]), old(s[j + 4]);
            && s[j] == XorL(a, AndNot(b, c)) && s[j + 1] == XorL(b, AndNot(c, d)) && s[j + 2] == XorL(c, AndNot(d, e))
            && s[j + 3] == XorL(d, AndNot(e, a)) && s[j + 4] == XorL(e, AndNot(a, b))
    ensures forall k :: 0 <= k < 25 && !(j <= k < j + 5) ==> s[k] == old(s[k])
  {
    hide XorL, AndNot;
    var tmp1, tmp2 := s[j], s[j + 1];
    SelectLane(s, j, s[j + 1], s[j + 2]);
    SelectLane(s, j + 1, s[j + 2], s[j + 3]);
    SelectLane(s, j + 2, s[j + 3], s[j + 4]);
    SelectLane(s, j + 3, s[j + 4], tmp1);
    SelectLane(s, j + 4, tmp1, tmp2);
  }

  /** One assignment of the row: y and z are the next two lanes, and the mask is y. */
  method SelectLane(s: array<Lane>, i: nat, y: Lane, z: Lane)
    requires s.Length == 25 && i < 25
    modifies s
    ensures s[i] == XorL(old(s[i]), AndNot(y, z))
    ensures forall k :: 0 <= k < 25 && k != i ==> s[k] == old(s[k])
  {
    hide XorL, AndNot, BitSelect;
    BitSelectIsChi(s[i], y, z);
    s[i] := BitSelect(XorL(s[i], z), s[i], y);
  }

  /** The rows above row j / 5 hold Chi's result, the others are unchanged. */
  ghost predicate RowsDone(s: array<Lane>, was: Lanes, j: nat)
    reads s
  {
    s.Length == 25 && forall k :: 0 <= k < 25 ==> s[k] == if k < j then Chi(was)[k] else was[k]
  }

  method SelectNext(s: array<Lane>, j: nat, ghost was: Lanes)
    requires RowsDone(s, was, j) && j + 5 <= 25 && j % 5 == 0
    modifies s
    ensures RowsDone(s, was, j + 5)
  {
    hide XorL, AndNot, Chi;
    ChiOfRow(was, j);
    SelectRow(s, j);
  }

  method SelectRows(s: array<Lane>)
    requires s.Length == 25
    modifies s
    ensures s[..] == Chi(old(s[..]))
  {
    hide Chi;
    ghost var was: Lanes := s[..];
    SelectNext(s, 0, was);
    SelectNext(s, 5, was);
    SelectNext(s, 10, was);
    SelectNext(s, 15, was);
    SelectNext(s, 20, was);
  }

  lemma AllMixed(s: array<Lane>, bc: seq<Lane>, tmp1: Lane, was: Lanes)
    requires MixReady(s, bc, tmp1, was, 25)
    ensures s[..] == RhoPi(Theta(was))
  {
    hide NewLane, RhoPi, Theta;
    forall i | 0 <= i < 25 ensures s[i] == RhoPi(Theta(was))[i] {
      NewLaneIs(was, i);
      WhenBefore25(i);
    }
  }

  lemma WhenBefore25(i: nat)
    requires i < 25
    ensures When(i) < 25
  {
  }

  method RoundInPlace(s: array<Lane>, n: nat)
    requires s.Length == 25 && n < 24
    modifies s
    ensures s[..] == Round(old(s[..]), n)
  {
    hide XorL, RhoPi, Theta, Chi, RoundConstant, MixReady;
    ghost var was: Lanes := s[..];
    var bc, tmp1 := Effects(s);
    MixLength(s, bc, tmp1, was, 0);
    Mix0(s, bc, tmp1, was);
    Mix1(s, bc, tmp1, was);
    Mix2(s, bc, tmp1, was);
    Mix3(s, bc, tmp1, was);
    Mix4(s, bc, tmp1, was);
    AllMixed(s, bc, tmp1, was);
    SelectRows(s);
    s[0] := XorL(s[0], RoundConstant(n));
  }

  lemma MixLength(s: array<Lane>, bc: seq<Lane>, tmp1: Lane, was: Lanes, k: nat)
    requires MixReady(s, bc, tmp1, was, k)
    ensures s.Length == 25
  {
  }

  method CnKeccakF2(s: array<Lane>)
    requires s.Length == 25
    modifies s
    ensures s[..] == Rounds(old(s[..]), 24)
  {
    hide Round;
    for i := 0 to 24
      invariant s[..] == Rounds(old(s[..]), i)
    {
      RoundInPlace(s, i);
    }
  }

  // The first round on a state whose upper lanes are known: a message of 76 bytes with its padding.

  const TOP_BIT: Lane := 0x8000000000000000

  ghost predicate FreshState(s: Lanes) {
    s[16] == TOP_BIT && forall i :: 10 <= i < 25 && i != 16 ==> s[i] == 0
  }

  lemma ZeroLane(x: Lane)
    ensures XorL(0, x) == x && XorL(x, 0) == x
  {
  }

  method FirstEffects(s: array<Lane>) returns (bc: seq<Lane>, tmp1: Lane)
    requires s.Length == 25 && FreshState(s[..])
    ensures MixReady(s, bc, tmp1, s[..], 0)
  {
    hide Rotl, XorL, NewLane, When, EffectsOf, ThetaEffect;
    var tmpxor := [XorL(s[0], s[5]), XorL(XorL(s[1], s[6]), TOP_BIT), XorL(s[2], s[7]), XorL(s[3], s[8]), XorL(s[4], s[9])];
    ZeroLane(XorL(s[0], s[5]));
    ZeroLane(XorL(s[1], s[6]));
    ZeroLane(XorL(XorL(s[1], s[6]), TOP_BIT));
    ZeroLane(XorL(s[2], s[7]));
    ZeroLane(XorL(s[3], s[8]));
    ZeroLane(XorL(s[4], s[9]));
    EffectsAre(s[..], tmpxor);
    bc := EffectsOf(tmpxor);
    tmp1 := XorL(s[1], bc[0]);
  }

  method FirstMix0(s: array<Lane>, bc: seq<Lane>, tmp1: Lane, ghost was: Lanes)
    requires MixReady(s, bc, tmp1, was, 0) && FreshState(was)
    modifies s
    ensures MixReady(s, bc, tmp1, was, 5)
  {
    hide Rotl, Rotl2, XorL, ThetaEffect, NewLane, When;
    Turns0(was);
    NoRotation(XorL(was[0], bc[4]));
    Rotl2Is(XorL(was[6], bc[0]), 12);
    ZeroLane(bc[1]);
    Rotl2Is(bc[1], 29);
    ZeroLane(bc[3]);
    Rotl2Is(bc[3], 7);
    s[0] := XorL(s[0], bc[4]);
    s[1] := Rotl2(XorL(s[6], bc[0]), 12);
    s[6] := Rotl(XorL(s[9], bc[3]), 20);
    s[9] := Rotl2(bc[1], 29);
    s[22] := Rotl2(bc[3], 7);
  }

  method FirstMix1(s: array<Lane>, bc: seq<Lane>, tmp1: Lane, ghost was: Lanes)
    requires MixReady(s, bc, tmp1, was, 5) && FreshState(was)
    modifies s
    ensures MixReady(s, bc, tmp1, was, 10)
  {
    hide Rotl, Rotl2, XorL, ThetaEffect, NewLane, When;
    Turns1(was);
    ZeroLane(bc[4]);
    Rotl2Is(XorL(was[2], bc[1]), 30);
    ZeroLane(bc[1]);
    Rotl2Is(bc[1], 11);
    ZeroLane(bc[2]);
    ZeroLane(bc[3]);
    s[14] := Rotl(bc[4], 18);
    s[20] := Rotl2(XorL(s[2], bc[1]), 30);
    s[2] := Rotl2(bc[1], 11);
    s[12] := Rotl(bc[2], 25);
    s[13] := Rotl(bc[3], 8);
  }

  method FirstMix2(s: array<Lane>, bc: seq<Lane>, tmp1: Lane, ghost was: Lanes)
    requires MixReady(s, bc, tmp1, was, 10) && FreshState(was)
    modifies s
    ensures MixReady(s, bc, tmp1, was, 15)
  {
    hide Rotl, Rotl2, XorL, ThetaEffect, NewLane, When;
    Turns2(was);
    ZeroLane(bc[2]);
    Rotl2Is(bc[2], 24);
    ZeroLane(bc[4]);
    Rotl2Is(bc[4], 9);
    ZeroLane(bc[3]);
    ZeroLane(bc[0]);
    s[19] := Rotl2(bc[2], 24);
    s[23] := Rotl2(bc[4], 9);
    s[15] := Rotl(XorL(s[4], bc[3]), 27);
    s[4] := Rotl(bc[3], 14);
    s[24] := Rotl(bc[0], 2);
  }

  method FirstMix3(s: array<Lane>, bc: seq<Lane>, tmp1: Lane, ghost was: Lanes)
    requires MixReady(s, bc, tmp1, was, 15) && FreshState(was)
    modifies s
    ensures MixReady(s, bc, tmp1, was, 20)
  {
    hide Rotl, Rotl2, XorL, ThetaEffect, NewLane, When;
    Turns3(was);
    Rotl2Is(XorL(was[8], bc[2]), 23);
    Rotl2Is(XorL(TOP_BIT, bc[0]), 13);
    Rotl2Is(XorL(was[5], bc[4]), 4);
    ZeroLane(bc[2]);
    s[21] := Rotl2(XorL(s[8], bc[2]), 23);
    s[8] := Rotl2(XorL(TOP_BIT, bc[0]), 13);
    s[16] := Rotl2(XorL(s[5], bc[4]), 4);
    s[5] := Rotl(XorL(s[3], bc[2]), 28);
    s[3] := Rotl(bc[2], 21);
  }

  method FirstMix4(s: array<Lane>, bc: seq<Lane>, tmp1: Lane, ghost was: Lanes)
    requires MixReady(s, bc, tmp1, was, 20) && FreshState(was)
    modifies s
    ensures MixReady(s, bc, tmp1, was, 25)
  {
    hide Rotl, Rotl2, XorL, ThetaEffect, NewLane, When;
    Turns4(was);
    ZeroLane(bc[1]);
    ZeroLane(bc[0]);
    ZeroLane(bc[4]);
    s[18] := Rotl(bc[1], 15);
    s[17] := Rotl(bc[0], 10);
    s[11] := Rotl(XorL(s[7], bc[1]), 6);
    s[7] := Rotl(bc[4], 3);
    s[10] := Rotl(tmp1, 1);
  }

  method FirstRoundInPlace(s: array<Lane>)
    requires s.Length == 25 && FreshState(s[..])
    modifies s
    ensures s[..] == Round(old(s[..]), 0)
  {
    hide XorL, RhoPi, Theta, Chi, MixReady, FreshState;
    ghost var was: Lanes := s[..];
    var bc, tmp1 := FirstEffects(s);
    MixLength(s, bc, tmp1, was, 0);
    FirstMix0(s, bc, tmp1, was);
    FirstMix1(s, bc, tmp1, was);
    FirstMix2(s, bc, tmp1, was);
    FirstMix3(s, bc, tmp1, was);
    FirstMix4(s, bc, tmp1, was);
    AllMixed(s, bc, tmp1, was);
    SelectRows(s);
    s[0] := XorL(s[0], 0x0000000000000001);
  }

  method CnKeccakF(s: array<Lane>)
    requires s.Length == 25 && FreshState(s[..])
    modifies s
    ensures s[..] == Rounds(old(s[..]), 24)
  {
    hide Round;
    ghost var was: Lanes := s[..];
    assert Rounds(was, 0) == was;
    FirstRoundInPlace(s);
    for i := 1 to 24
      invariant s[..] == Rounds(was, i)
    {
      RoundInPlace(s, i);
    }
  }

  // The hash of 76 bytes.

  /** The low half of a lane in memory replaced by four bytes. */
  function LowHalf(x: Lane, b0: bv8, b1: bv8, b2: bv8, b3: bv8): Lane {
    (x & 0xffffffff00000000) | b0 as bv64 | (b1 as bv64 << 8) | (b2 as bv64 << 16) | (b3 as bv64 << 24)
  }

  /** The high half of a lane replaced by the first byte of the padding. */
  function MarkEnd(x: Lane): Lane {
    (x & 0x00000000ffffffff) | 0x0000000100000000
  }

  lemma HalfLane(x: Lane, b0: bv8, b1: bv8, b2: bv8, b3: bv8)
    ensures MarkEnd(LowHalf(x, b0, b1, b2, b3)) == Pack(b0, b1, b2, b3, 1, 0, 0, 0)
  {
  }

  lemma KnownLanes()
    ensures Pack(0, 0, 0, 0, 0, 0, 0, 0) == 0 && Pack(0, 0, 0, 0, 0, 0, 0, 0x80) == TOP_BIT
  {
  }

  lemma OneBlock(m: Bytes)
    requires |m| == 76
    ensures |Padded(m, 136)| == 136
    ensures var p := Padded(m, 136);
            && p[..76] == m && p[76] == 1 && p[135] == 0x80 && forall k :: 77 <= k < 135 ==> p[k] == 0
    ensures Sponge(m, 136) == Rounds(XorInto(seq(25, _ => 0), Padded(m, 136), 0, 136), 24)
  {
    hide Rounds, XorInto;
    assert Start(1, 136) == 136;
    StartsEmpty(Padded(m, 136), 136);
  }

  /** What the padded message adds to the empty state, lane by lane. */
  lemma BlockLanes(m: Bytes, i: nat)
    requires |m| == 76 && i < 25
    ensures |Padded(m, 136)| == 136
    ensures XorInto(seq(25, _ => 0), Padded(m, 136), 0, 136)[i] ==
            if i < 9 then LaneAt(m, 8 * i)
            else if i == 9 then Pack(m[72], m[73], m[74], m[75], 1, 0, 0, 0)
            else if i == 16 then TOP_BIT
            else 0
  {
    hide XorL, Padded, Pack, Rounds, Sponge;
    OneBlock(m);
    KnownLanes();
    var p := Padded(m, 136);
    if i < 17 { ZeroLane(LaneAt(p, 8 * i)); }
    if i < 9 {
      forall k | 8 * i <= k < 8 * i + 8 ensures p[k] == m[k] { assert p[..76][k] == p[k]; }
    } else if i == 9 {
      assert p[..76][72] == p[72] && p[..76][73] == p[73] && p[..76][74] == p[74] && p[..76][75] == p[75];
    }
  }

  /** The message, its end mark and its last bit, put straight into the state. */
  method Load(input: array<bv8>) returns (st: array<Lane>)
    requires input.Length >= 76
    ensures fresh(st) && st.Length == 25 && |Padded(input[..76], 136)| == 136
    ensures st[..] == XorInto(seq(25, _ => 0), Padded(input[..76], 136), 0, 136)
    ensures FreshState(st[..])
  {
    hide LaneAt, Padded, Pack, XorInto, LowHalf, MarkEnd;
    ghost var m := input[..76];
    st := new Lane[25];
    for i := 0 to 9
      invariant forall k :: 0 <= k < i ==> st[k] == LaneAt(m, 8 * k)
    {
      st[i] := LaneAt(input[..76], 8 * i);
    }
    var half := LowHalf(st[9], input[72], input[73], input[74], input[75]);
    HalfLane(st[9], input[72], input[73], input[74], input[75]);
    st[9] := half;
    for i := 10 to 25
      invariant forall k :: 0 <= k < 9 ==> st[k] == LaneAt(m, 8 * k)
      invariant st[9] == half
      invariant forall k :: 10 <= k < i ==> st[k] == 0
    {
      st[i] := 0;
    }
    st[9] := MarkEnd(st[9]);
    st[16] := TOP_BIT;
    LoadedLanes(m, st[..]);
  }

  lemma LoadedLanes(m: Bytes, s: Lanes)
    requires |m| == 76 && forall k :: 0 <= k < 9 ==> s[k] == LaneAt(m, 8 * k)
    requires s[9] == Pack(m[72], m[73], m[74], m[75], 1, 0, 0, 0) && FreshState(s)
    ensures |Padded(m, 136)| == 136 && s == XorInto(seq(25, _ => 0), Padded(m, 136), 0, 136)
  {
    hide LaneAt, Padded, Pack, XorInto, Rounds, Sponge;
    OneBlock(m);
    forall i | 0 <= i < 25 ensures s[i] == XorInto(seq(25, _ => 0), Padded(m, 136), 0, 136)[i] { BlockLanes(m, i); }
  }

  method CnHash(input: array<bv8>, md: array<bv8>)
    requires input.Length >= 76 && md.Length >= 200 && md != input
    modifies md
    ensures md[..200] == StateBytes(Sponge(input[..76], 136))
  {
    hide Padded, Rounds, Sponge, StateBytes, XorInto, FreshState;
    ghost var m := input[..76];
    var st := Load(input);
    OneBlock(m);
    CnKeccakF(st);
    ghost var final: Lanes := st[..];
    StateOut(st, md, 200);
    assert StateBytes(final)[..200] == StateBytes(final);
    assert input[..76] == m;
  }
}
