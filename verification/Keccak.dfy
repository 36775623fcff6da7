/** Keccak-f[1600] and the sponge of c_keccak.c, in place, against sections 3.2 and 5.1 of FIPS 202. */
module Keccak {
  import opened Powers

  type Lane = bv64

  /** A distance to shift by, as bits. */
  type Amount = bv7

  type Lanes = s: seq<Lane> | |s| == 25 witness seq(25, _ => 0)

  // Operations on lanes, named so that proofs can keep them apart from the bits.

  function XorL(x: Lane, y: Lane): Lane { x ^ y }
  function XorFive(a: Lane, b: Lane, c: Lane, d: Lane, e: Lane): Lane { XorL(XorL(XorL(XorL(a, b), c), d), e) }
  function AndNot(x: Lane, y: Lane): Lane { !x & y }

  function Rotl(x: Lane, n: nat): Lane
    requires n < 64
  {
    Turned(x, n as Amount)
  }

  function Turned(x: Lane, a: Amount): Lane
    requires a < 64
  {
    (x << a) | (x >> (64 - a))
  }

  // The five step mappings; lane x + 5 y is in column x and row y.

  function ColumnParity(s: Lanes, x: nat): Lane
    requires x < 5
  {
    XorFive(s[x], s[x + 5], s[x + 10], s[x + 15], s[x + 20])
  }

  function ThetaEffect(s: Lanes, x: nat): Lane
    requires x < 5
  {
    XorL(ColumnParity(s, (x + 4) % 5), Rotl(ColumnParity(s, (x + 1) % 5), 1))
  }

  function Column(i: nat): (x: nat)
    requires i < 25
    ensures x < 5
  {
    if i < 5 then i else if i < 10 then i - 5 else if i < 15 then i - 10 else if i < 20 then i - 15 else i - 20
  }

  function Theta(s: Lanes): Lanes {
    seq(25, i requires 0 <= i < 25 => XorL(s[i], ThetaEffect(s, Column(i))))
  }

  /** Pi: where lane i comes from. */
  function Source(i: nat): (j: nat)
    requires i < 25
    ensures j < 25
  {
    var x, y := i % 5, i / 5;
    (x + 3 * y) % 5 + 5 * x
  }

  /** Rho: how far a lane is rotated. */
  function Offset(i: nat): (r: nat)
    requires i < 25
    ensures r < 64
  {
    if i == 0 then 0 else if i == 1 then 1 else if i == 2 then 62 else if i == 3 then 28 else if i == 4 then 27 else
    if i == 5 then 36 else if i == 6 then 44 else if i == 7 then 6 else if i == 8 then 55 else if i == 9 then 20 else
    if i == 10 then 3 else if i == 11 then 10 else if i == 12 then 43 else if i == 13 then 25 else if i == 14 then 39 else
    if i == 15 then 41 else if i == 16 then 45 else if i == 17 then 15 else if i == 18 then 21 else if i == 19 then 8 else
    if i == 20 then 18 else if i == 21 then 2 else if i == 22 then 61 else if i == 23 then 56 else 14
  }

  function RhoPi(s: Lanes): Lanes {
    seq(25, i requires 0 <= i < 25 => Rotl(s[Source(i)], Offset(Source(i))))
  }

  /** The lane n columns to the right in the same row, going round. */
  function Right(i: nat, n: nat): (j: nat)
    requires i < 25 && n < 5
    ensures j < 25 && j / 5 == i / 5
  {
    if i % 5 + n < 5 then i + n else i + n - 5
  }

  function Chi(s: Lanes): Lanes {
    seq(25, i requires 0 <= i < 25 => XorL(s[i], AndNot(s[Right(i, 1)], s[Right(i, 2)])))
  }

  const RNDC: seq<Lane> := [
    0x0000000000000001, 0x0000000000008082, 0x800000000000808a,
    0x8000000080008000, 0x000000000000808b, 0x0000000080000001,
    0x8000000080008081, 0x8000000000008009, 0x000000000000008a,
    0x0000000000000088, 0x0000000080008009, 0x000000008000000a,
    0x000000008000808b, 0x800000000000008b, 0x8000000000008089,
    0x8000000000008003, 0x8000000000008002, 0x8000000000000080,
    0x000000000000800a, 0x800000008000000a, 0x8000000080008081,
    0x8000000000008080, 0x0000000080000001, 0x8000000080008008
  ]

  function RoundConstant(n: nat): Lane
    requires n < 24
  {
    RNDC[n]
  }

  function Iota(s: Lanes, c: Lane): Lanes { s[0 := XorL(s[0], c)] }

  function Round(s: Lanes, n: nat): Lanes
    requires n < 24
  {
    Iota(Chi(RhoPi(Theta(s))), RoundConstant(n))
  }

  function Rounds(s: Lanes, n: nat): Lanes
    requires n <= 24
  {
    if n == 0 then s else Round(Rounds(s, n - 1), n - 1)
  }

  // Rho and Pi as one tour of the lanes.

  function Rotc(i: nat): (r: nat)
    requires i < 24
    ensures r < 64
  {
    if i == 0 then 1 else if i == 1 then 3 else if i == 2 then 6 else if i == 3 then 10 else if i == 4 then 15 else
    if i == 5 then 21 else if i == 6 then 28 else if i == 7 then 36 else if i == 8 then 45 else if i == 9 then 55 else
    if i == 10 then 2 else if i == 11 then 14 else if i == 12 then 27 else if i == 13 then 41 else if i == 14 then 56 else
    if i == 15 then 8 else if i == 16 then 25 else if i == 17 then 43 else if i == 18 then 62 else if i == 19 then 18 else
    if i == 20 then 39 else if i == 21 then 61 else if i == 22 then 20 else 44
  }

  function Piln(i: nat): (r: nat)
    requires i < 24
    ensures 0 < r < 25
  {
    if i == 0 then 10 else if i == 1 then 7 else if i == 2 then 11 else if i == 3 then 17 else if i == 4 then 18 else
    if i == 5 then 3 else if i == 6 then 5 else if i == 7 then 16 else if i == 8 then 8 else if i == 9 then 21 else
    if i == 10 then 24 else if i == 11 then 4 else if i == 12 then 15 else if i == 13 then 23 else if i == 14 then 19 else
    if i == 15 then 13 else if i == 16 then 12 else if i == 17 then 2 else if i == 18 then 20 else if i == 19 then 14 else
    if i == 20 then 22 else if i == 21 then 9 else if i == 22 then 6 else 1
  }

  /** At which step of the tour a lane is written. */
  function Step(i: nat): nat
    requires i < 25
  {
    if i == 0 then 24 else if i == 1 then 23 else if i == 2 then 17 else if i == 3 then 5 else if i == 4 then 11 else
    if i == 5 then 6 else if i == 6 then 22 else if i == 7 then 1 else if i == 8 then 8 else if i == 9 then 21 else
    if i == 10 then 0 else if i == 11 then 2 else if i == 12 then 16 else if i == 13 then 15 else if i == 14 then 19 else
    if i == 15 then 12 else if i == 16 then 7 else if i == 17 then 3 else if i == 18 then 4 else if i == 19 then 14 else
    if i == 20 then 18 else if i == 21 then 9 else if i == 22 then 20 else if i == 23 then 13 else 10
  }

  /** The lane that step n of the tour reads: the one written at the step before. */
  function Before(n: nat): nat
    requires n < 25
  {
    if n == 0 then 1 else Piln(n - 1)
  }

  lemma TourOrder(n: nat)
    requires n < 24
    ensures Step(Piln(n)) == n
  {
  }

  lemma TourSource(n: nat)
    requires n < 24
    ensures Source(Piln(n)) == Before(n)
  {
    hide Offset, Rotc, Step;
    if n < 12 {} else {}
  }

  lemma TourRotation(n: nat)
    requires n < 24
    ensures Offset(Before(n)) == Rotc(n)
  {
    hide Step, Source;
  }

  lemma RotationNext(n: nat)
    requires n < 24
    ensures Rotc(n) == ((if n == 0 then 0 else Rotc(n - 1)) + n + 1) % 64
  {
  }

  lemma TriangleNext(n: nat)
    ensures (n + 1) * (n + 2) / 2 == n * (n + 1) / 2 + n + 1
  {
    assert (n + 1) * (n + 2) == n * (n + 1) + 2 * (n + 1);
  }

  lemma AddModulo(t: nat, k: nat)
    ensures (t % 64 + k) % 64 == (t + k) % 64
  {
  }

  /** The rotation amounts are the triangular numbers. */
  lemma {:induction false} RotationsTriangular(n: nat)
    requires n < 24
    ensures Rotc(n) == (n + 1) * (n + 2) / 2 % 64
  {
    hide Rotc;
    RotationNext(n);
    TriangleNext(n);
    if n > 0 {
      RotationsTriangular(n - 1);
      AddModulo(n * (n + 1) / 2, n + 1);
    }
  }

  /** Every lane but the first is written once. */
  lemma TourReachesAll(q: nat)
    requires q < 25
    ensures Step(q) <= 24 && (q > 0 ==> Step(q) < 24 && Piln(Step(q)) == q)
    ensures q == 0 ==> Step(q) == 24 && Source(q) == 0 && Offset(q) == 0
  {
  }

  lemma NoRotation(x: Lane)
    ensures Rotl(x, 0) == x
  {
  }


  // In place.

  method ThetaInPlace(st: array<Lane>)
    requires st.Length == 25
    modifies st
    ensures st[..] == Theta(old(st[..]))
  {
    hide XorFive, XorL, Rotl, ColumnParity, Column;
    ghost var s: Lanes := st[..];
    var bc := Parity(st);
    for i := 0 to 5
      invariant forall k :: 0 <= k < 25 ==> st[k] == if Column(k) < i then XorL(s[k], ThetaEffect(s, Column(k))) else s[k]
    {
      var t := XorL(bc[(i + 4) % 5], Rotl(bc[(i + 1) % 5], 1));
      assert t == ThetaEffect(s, i);
      ghost var before: Lanes := st[..];
      AddToColumn(st, i, t);
      ColumnAdded(before, st[..], i, t);
    }
  }

  lemma ColumnAdded(before: Lanes, after: Lanes, i: nat, t: Lane)
    requires i < 5
    requires forall k :: 0 <= k < 25 && k != i && k != i + 5 && k != i + 10 && k != i + 15 && k != i + 20 ==> after[k] == before[k]
    requires after[i] == XorL(before[i], t) && after[i + 5] == XorL(before[i + 5], t) && after[i + 10] == XorL(before[i + 10], t)
    requires after[i + 15] == XorL(before[i + 15], t) && after[i + 20] == XorL(before[i + 20], t)
    ensures forall k :: 0 <= k < 25 ==> after[k] == if Column(k) == i then XorL(before[k], t) else before[k]
  {
    hide XorL, Column;
    forall k | 0 <= k < 25 ensures after[k] == if Column(k) == i then XorL(before[k], t) else before[k] {
      ColumnMembers(i, k);
    }
  }

  lemma ColumnMembers(i: nat, k: nat)
    requires i < 5 && k < 25
    ensures Column(k) == i <==> k == i || k == i + 5 || k == i + 10 || k == i + 15 || k == i + 20
  {
  }

  method Parity(st: array<Lane>) returns (bc: seq<Lane>)
    requires st.Length == 25
    ensures |bc| == 5 && forall x :: 0 <= x < 5 ==> bc[x] == ColumnParity(st[..], x)
  {
    hide XorFive, ColumnParity;
    bc := [
      XorFive(st[0], st[5], st[10], st[15], st[20]),
      XorFive(st[1], st[6], st[11], st[16], st[21]),
      XorFive(st[2], st[7], st[12], st[17], st[22]),
      XorFive(st[3], st[8], st[13], st[18], st[23]),
      XorFive(st[4], st[9], st[14], st[19], st[24])];
    Parities(st[..], bc);
  }

  lemma Parities(s: Lanes, bc: seq<Lane>)
    requires |bc| == 5
    requires bc[0] == XorFive(s[0], s[5], s[10], s[15], s[20])
    requires bc[1] == XorFive(s[1], s[6], s[11], s[16], s[21])
    requires bc[2] == XorFive(s[2], s[7], s[12], s[17], s[22])
    requires bc[3] == XorFive(s[3], s[8], s[13], s[18], s[23])
    requires bc[4] == XorFive(s[4], s[9], s[14], s[19], s[24])
    ensures forall x :: 0 <= x < 5 ==> bc[x] == ColumnParity(s, x)
  {
    hide XorFive;
    forall x | 0 <= x < 5 ensures bc[x] == ColumnParity(s, x) {
      if x == 0 {} else if x == 1 {} else if x == 2 {} else if x == 3 {} else {}
    }
  }

  method AddToColumn(st: array<Lane>, i: nat, t: Lane)
    requires st.Length == 25 && i < 5
    modifies st
    ensures st[i] == XorL(old(st[i]), t) && st[i + 5] == XorL(old(st[i + 5]), t) && st[i + 10] == XorL(old(st[i + 10]), t)
    ensures st[i + 15] == XorL(old(st[i + 15]), t) && st[i + 20] == XorL(old(st[i + 20]), t)
    ensures forall k :: 0 <= k < 25 && k != i && k != i + 5 && k != i + 10 && k != i + 15 && k != i + 20 ==> st[k] == old(st[k])
  {
    hide XorL;
    st[i] := XorL(st[i], t);
    st[i + 5] := XorL(st[i + 5], t);
    st[i + 10] := XorL(st[i + 10], t);
    st[i + 15] := XorL(st[i + 15], t);
    st[i + 20] := XorL(st[i + 20], t);
  }

  /** After i steps of the tour the lanes written so far are those of RhoPi. */
  ghost predicate Toured(st: Lanes, s: Lanes, i: nat) {
    forall q :: 0 <= q < 25 ==> st[q] == if Step(q) < i then RhoPi(s)[q] else s[q]
  }

  lemma TourStarts(s: Lanes)
    ensures Toured(s, s, 0)
  {
    hide RhoPi, Step;
  }

  lemma TourNext(st: Lanes, s: Lanes, i: nat)
    requires i < 24 && Toured(st, s, i)
    ensures Toured(st[Piln(i) := Rotl(s[Before(i)], Rotc(i))], s, i + 1)
    ensures st[Piln(i)] == s[Before(i + 1)]
  {
    hide Rotl, RhoPi, Step, Piln, Rotc;
    TourOrder(i);
    LaneOfTour(s, i);
    forall q | 0 <= q < 25 && Step(q) == i ensures q == Piln(i) { TourReachesAll(q); }
  }

  lemma LaneOfTour(s: Lanes, i: nat)
    requires i < 24
    ensures RhoPi(s)[Piln(i)] == Rotl(s[Before(i)], Rotc(i))
  {
    hide Rotl, Source, Offset, Step, Piln, Rotc, Before;
    TourSource(i);
    TourRotation(i);
  }

  lemma TourEnds(st: Lanes, s: Lanes)
    requires Toured(st, s, 24)
    ensures st == RhoPi(s)
  {
    hide Rotl, Source, Offset, Step, Piln;
    forall q | 0 <= q < 25 ensures st[q] == RhoPi(s)[q] {
      TourReachesAll(q);
      NoRotation(s[0]);
    }
  }

  /** The lanes are rotated along one tour that starts and ends at lane 1. */
  method RhoPiInPlace(st: array<Lane>)
    requires st.Length == 25
    modifies st
    ensures st[..] == RhoPi(old(st[..]))
  {
    hide Rotl, RhoPi, Piln, Rotc, Toured;
    ghost var s: Lanes := st[..];
    TourStarts(s);
    var t := st[1];
    for i := 0 to 24
      invariant t == s[Before(i)]
      invariant Toured(st[..], s, i)
    {
      TourNext(st[..], s, i);
      var bc0 := st[Piln(i)];
      st[Piln(i)] := Rotl(t, Rotc(i));
      t := bc0;
    }
    TourEnds(st[..], s);
  }

  method ChiInPlace(st: array<Lane>)
    requires st.Length == 25
    modifies st
    ensures st[..] == Chi(old(st[..]))
  {
    hide XorL, AndNot, Chi;
    ghost var s: Lanes := st[..];
    var j := 0;
    while j < 25
      invariant 0 <= j <= 25 && j % 5 == 0
      invariant forall k :: 0 <= k < j ==> st[k] == Chi(s)[k]
      invariant forall k :: j <= k < 25 ==> st[k] == s[k]
    {
      ChiRow(st, j);
      ChiOfRow(s, j);
      j := j + 5;
    }
  }

  method ChiRow(st: array<Lane>, j: nat)
    requires st.Length == 25 && j + 5 <= 25
    modifies st
    ensures var a, b, c, d, e := old(st[j]), old(st[j + 1]), old(st[j + 2]), old(st[j + 3]), old(st[j + 4]);
            && st[j] == XorL(a, AndNot(b, c)) && st[j + 1] == XorL(b, AndNot(c, d)) && st[j + 2] == XorL(c, AndNot(d, e))
            && st[j + 3] == XorL(d, AndNot(e, a)) && st[j + 4] == XorL(e, AndNot(a, b))
    ensures forall k :: 0 <= k < 25 && !(j <= k < j + 5) ==> st[k] == old(st[k])
  {
    hide XorL, AndNot;
    var bc0, bc1, bc2, bc3, bc4 := st[j], st[j + 1], st[j + 2], st[j + 3], st[j + 4];
    st[j] := XorL(st[j], AndNot(bc1, bc2));
    st[j + 1] := XorL(st[j + 1], AndNot(bc2, bc3));
    st[j + 2] := XorL(st[j + 2], AndNot(bc3, bc4));
    st[j + 3] := XorL(st[j + 3], AndNot(bc4, bc0));
    st[j + 4] := XorL(st[j + 4], AndNot(bc0, bc1));
  }

  lemma ChiOfRow(s: Lanes, j: nat)
    requires j + 5 <= 25 && j % 5 == 0
    ensures var a, b, c, d, e := s[j], s[j + 1], s[j + 2], s[j + 3], s[j + 4];
            && Chi(s)[j] == XorL(a, AndNot(b, c)) && Chi(s)[j + 1] == XorL(b, AndNot(c, d)) && Chi(s)[j + 2] == XorL(c, AndNot(d, e))
            && Chi(s)[j + 3] == XorL(d, AndNot(e, a)) && Chi(s)[j + 4] == XorL(e, AndNot(a, b))
  {
    hide XorL, AndNot;
  }

  method KeccakF(st: array<Lane>, rounds: nat)
    requires st.Length == 25 && rounds <= 24
    modifies st
    ensures st[..] == Rounds(old(st[..]), rounds)
  {
    hide Theta, RhoPi, Chi, XorL, RoundConstant;
    for round := 0 to rounds
      invariant st[..] == Rounds(old(st[..]), round)
    {
      ThetaInPlace(st);
      RhoPiInPlace(st);
      ChiInPlace(st);
      st[0] := XorL(st[0], RoundConstant(round));
    }
  }

  // Bytes and lanes; memory is little-endian.

  type Bytes = seq<bv8>

  function Pack(b0: bv8, b1: bv8, b2: bv8, b3: bv8, b4: bv8, b5: bv8, b6: bv8, b7: bv8): Lane {
    b0 as bv64 | (b1 as bv64 << 8) | (b2 as bv64 << 16) | (b3 as bv64 << 24)
    | (b4 as bv64 << 32) | (b5 as bv64 << 40) | (b6 as bv64 << 48) | (b7 as bv64 << 56)
  }

  function LaneAt(m: Bytes, at: nat): Lane
    requires at + 8 <= |m|
  {
    Pack(m[at], m[at + 1], m[at + 2], m[at + 3], m[at + 4], m[at + 5], m[at + 6], m[at + 7])
  }

  /** Byte k of a lane. */
  function ByteOfLane(x: Lane, k: nat): bv8
    requires k < 8
  {
    if k == 0 then (x & 0xff) as bv8 else if k == 1 then ((x >> 8) & 0xff) as bv8
    else if k == 2 then ((x >> 16) & 0xff) as bv8 else if k == 3 then ((x >> 24) & 0xff) as bv8
    else if k == 4 then ((x >> 32) & 0xff) as bv8 else if k == 5 then ((x >> 40) & 0xff) as bv8
    else if k == 6 then ((x >> 48) & 0xff) as bv8 else ((x >> 56) & 0xff) as bv8
  }

  /** The state as 200 bytes of memory. */
  function StateBytes(s: Lanes): (b: Bytes)
    ensures |b| == 200
  {
    seq(200, i requires 0 <= i < 200 => ByteOfLane(s[i / 8], i % 8))
  }

  // The sponge of section 4 of FIPS 202 with the padding of the original Keccak submission.

  /** Rates the program can use: its buffer has 144 bytes.  Of a rate that is not a number of whole lanes it adds
      the whole lanes only. */
  predicate RateOk(rate: nat) { 1 <= rate <= 144 }

  function Padding(n: nat, rate: nat): (p: Bytes)
    requires RateOk(rate) && n < rate
    ensures |p| == rate - n
  {
    if n == rate - 1 then [0x81] else [0x01] + seq(rate - n - 2, _ => 0) + [0x80]
  }

  /** Where block n starts. */
  function Start(n: nat, rate: nat): nat {
    if n == 0 then 0 else Start(n - 1, rate) + rate
  }

  lemma StartIs(n: nat, rate: nat)
    ensures Start(n, rate) == n * rate
  {
    if n > 0 {
      StartIs(n - 1, rate);
      Distribute(n - 1, 1, rate);
    }
  }

  /** How many blocks a message of n bytes has with its padding, and how many bytes of it the last one holds. */
  function Blocks(n: nat, rate: nat): (k: nat)
    requires rate > 0
  {
    DivMod(n, rate);
    n / rate + 1
  }

  function Left(n: nat, rate: nat): (k: nat)
    requires rate > 0
    ensures k < rate
  {
    n % rate
  }

  lemma StartAfter(n: nat, rate: nat)
    requires rate > 0
    ensures Start(Blocks(n, rate), rate) == n + (rate - Left(n, rate))
  {
    DivMod(n, rate);
    StartIs(n / rate, rate);
  }

  function Padded(m: Bytes, rate: nat): (p: Bytes)
    requires RateOk(rate)
    ensures |p| == Start(Blocks(|m|, rate), rate)
  {
    hide Start, Padding, Blocks, Left;
    StartAfter(|m|, rate);
    m + Padding(Left(|m|, rate), rate)
  }

  function XorInto(s: Lanes, p: Bytes, at: nat, rate: nat): Lanes
    requires RateOk(rate) && at + rate <= |p|
  {
    seq(25, i requires 0 <= i < 25 => if i < rate / 8 then XorL(s[i], LaneAt(p, at + 8 * i)) else s[i])
  }

  /** The state after n blocks of p. */
  function Absorbed(p: Bytes, rate: nat, n: nat): Lanes
    requires RateOk(rate) && Start(n, rate) <= |p|
  {
    if n == 0 then seq(25, _ => 0)
    else Rounds(XorInto(Absorbed(p, rate, n - 1), p, Start(n - 1, rate), rate), 24)
  }

  function Sponge(m: Bytes, rate: nat): Lanes
    requires RateOk(rate)
  {
    Absorbed(Padded(m, rate), rate, Blocks(|m|, rate))
  }

  lemma XorIntoSame(s: Lanes, p: Bytes, at: nat, q: Bytes, from: nat, rate: nat)
    requires RateOk(rate) && at + rate <= |p| && from + rate <= |q|
    requires p[at..at + rate] == q[from..from + rate]
    ensures XorInto(s, p, at, rate) == XorInto(s, q, from, rate)
  {
    hide XorL, LaneAt;
    forall i | 0 <= i < rate / 8 ensures LaneAt(p, at + 8 * i) == LaneAt(q, from + 8 * i) {
      LaneSame(p, at + 8 * i, p[at..at + rate], 8 * i);
      LaneSame(q, from + 8 * i, q[from..from + rate], 8 * i);
    }
  }

  lemma LaneSame(p: Bytes, at: nat, q: Bytes, from: nat)
    requires at + 8 <= |p| && from + 8 <= |q| && forall k :: at <= k < at + 8 ==> p[k] == q[k - at + from]
    ensures LaneAt(p, at) == LaneAt(q, from)
  {
    hide Pack;
  }

  // Which rates lose bytes.

  lemma PackInjective(b0: bv8, b1: bv8, b2: bv8, b3: bv8, b4: bv8, b5: bv8, b6: bv8, b7: bv8,
                      c0: bv8, c1: bv8, c2: bv8, c3: bv8, c4: bv8, c5: bv8, c6: bv8, c7: bv8)
    requires Pack(b0, b1, b2, b3, b4, b5, b6, b7) == Pack(c0, c1, c2, c3, c4, c5, c6, c7)
    ensures b0 == c0 && b1 == c1 && b2 == c2 && b3 == c3 && b4 == c4 && b5 == c5 && b6 == c6 && b7 == c7
  {
  }

  lemma LaneInjective(p: Bytes, q: Bytes, at: nat, k: nat)
    requires at + 8 <= |p| == |q| && LaneAt(p, at) == LaneAt(q, at) && at <= k < at + 8
    ensures p[k] == q[k]
  {
    hide Pack;
    PackInjective(p[at], p[at + 1], p[at + 2], p[at + 3], p[at + 4], p[at + 5], p[at + 6], p[at + 7],
                  q[at], q[at + 1], q[at + 2], q[at + 3], q[at + 4], q[at + 5], q[at + 6], q[at + 7]);
  }

  lemma XorCancels(x: Lane, y: Lane, z: Lane)
    requires XorL(x, y) == XorL(x, z)
    ensures y == z
  {
    assert x ^ (x ^ y) == y && x ^ (x ^ z) == z;
  }

  /** Blocks with the same effect on a state. */
  ghost predicate Indistinct(s: Lanes, p: Bytes, q: Bytes, rate: nat)
    requires RateOk(rate)
  {
    |p| == |q| == rate && XorInto(s, p, 0, rate) == XorInto(s, q, 0, rate)
  }

  lemma WholeLanesDistinct(s: Lanes, p: Bytes, q: Bytes, rate: nat)
    requires RateOk(rate) && rate % 8 == 0 && Indistinct(s, p, q, rate)
    ensures p == q
  {
    hide XorL, LaneAt;
    forall i | 0 <= i < rate ensures p[i] == q[i] {
      var lane := i / 8;
      assert XorInto(s, p, 0, rate)[lane] == XorInto(s, q, 0, rate)[lane];
      XorCancels(s[lane], LaneAt(p, 8 * lane), LaneAt(q, 8 * lane));
      LaneInjective(p, q, 8 * lane, i);
    }
  }

  /** The last byte of a block is lost, and with it the last bit of the padding. */
  lemma PartLaneLost(s: Lanes, p: Bytes, last: bv8, rate: nat)
    requires RateOk(rate) && rate % 8 != 0 && |p| == rate
    ensures Indistinct(s, p, p[rate - 1 := last], rate)
  {
    hide XorL, LaneAt;
    var q := p[rate - 1 := last];
    forall i | 0 <= i < rate / 8 ensures LaneAt(p, 8 * i) == LaneAt(q, 8 * i) {
      LaneSame(p, 8 * i, q, 8 * i);
    }
    assert XorInto(s, p, 0, rate) == XorInto(s, q, 0, rate);
  }

  /** Every block of a message has its own effect exactly if the rate is a number of whole lanes, which for
      the rates of keccak means that the digest size is a multiple of four. */
  lemma BlocksDistinct(rate: nat)
    requires RateOk(rate)
    ensures (forall s: Lanes, p, q :: Indistinct(s, p, q, rate) ==> p == q) <==> rate % 8 == 0
  {
    hide Indistinct;
    if rate % 8 == 0 {
      forall s: Lanes, p, q | Indistinct(s, p, q, rate) ensures p == q { WholeLanesDistinct(s, p, q, rate); }
    } else {
      var s: Lanes, p: Bytes := seq(25, _ => 0), seq(rate, _ => 0);
      PartLaneLost(s, p, 1, rate);
      assert p[rate - 1 := 1][rate - 1] != p[rate - 1];
    }
  }

  lemma PlaceInBlock(i: nat, n: nat, rate: nat)
    requires rate > 0 && Start(n, rate) <= i < Start(n, rate) + 8 * (rate / 8)
    ensures Left(i, rate) < 8 * (rate / 8)
  {
    StartIs(n, rate);
    QuotientUnique(i, rate, n, i - Start(n, rate));
  }

  lemma BlockWithoutByte(s: Lanes, p: Bytes, i: nat, x: bv8, rate: nat, n: nat)
    requires RateOk(rate) && i < |p| && Left(i, rate) >= 8 * (rate / 8) && Start(n, rate) + rate <= |p|
    ensures XorInto(s, p, Start(n, rate), rate) == XorInto(s, p[i := x], Start(n, rate), rate)
  {
    hide XorL, LaneAt, Left, Start;
    var at, q := Start(n, rate), p[i := x];
    forall k | 0 <= k < rate / 8 ensures LaneAt(p, at + 8 * k) == LaneAt(q, at + 8 * k) {
      if at + 8 * k <= i < at + 8 * k + 8 { PlaceInBlock(i, n, rate); }
      LaneSame(p, at + 8 * k, q, at + 8 * k);
    }
  }

  lemma {:induction false} AbsorbedWithoutByte(p: Bytes, i: nat, x: bv8, rate: nat, n: nat)
    requires RateOk(rate) && i < |p| && Left(i, rate) >= 8 * (rate / 8) && Start(n, rate) <= |p|
    ensures Absorbed(p, rate, n) == Absorbed(p[i := x], rate, n)
  {
    hide Rounds, XorInto, Left;
    if n > 0 {
      AbsorbedWithoutByte(p, i, x, rate, n - 1);
      BlockWithoutByte(Absorbed(p, rate, n - 1), p, i, x, rate, n - 1);
    }
  }

  /** A byte behind the whole lanes of its block does not matter for the hash, wherever in the message it is. */
  lemma ByteLost(m: Bytes, i: nat, x: bv8, rate: nat)
    requires RateOk(rate) && i < |m| && i % rate >= 8 * (rate / 8)
    ensures Sponge(m, rate) == Sponge(m[i := x], rate)
  {
    hide Absorbed, Padding, Start, Blocks;
    var k := Blocks(|m|, rate);
    assert Padded(m[i := x], rate) == Padded(m, rate)[i := x];
    AbsorbedWithoutByte(Padded(m, rate), i, x, rate, k);
  }

  /** So different messages have the same hash, whatever the digest size, if the rate is no number of whole lanes. */
  lemma MessagesCollide(rate: nat)
    requires RateOk(rate) && rate % 8 != 0
    ensures exists m: Bytes, n: Bytes :: m != n && Sponge(m, rate) == Sponge(n, rate)
  {
    hide Sponge;
    var m: Bytes := seq(rate, _ => 0);
    QuotientUnique(rate - 1, rate, 0, rate - 1);
    ByteLost(m, rate - 1, 1, rate);
    var n := m[rate - 1 := 1];
    assert m[rate - 1] != n[rate - 1];
  }

  lemma StartsEmpty(p: Bytes, rate: nat)
    requires RateOk(rate)
    ensures Absorbed(p, rate, 0) == seq(25, _ => 0)
  {
  }

  /** A whole block of the message. */
  lemma BlockOfMessage(m: Bytes, whole: Bytes, rate: nat, n: nat)
    requires RateOk(rate) && Start(n, rate) + rate <= |m| <= |whole| && m == whole[..|m|]
    ensures Start(n + 1, rate) <= |Padded(m, rate)|
    ensures Rounds(XorInto(Absorbed(Padded(m, rate), rate, n), whole, Start(n, rate), rate), 24) ==
            Absorbed(Padded(m, rate), rate, n + 1)
  {
    hide Rounds, XorInto;
    XorIntoSame(Absorbed(Padded(m, rate), rate, n), Padded(m, rate), Start(n, rate), whole, Start(n, rate), rate);
  }

  /** The rest of the message with the padding is the last block. */
  lemma BlockOfPadding(m: Bytes, temp: Bytes, rate: nat, n: nat)
    requires RateOk(rate) && Start(n, rate) <= |m| < Start(n, rate) + rate && |temp| >= rate
    requires temp[..rate] == m[Start(n, rate)..] + Padding(|m| - Start(n, rate), rate)
    ensures Start(n, rate) <= |Padded(m, rate)|
    ensures Rounds(XorInto(Absorbed(Padded(m, rate), rate, n), temp, 0, rate), 24) == Sponge(m, rate)
  {
    hide Rounds, XorInto, Padding;
    var p, at := Padded(m, rate), Start(n, rate);
    StartIs(n, rate);
    QuotientUnique(|m|, rate, n, |m| - at);
    assert p[at..at + rate] == m[at..] + Padding(|m| - at, rate) == temp[0..rate];
    XorIntoSame(Absorbed(p, rate, n), p, at, temp, 0, rate);
  }

  method AbsorbWords(st: array<Lane>, p: array<bv8>, at: nat, rate: nat)
    requires st.Length == 25 && RateOk(rate) && at + rate <= p.Length
    modifies st
    ensures st[..] == XorInto(old(st[..]), p[..], at, rate)
  {
    hide XorL, LaneAt;
    for i := 0 to rate / 8
      invariant forall k :: 0 <= k < 25 ==> st[k] == if k < i then XorL(old(st[k]), LaneAt(p[..], at + 8 * k)) else old(st[k])
    {
      st[i] := XorL(st[i], LaneAt(p[..], at + 8 * i));
    }
  }

  /** The last block: what is left of the message, and the padding. */
  method LastBlock(temp: array<bv8>, input: array<bv8>, at: nat, left: nat, rate: nat)
    requires RateOk(rate) && left < rate && temp.Length == 144 && at + left <= input.Length && temp != input
    modifies temp
    ensures temp[..rate] == input[at..at + left] + Padding(left, rate)
  {
    forall k | 0 <= k < left { temp[k] := input[at + k]; }
    temp[left] := 1;
    forall k | left < k < rate { temp[k] := 0; }
    temp[rate - 1] := temp[rate - 1] | 0x80;
  }

  method Hash(input: array<bv8>, inlen: nat, md: array<bv8>, mdlen: nat)
    requires inlen <= input.Length && mdlen <= md.Length && md != input
    requires mdlen == 200 || 28 <= mdlen <= 99
    modifies md
    ensures md[..mdlen] == StateBytes(Sponge(input[..inlen], if mdlen == 200 then 136 else 200 - 2 * mdlen))[..mdlen]
  {
    hide Absorbed, Rounds, XorInto, Padded, StateBytes, Padding, Sponge;
    var rsiz := if mdlen == 200 then 136 else 200 - 2 * mdlen;
    ghost var m := input[..inlen];
    ghost var p := Padded(m, rsiz);
    var st := new Lane[25](_ => 0);
    var temp := new bv8[144](_ => 0);
    var at, left := 0, inlen;
    ghost var n := 0;
    StartsEmpty(p, rsiz);
    assert st[..] == seq(25, _ => 0);
    while left >= rsiz
      invariant at + left == inlen && at == Start(n, rsiz) && 0 <= left
      invariant Start(n, rsiz) <= |p| && st[..] == Absorbed(p, rsiz, n)
      modifies st
    {
      BlockOfMessage(m, input[..], rsiz, n);
      AbsorbWords(st, input, at, rsiz);
      KeccakF(st, 24);
      at, left := at + rsiz, left - rsiz;
      n := n + 1;
    }
    Finish(st, temp, input, inlen, at, left, rsiz, n);
    StateOut(st, md, mdlen);
  }

  /** The last block of the message in input[..inlen], whose first n blocks have been absorbed. */
  method Finish(st: array<Lane>, temp: array<bv8>, input: array<bv8>, inlen: nat, at: nat, left: nat, rate: nat, ghost n: nat)
    requires st.Length == 25 && temp.Length == 144 && temp != input && inlen <= input.Length
    requires RateOk(rate) && at == Start(n, rate) && at + left == inlen && left < rate && at <= |Padded(input[..inlen], rate)|
    requires st[..] == Absorbed(Padded(input[..inlen], rate), rate, n)
    modifies st, temp
    ensures st[..] == Sponge(input[..inlen], rate)
  {
    hide Absorbed, Rounds, XorInto, Padded, Padding, Sponge, Start;
    ghost var m := input[..inlen];
    LastBlock(temp, input, at, left, rate);
    assert input[at..at + left] == m[at..];
    BlockOfPadding(m, temp[..], rate, n);
    AbsorbWords(st, temp, 0, rate);
    KeccakF(st, 24);
  }

  method StateOut(st: array<Lane>, md: array<bv8>, mdlen: nat)
    requires st.Length == 25 && mdlen <= md.Length && mdlen <= 200
    modifies md
    ensures md[..mdlen] == StateBytes(st[..])[..mdlen]
  {
    hide ByteOfLane;
    for k := 0 to mdlen
      invariant forall j :: 0 <= j < k ==> md[j] == StateBytes(st[..])[j]
    {
      md[k] := ByteOfLane(st[k / 8], k % 8);
    }
  }
}
