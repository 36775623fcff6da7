/** AES as FIPS 197 writes it, with the substitution table computed in the field, and the proof that oaes_lib.c has
    these tables and enciphers with them. */
module Fips197 {
  import opened Powers
  import opened AesTables
  import opened AesField
  import opened Aes
  import opened OaesLib

  // The field, section 4.2.

  function Xtime(x: bv8): bv8 { (x << 1) ^ (if x & 0x80 != 0 then 0x1b else 0) }

  function Bit(y: bv8, x: bv8, mask: bv8): bv8 { if y & mask != 0 then x else 0 }

  /** The product: x times each power of {02} that y contains, added. */
  function Times(x: bv8, y: bv8): bv8 {
    var x1 := Xtime(x);
    var x2 := Xtime(x1);
    var x3 := Xtime(x2);
    var x4 := Xtime(x3);
    var x5 := Xtime(x4);
    var x6 := Xtime(x5);
    var x7 := Xtime(x6);
    Bit(y, x, 0x01) ^ Bit(y, x1, 0x02) ^ Bit(y, x2, 0x04) ^ Bit(y, x3, 0x08)
    ^ Bit(y, x4, 0x10) ^ Bit(y, x5, 0x20) ^ Bit(y, x6, 0x40) ^ Bit(y, x7, 0x80)
  }

  /** The multiplicative inverse; zero is its own. */
  predicate Inverse(x: bv8, y: bv8) {
    if x == 0 then y == 0 else Times(x, y) == 1
  }

  /** The affine transformation of section 5.1.1. */
  function Affine(y: bv8): bv8 {
    y ^ y.RotateLeft(1) ^ y.RotateLeft(2) ^ y.RotateLeft(3) ^ y.RotateLeft(4) ^ 0x63
  }

  function AffineUndone(z: bv8): bv8 {
    z.RotateLeft(1) ^ z.RotateLeft(3) ^ z.RotateLeft(6) ^ 0x05
  }

  lemma AffineBack(z: bv8)
    ensures Affine(AffineUndone(z)) == z
  {
  }

  lemma InversesIn0(x: bv8)
    requires x >> 4 == 0
    ensures Inverse(x, AffineUndone(SubByte(x)))
  {
  }

  lemma InversesIn1(x: bv8)
    requires x >> 4 == 1
    ensures Inverse(x, AffineUndone(SubByte(x)))
  {
  }

  lemma InversesIn2(x: bv8)
    requires x >> 4 == 2
    ensures Inverse(x, AffineUndone(SubByte(x)))
  {
  }

  lemma InversesIn3(x: bv8)
    requires x >> 4 == 3
    ensures Inverse(x, AffineUndone(SubByte(x)))
  {
  }

  lemma InversesIn4(x: bv8)
    requires x >> 4 == 4
    ensures Inverse(x, AffineUndone(SubByte(x)))
  {
  }

  lemma InversesIn5(x: bv8)
    requires x >> 4 == 5
    ensures Inverse(x, AffineUndone(SubByte(x)))
  {
  }

  lemma InversesIn6(x: bv8)
    requires x >> 4 == 6
    ensures Inverse(x, AffineUndone(SubByte(x)))
  {
  }

  lemma InversesIn7(x: bv8)
    requires x >> 4 == 7
    ensures Inverse(x, AffineUndone(SubByte(x)))
  {
  }

  lemma InversesIn8(x: bv8)
    requires x >> 4 == 8
    ensures Inverse(x, AffineUndone(SubByte(x)))
  {
  }

  lemma InversesIn9(x: bv8)
    requires x >> 4 == 9
    ensures Inverse(x, AffineUndone(SubByte(x)))
  {
  }

  lemma InversesIna(x: bv8)
    requires x >> 4 == 10
    ensures Inverse(x, AffineUndone(SubByte(x)))
  {
  }

  lemma InversesInb(x: bv8)
    requires x >> 4 == 11
    ensures Inverse(x, AffineUndone(SubByte(x)))
  {
  }

  lemma InversesInc(x: bv8)
    requires x >> 4 == 12
    ensures Inverse(x, AffineUndone(SubByte(x)))
  {
  }

  lemma InversesInd(x: bv8)
    requires x >> 4 == 13
    ensures Inverse(x, AffineUndone(SubByte(x)))
  {
  }

  lemma InversesIne(x: bv8)
    requires x >> 4 == 14
    ensures Inverse(x, AffineUndone(SubByte(x)))
  {
  }

  lemma InversesInf(x: bv8)
    requires x >> 4 == 15
    ensures Inverse(x, AffineUndone(SubByte(x)))
  {
  }

  lemma TableOfInverses(x: bv8)
    ensures Inverse(x, AffineUndone(SubByte(x)))
  {
    hide SubByte, Inverse, AffineUndone;
    match x >> 4
    case 0 => InversesIn0(x);
    case 1 => InversesIn1(x);
    case 2 => InversesIn2(x);
    case 3 => InversesIn3(x);
    case 4 => InversesIn4(x);
    case 5 => InversesIn5(x);
    case 6 => InversesIn6(x);
    case 7 => InversesIn7(x);
    case 8 => InversesIn8(x);
    case 9 => InversesIn9(x);
    case 10 => InversesIna(x);
    case 11 => InversesInb(x);
    case 12 => InversesInc(x);
    case 13 => InversesInd(x);
    case 14 => InversesIne(x);
    case _ => InversesInf(x);
  }

  /** The substitution table holds the affine transformation of the inverse. */
  lemma SubByteIsStd(x: bv8)
    ensures exists y: bv8 :: Inverse(x, y) && SubByte(x) == Affine(y)
  {
    hide SubByte, Inverse, Affine, AffineUndone;
    TableOfInverses(x);
    AffineBack(SubByte(x));
  }

  // One round, section 5.1, byte by byte; the byte in row r and column c is byte r + 4 c.

  function Sum(x: bv8, y: bv8): bv8 { x ^ y }

  /** The byte that ShiftRows moves to row r and column c, substituted. */
  function Shifted(s: Block, r: nat, c: nat): bv8
    requires r < 4 && c < 4
  {
    SubByte(s[r + 4 * ((c + r) % 4)])
  }

  /** {02} a + {03} b + d + e */
  function Column(a: bv8, b: bv8, d: bv8, e: bv8): bv8 { Sum(Sum(Sum(Times(a, 0x02), Times(b, 0x03)), d), e) }

  function StdMixed(s: Block, r: nat, c: nat): bv8
    requires r < 4 && c < 4
  {
    Column(Shifted(s, r, c), Shifted(s, (r + 1) % 4, c), Shifted(s, (r + 2) % 4, c), Shifted(s, (r + 3) % 4, c))
  }

  function StdRound(s: Block, k: Block): Block {
    seq(16, i requires 0 <= i < 16 => Sum(StdMixed(s, i % 4, i / 4), k[i]))
  }

  /** The last round has no MixColumns. */
  function StdLastRound(s: Block, k: Block): Block {
    seq(16, i requires 0 <= i < 16 => Sum(Shifted(s, i % 4, i / 4), k[i]))
  }

  /** The state after the first key has been added and n rounds; round key n is bytes 16 n to 16 n + 15 of w. */
  function StdRounds(s: Block, w: Bytes, n: nat): Block
    requires 16 * n + 16 <= |w|
  {
    if n == 0 then seq(16, i requires 0 <= i < 16 => Sum(s[i], w[i]))
    else StdRound(StdRounds(s, w, n - 1), w[16 * n..16 * n + 16])
  }

  function StdCipher(s: Block, w: Bytes, nr: nat): Block
    requires nr >= 1 && |w| == 16 * (nr + 1)
  {
    StdLastRound(StdRounds(s, w, nr - 1), w[16 * nr..16 * nr + 16])
  }

  // Key expansion, section 5.2, as a property of the bytes of the expanded key.

  /** {02}^(n - 1) */
  function Rcon(n: nat): bv8
    requires n >= 1
  {
    if n == 1 then 0x01 else Xtime(Rcon(n - 1))
  }

  /** Byte j of the word that is added to the word nk places before word i. */
  function Temp(w: Bytes, nk: nat, i: nat, j: nat): bv8
    requires nk > 0 && nk <= i && 4 * i <= |w| && j < 4
  {
    if i % nk == 0 then
      DivMod(i, nk);
      var sub := SubByte(w[4 * (i - 1) + (j + 1) % 4]);
      if j == 0 then Sum(sub, Rcon(if i / nk >= 1 then i / nk else 1)) else sub
    else if nk > 6 && i % nk == 4 then SubByte(w[4 * (i - 1) + j])
    else w[4 * (i - 1) + j]
  }

  ghost predicate StdExpanded(key: Bytes, w: Bytes) {
    var nk := |key| / 4;
    && (nk == 4 || nk == 6 || nk == 8) && |key| == 4 * nk && |w| == 16 * (nk + 7)
    && w[..|key|] == key
    && forall i, j :: nk <= i < 4 * (nk + 7) && 0 <= j < 4 ==> NextWord(w, nk, i, j)
  }

  ghost predicate NextWord(w: Bytes, nk: nat, i: nat, j: nat) {
    nk > 0 && nk <= i && 4 * i + 4 <= |w| && j < 4 && w[4 * i + j] == Sum(w[4 * (i - nk) + j], Temp(w, nk, i, j))
  }

  // The program's tables and functions are these.

  lemma SumIs(x: bv8, y: bv8)
    ensures Xor(x, y) == Sum(x, y)
  {
  }

  lemma DoubleIsXtime(x: bv8)
    ensures Double(x) == Xtime(x)
  {
  }

  lemma DoubleIsProduct(x: bv8)
    ensures Double(x) == Times(x, 0x02)
  {
  }

  lemma TripleIsProduct(x: bv8)
    ensures Double(x) ^ x == Times(x, 0x03)
  {
  }

  lemma MixedIsStd(a: bv8, b: bv8, d: bv8, e: bv8)
    ensures Mixed(a, b, d, e) == Column(a, b, d, e)
  {
    hide Double, Times;
    DoubleIsProduct(a);
    TripleIsProduct(b);
    SumsInOrder(Double(a), Double(b), b, d, e);
  }

  lemma SumsInOrder(x: bv8, y: bv8, b: bv8, d: bv8, e: bv8)
    ensures Xor5(x, y, b, d, e) == Sum(Sum(Sum(x, y ^ b), d), e)
  {
    assert ((((x ^ y) ^ b) ^ d) ^ e) == ((x ^ (y ^ b)) ^ d) ^ e;
  }

  lemma Places(r: nat, c: nat, j: nat)
    requires r < 4 && c < 4 && j < 4
    ensures Below(r + 4 * c, j) == (r + j) % 4 + 4 * c
    ensures Along(r + 4 * c, r) == r + 4 * ((c + r) % 4)
  {
  }

  lemma ShiftedAt(s: Block, r: nat, c: nat)
    requires r < 4 && c < 4
    ensures ShiftRows(SubBytes(s))[r + 4 * c] == Shifted(s, r, c)
  {
    hide SubByte, Along;
    Places(r, c, 0);
    assert (r + 4 * c) % 4 == r;
  }

  lemma MixedAt(s: Block, r: nat, c: nat)
    requires r < 4 && c < 4
    ensures MixColumns(ShiftRows(SubBytes(s)))[r + 4 * c] == StdMixed(s, r, c)
  {
    hide SubBytes, ShiftRows, Shifted, Mixed, Column, Below;
    ShiftedAt(s, r, c);
    ShiftedAt(s, (r + 1) % 4, c);
    ShiftedAt(s, (r + 2) % 4, c);
    ShiftedAt(s, (r + 3) % 4, c);
    Places(r, c, 1);
    Places(r, c, 2);
    Places(r, c, 3);
    MixedIsStd(Shifted(s, r, c), Shifted(s, (r + 1) % 4, c), Shifted(s, (r + 2) % 4, c), Shifted(s, (r + 3) % 4, c));
  }

  lemma RoundIsStd(s: Block, k: Block)
    ensures Round(s, k) == StdRound(s, k)
  {
    hide SubBytes, ShiftRows, MixColumns, StdMixed, Sum, Xor;
    forall i | 0 <= i < 16 ensures Round(s, k)[i] == StdRound(s, k)[i] {
      MixedAt(s, i % 4, i / 4);
      SumIs(StdMixed(s, i % 4, i / 4), k[i]);
    }
  }

  lemma {:induction false} RoundsAreStd(s: Block, w: Bytes, n: nat)
    requires 16 * n + 16 <= |w|
    ensures Rounds(XorBlocks(s, RoundKey(w, 0)), w, n) == StdRounds(s, w, n)
  {
    hide Round, StdRound, Sum, Xor;
    if n == 0 {
      forall i | 0 <= i < 16 ensures XorBlocks(s, RoundKey(w, 0))[i] == StdRounds(s, w, 0)[i] { SumIs(s[i], w[i]); }
    } else {
      RoundsAreStd(s, w, n - 1);
      RoundIsStd(StdRounds(s, w, n - 1), RoundKey(w, n));
    }
  }

  lemma LastRoundIsStd(s: Block, k: Block)
    ensures XorBlocks(ShiftRows(SubBytes(s)), k) == StdLastRound(s, k)
  {
    hide SubBytes, ShiftRows, Shifted, Sum, Xor;
    forall i | 0 <= i < 16 ensures XorBlocks(ShiftRows(SubBytes(s)), k)[i] == StdLastRound(s, k)[i] {
      ShiftedAt(s, i % 4, i / 4);
      SumIs(Shifted(s, i % 4, i / 4), k[i]);
    }
  }

  /** The cipher of the program is AES. */
  lemma CipherIsStd(s: Block, w: Bytes, nr: nat)
    requires nr >= 1 && |w| == 16 * (nr + 1)
    ensures Cipher(s, w, nr) == StdCipher(s, w, nr)
  {
    hide SubBytes, ShiftRows, XorBlocks, Rounds, StdRounds, StdLastRound;
    RoundsAreStd(s, w, nr - 1);
    LastRoundIsStd(StdRounds(s, w, nr - 1), RoundKey(w, nr));
  }

  lemma {:induction false} RconIsStd(n: nat)
    requires n >= 1
    ensures RoundConstant(n) == Rcon(n)
  {
    hide Double, Xtime;
    if n > 1 {
      RconIsStd(n - 1);
      DoubleIsXtime(Rcon(n - 1));
    }
  }

  lemma SteppedIs(w: Bytes, previous: Bytes, nk: nat, i: nat, j: nat)
    requires nk > 0 && nk <= i && 4 * i <= |w| && j < 4 && previous == w[4 * (i - 1)..4 * i]
    ensures Stepped(previous, nk, i)[j] == Temp(w, nk, i, j)
  {
    hide SubByte, Xor, Sum, RoundConstant, Rcon;
    if i % nk == 0 {
      QuotientPositive(i, nk);
      RconIsStd(i / nk);
      SumIs(SubByte(previous[1]), Rcon(i / nk));
    }
  }

  lemma QuotientPositive(i: nat, nk: nat)
    requires 0 < nk <= i
    ensures i / nk >= 1
  {
    DivMod(i, nk);
    if i / nk <= 0 { LessEqTimes(0, -(i / nk), nk); }
  }

  /** The expanded key of the program is that of the standard, for all three lengths. */
  lemma ExpandedIsStd(key: Bytes)
    requires |key| == 16 || |key| == 24 || |key| == 32
    ensures StdExpanded(key, ExpandedKey(key))
  {
    hide ExpandedKey, NextWord;
    var nk, w := |key| / 4, ExpandedKey(key);
    KeyComesFirst(key);
    forall i, j | nk <= i < 4 * (nk + 7) && 0 <= j < 4 ensures NextWord(w, nk, i, j) { NextWordIsStd(key, i, j); }
  }

  lemma WordOfExpanded(key: Bytes, i: nat, j: nat)
    requires |key| >= 4 && |key| % 4 == 0 && i < 4 * (|key| / 4 + 7) && j < 4
    ensures ExpandedKey(key)[4 * i + j] == ScheduleWord(key, i)[j]
  {
    hide ScheduleWord;
  }

  lemma NextScheduleWord(key: Bytes, i: nat, j: nat)
    requires |key| >= 4 && |key| % 4 == 0 && |key| / 4 <= i && j < 4
    ensures var nk := |key| / 4;
            ScheduleWord(key, i)[j] == Xor(ScheduleWord(key, i - nk)[j], Stepped(ScheduleWord(key, i - 1), nk, i)[j])
  {
    hide Stepped, Xor;
  }

  lemma NextWordIsStd(key: Bytes, i: nat, j: nat)
    requires (|key| == 16 || |key| == 24 || |key| == 32) && |key| / 4 <= i < 4 * (|key| / 4 + 7) && j < 4
    ensures NextWord(ExpandedKey(key), |key| / 4, i, j)
  {
    hide ExpandedKey, ScheduleWord, Stepped, Temp, Sum, Xor;
    var nk, w := |key| / 4, ExpandedKey(key);
    WordOfExpanded(key, i, j);
    WordOfExpanded(key, i - nk, j);
    var previous := ScheduleWord(key, i - 1);
    forall k | 0 <= k < 4 ensures w[4 * (i - 1)..4 * i][k] == previous[k] { WordOfExpanded(key, i - 1, k); }
    assert previous == w[4 * (i - 1)..4 * i];
    SteppedIs(w, previous, nk, i, j);
    NextScheduleWord(key, i, j);
    SumIs(ScheduleWord(key, i - nk)[j], Temp(w, nk, i, j));
  }

  // The rounds of CNS008, section 3: all of them full, starting with round key 0.

  function StdFullRounds(s: Block, keys: Bytes): Block
    requires |keys| % 16 == 0
    decreases |keys|
  {
    if keys == [] then s else StdFullRounds(StdRound(s, keys[..16]), keys[16..])
  }

  lemma {:induction false} FullRoundsAreStd(s: Block, w: Bytes, i: nat, n: nat)
    requires i <= n && 16 * n <= |w|
    ensures StdFullRounds(FullRounds(s, w, i), w[16 * i..16 * n]) == FullRounds(s, w, n)
    decreases n - i
  {
    hide Round, StdRound;
    var keys := w[16 * i..16 * n];
    if i < n {
      assert keys[..16] == RoundKey(w, i) && keys[16..] == w[16 * (i + 1)..16 * n];
      RoundIsStd(FullRounds(s, w, i), RoundKey(w, i));
      FullRoundsAreStd(s, w, i + 1, n);
    } else {
      assert keys == [];
    }
  }

  /** The pseudo-rounds of the program take the first 160 bytes of the expanded key in order. */
  lemma TenRoundsAreStd(s: Block, w: Bytes)
    requires |w| >= 160
    ensures FullRounds(s, w, 10) == StdFullRounds(s, w[..160])
  {
    hide Round, StdRound;
    FullRoundsAreStd(s, w, 0, 10);
    assert w[16 * 0..16 * 10] == w[..160];
    assert FullRounds(s, w, 0) == s;
  }
}
