/** SHA-256 as FIPS 180-4 writes it, with nothing shared with the program's forms but the two tables of constants, and
    the proof that sha2.c computes it. */
module Fips180 {
  import opened MachineWords
  import opened Limbs
  import opened Powers
  import opened Sha256
  import opened Sha2
  import opened MiningKernel
  import opened ScanHash

  // Section 4.1.2.

  function StdCh(x: bv32, y: bv32, z: bv32): bv32 { (x & y) ^ (!x & z) }
  function StdMaj(x: bv32, y: bv32, z: bv32): bv32 { (x & y) ^ (x & z) ^ (y & z) }
  function StdBigS0(x: bv32): bv32 { x.RotateRight(2) ^ x.RotateRight(13) ^ x.RotateRight(22) }
  function StdBigS1(x: bv32): bv32 { x.RotateRight(6) ^ x.RotateRight(11) ^ x.RotateRight(25) }
  function StdS0(x: bv32): bv32 { x.RotateRight(7) ^ x.RotateRight(18) ^ (x >> 3) }
  function StdS1(x: bv32): bv32 { x.RotateRight(17) ^ x.RotateRight(19) ^ (x >> 10) }

  // Section 6.2.2: the schedule, a round, and a block.

  function StdSchedule(block: seq<Word>, t: nat): Word
    requires |block| == 16
  {
    if t < 16 then block[t]
    else StdExtend(StdSchedule(block, t - 2), StdSchedule(block, t - 7), StdSchedule(block, t - 15), StdSchedule(block, t - 16))
  }

  /** A word of the schedule from the words 2, 7, 15 and 16 places before it. */
  function StdExtend(w2: Word, w7: Word, w15: Word, w16: Word): Word {
    ((StdS1(w2 as bv32) as int) + w7 + (StdS0(w15 as bv32) as int) + w16) % 0x1_0000_0000
  }

  function StdT1(e: Word, f: Word, g: Word, h: Word, k: Word, w: Word): Word {
    (h + (StdBigS1(e as bv32) as int) + (StdCh(e as bv32, f as bv32, g as bv32) as int) + k + w) % 0x1_0000_0000
  }

  function StdT2(a: Word, b: Word, c: Word): Word {
    ((StdBigS0(a as bv32) as int) + (StdMaj(a as bv32, b as bv32, c as bv32) as int)) % 0x1_0000_0000
  }

  type Eight = v: seq<Word> | |v| == 8 witness seq(8, _ => 0)

  /** The variables a to h after one round. */
  function StdRound(v: Eight, k: Word, w: Word): Eight {
    var t1 := StdT1(v[4], v[5], v[6], v[7], k, w);
    var t2 := StdT2(v[0], v[1], v[2]);
    [(t1 + t2) % 0x1_0000_0000, v[0], v[1], v[2], (v[3] + t1) % 0x1_0000_0000, v[4], v[5], v[6]]
  }

  function StdRounds(v: Eight, block: seq<Word>, n: nat): Eight
    requires |block| == 16 && n <= |K|
  {
    if n == 0 then v else StdRound(StdRounds(v, block, n - 1), K[n - 1], StdSchedule(block, n - 1))
  }

  function StdBlock(h: Eight, block: seq<Word>): Eight
    requires |block| == 16
  {
    TableSizes();
    var v := StdRounds(h, block, 64);
    seq(8, i requires 0 <= i < 8 => (h[i] as int + v[i] as int) % 0x1_0000_0000)
  }

  // Sections 5.1.1, 5.2.1 and 6.2: padding, parsing and the whole hash.

  /** The number of zero bytes after 0x80: with them the length ends at 56 modulo 64. */
  function StdZeros(n: nat): (k: nat)
    ensures k < 64 && (n + 1 + k) % 64 == 56
  {
    (55 - n) % 64
  }

  /** 256^n. */
  function Weight(n: nat): (w: nat)
    ensures w >= 1
  {
    if n == 0 then 1 else 0x100 * Weight(n - 1)
  }

  /** Byte i of a number of 64 bits, highest first. */
  function LengthByte(bits: nat, i: nat): Byte
    requires i < 8
  {
    bits / Weight(7 - i) % 0x100
  }

  function StdPadded(msg: seq<Byte>): (p: seq<Byte>)
    ensures |p| % 64 == 0
  {
    msg + [0x80] + seq(StdZeros(|msg|), _ => 0) + seq(8, i requires 0 <= i < 8 => LengthByte(8 * |msg|, i))
  }

  function WordFrom(b0: Byte, b1: Byte, b2: Byte, b3: Byte): Word {
    b0 * 0x100_0000 + b1 * 0x1_0000 + b2 * 0x100 + b3
  }

  /** The sixteen words of block n. */
  function StdWords(p: seq<Byte>, n: nat): (block: seq<Word>)
    requires 64 * n + 64 <= |p|
    ensures |block| == 16
  {
    seq(16, i requires 0 <= i < 16 =>
      WordFrom(p[64 * n + 4 * i], p[64 * n + 4 * i + 1], p[64 * n + 4 * i + 2], p[64 * n + 4 * i + 3]))
  }

  /** The hash value after n blocks. */
  function StdChain(p: seq<Byte>, n: nat): Eight
    requires 64 * n <= |p|
  {
    TableSizes();
    if n == 0 then H_INIT else StdBlock(StdChain(p, n - 1), StdWords(p, n - 1))
  }

  function StdHash(msg: seq<Byte>): (d: seq<Byte>)
    ensures |d| == 32
  {
    var p := StdPadded(msg);
    var h := StdChain(p, |p| / 64);
    seq(32, i requires 0 <= i < 32 => h[i / 4] / (if i % 4 == 0 then 0x100_0000 else if i % 4 == 1 then 0x1_0000 else if i % 4 == 2 then 0x100 else 1) % 0x100)
  }

  // The program's functions are these.

  lemma BitsAreStd(x: bv32, y: bv32, z: bv32)
    ensures ChBits(x, y, z) == StdCh(x, y, z) && MajBits(x, y, z) == StdMaj(x, y, z)
    ensures BigS0Bits(x) == StdBigS0(x) && BigS1Bits(x) == StdBigS1(x)
    ensures S0Bits(x) == StdS0(x) && S1Bits(x) == StdS1(x)
  {
    hide ChBits, MajBits, BigS0Bits, BigS1Bits, S0Bits, S1Bits;
    MacrosMatchStandard(x, y, z);
  }

  lemma AddIs(x: Word, y: Word)
    ensures Add(x, y) == (x + y) % 0x1_0000_0000
  {
  }

  lemma ModuloOnce(x: int, y: int)
    ensures (x % 0x1_0000_0000 + y) % 0x1_0000_0000 == (x + y) % 0x1_0000_0000
  {
  }

  lemma SumOfFour(a: Word, b: Word, c: Word, d: Word)
    ensures Add(Add(Add(a, b), c), d) == (a + b + c + d) % 0x1_0000_0000
  {
    hide Add;
    AddIs(a, b);
    AddIs(Add(a, b), c);
    AddIs(Add(Add(a, b), c), d);
    ModuloOnce(a + b, c);
    ModuloOnce(a + b + c, d);
  }

  lemma Temp1IsStd(e: Word, f: Word, g: Word, h: Word, k: Word, w: Word)
    ensures Temp1(e, f, g, h, Add(w, k)) == StdT1(e, f, g, h, k, w)
  {
    hide Add, StdCh, StdBigS1, ChBits, BigS1Bits;
    BitsAreStd(e as bv32, f as bv32, g as bv32);
    SumOfFour(h, BigS1(e), Ch(e, f, g), Add(w, k));
    AddIs(w, k);
    ModuloOnce(w + k, h + BigS1(e) + Ch(e, f, g));
  }

  lemma Temp2IsStd(a: Word, b: Word, c: Word)
    ensures Temp2(a, b, c) == StdT2(a, b, c)
  {
    hide Add, StdMaj, StdBigS0, MajBits, BigS0Bits;
    BitsAreStd(a as bv32, b as bv32, c as bv32);
    AddIs(BigS0(a), Maj(a, b, c));
  }

  lemma ExtendIsStd(w2: Word, w7: Word, w15: Word, w16: Word)
    ensures Extend(w2, w7, w15, w16) == StdExtend(w2, w7, w15, w16)
  {
    hide Add, StdS0, StdS1, S0Bits, S1Bits;
    BitsAreStd(w2 as bv32, 0, 0);
    BitsAreStd(w15 as bv32, 0, 0);
    SumOfFour(S1(w2), w7, S0(w15), w16);
  }

  lemma {:induction false} ScheduleIsStd(block: seq<Word>, t: nat)
    requires |block| == 16
    ensures ScheduleWord(block, t) == StdSchedule(block, t)
  {
    hide Extend, StdExtend;
    if t >= 16 {
      ScheduleIsStd(block, t - 2);
      ScheduleIsStd(block, t - 7);
      ScheduleIsStd(block, t - 15);
      ScheduleIsStd(block, t - 16);
      ExtendIsStd(ScheduleWord(block, t - 2), ScheduleWord(block, t - 7), ScheduleWord(block, t - 15), ScheduleWord(block, t - 16));
    }
  }

  function Listed(r: Regs): Eight { [r.a, r.b, r.c, r.d, r.e, r.f, r.g, r.h] }

  lemma RoundIsStd(r: Regs, k: Word, w: Word)
    ensures Listed(Round(r, Add(w, k))) == StdRound(Listed(r), k, w)
  {
    hide Add, Temp1, Temp2, StdT1, StdT2;
    Temp1IsStd(r.e, r.f, r.g, r.h, k, w);
    Temp2IsStd(r.a, r.b, r.c);
    AddIs(Temp1(r.e, r.f, r.g, r.h, Add(w, k)), Temp2(r.a, r.b, r.c));
    AddIs(r.d, Temp1(r.e, r.f, r.g, r.h, Add(w, k)));
  }

  lemma {:induction false} RoundsAreStd(r: Regs, block: seq<Word>, n: nat)
    requires |block| == 16 && n <= |K|
    ensures Listed(RoundsFrom(r, block, n)) == StdRounds(Listed(r), block, n)
  {
    hide Add, Round, StdRound, K, ScheduleWord, StdSchedule, Listed;
    if n > 0 {
      RoundsAreStd(r, block, n - 1);
      ScheduleIsStd(block, n - 1);
      RoundIsStd(RoundsFrom(r, block, n - 1), K[n - 1], ScheduleWord(block, n - 1));
    }
  }

  lemma BlockIsStd(h: Eight, block: seq<Word>)
    requires |block| == 16
    ensures Compress(h, block) == StdBlock(h, block)
  {
    hide Add, RoundsFrom, StdRounds, K;
    TableSizes();
    assert Listed(ToRegs(h)) == h;
    RoundsAreStd(ToRegs(h), block, 64);
    var v := RoundsFrom(ToRegs(h), block, 64);
    forall i | 0 <= i < 8 ensures Compress(h, block)[i] == StdBlock(h, block)[i] {
      AddIs(h[i], Listed(v)[i]);
    }
  }

  // Padding and parsing.

  lemma Weights()
    ensures Weight(0) == 1 && Weight(1) == 0x100 && Weight(2) == 0x1_0000 && Weight(3) == 0x100_0000
    ensures Weight(4) == 0x1_0000_0000 && Weight(5) == 0x100_0000_0000 && Weight(6) == 0x1_0000_0000_0000
    ensures Weight(7) == 0x100_0000_0000_0000
  {
  }

  lemma DivideTwice(x: nat, a: nat, b: nat)
    requires a > 0 && b > 0
    ensures a * b > 0 && x / (a * b) == x / a / b
  {
    var q, r := x / a, x % a;
    DivMod(x, a);
    DivMod(q, b);
    NonNegative(a - 1, b - 1);
    assert (a - 1) * (b - 1) == a * b - a - b + 1;
    Distribute(q / b * b, q % b, a);
    Associate(q / b, b, a);
    Commute(a, b);
    LessEqTimes(q % b, b - 1, a);
    Distribute(b - 1, 1, a);
    QuotientUnique(x, a * b, q / b, q % b * a + r);
  }

  lemma LengthWords(bits: nat)
    requires bits < 0x1_0000_0000_0000_0000
    ensures WordFrom(LengthByte(bits, 0), LengthByte(bits, 1), LengthByte(bits, 2), LengthByte(bits, 3)) == bits / 0x1_0000_0000
    ensures WordFrom(LengthByte(bits, 4), LengthByte(bits, 5), LengthByte(bits, 6), LengthByte(bits, 7)) == bits % 0x1_0000_0000
  {
    hide Weight, WordFrom;
    Weights();
    var hi, lo := bits / 0x1_0000_0000, bits % 0x1_0000_0000;
    DivMod(bits, 0x1_0000_0000);
    DivideTwice(bits, 0x1_0000_0000, 0x100_0000);
    DivideTwice(bits, 0x1_0000_0000, 0x1_0000);
    DivideTwice(bits, 0x1_0000_0000, 0x100);
    WordSplits(hi);
    WordSplits(lo);
    LowByte(hi, lo, 0x100_0000, 1);
    LowByte(hi, lo, 0x1_0000, 0x100);
    LowByte(hi, lo, 0x100, 0x1_0000);
    LowByte(hi, lo, 1, 0x100_0000);
  }

  lemma WordSplits(w: Word)
    ensures WordFrom(w / 0x100_0000 % 0x100, w / 0x1_0000 % 0x100, w / 0x100 % 0x100, w % 0x100) == w
  {
    var a := w / 0x100;
    var b := a / 0x100;
    var c := b / 0x100;
    DivMod(w, 0x100);
    DivMod(a, 0x100);
    DivMod(b, 0x100);
    DivideTwice(w, 0x100, 0x100);
    DivideTwice(w, 0x1_0000, 0x100);
    QuotientUnique(c, 0x100, 0, c);
  }

  /** What lies above the low word does not reach its bytes. */
  lemma LowByte(hi: nat, lo: Word, d: nat, e: nat)
    requires d > 0 && e * 0x100 * d == 0x1_0000_0000
    ensures (hi * 0x1_0000_0000 + lo) / d % 0x100 == lo / d % 0x100
  {
    var q, r := lo / d, lo % d;
    DivMod(lo, d);
    Associate(hi, e * 0x100, d);
    Distribute(hi * (e * 0x100), q, d);
    QuotientUnique(hi * 0x1_0000_0000 + lo, d, hi * (e * 0x100) + q, r);
    DivMod(q, 0x100);
    Associate(hi, e, 0x100);
    QuotientUnique(hi * (e * 0x100) + q, 0x100, hi * e + q / 0x100, q % 0x100);
  }

  lemma ZerosAgree(n: nat)
    ensures StdZeros(n) == ZeroCount(n) && n + 9 + StdZeros(n) == 64 * PadBlocks(n)
  {
  }

  /** Word i of the padded message, read from the bytes of the standard's padding. */
  lemma PaddedWord(msg: seq<Byte>, i: nat)
    requires |msg| < 0x2000_0000_0000_0000 && i < |Padded(msg)|
    ensures var p := StdPadded(msg);
            && |p| == 4 * |Padded(msg)|
            && Padded(msg)[i] == WordFrom(p[4 * i], p[4 * i + 1], p[4 * i + 2], p[4 * i + 3])
  {
    hide Padded, LengthByte, WordFrom, StdZeros, ZeroCount, PadBlocks, Be32, PadWord;
    var n, p := |msg|, StdPadded(msg);
    ZerosAgree(n);
    PaddedAt(msg, i);
    assert |p| == 64 * PadBlocks(n);
    if i < |Padded(msg)| - 2 {
      PlainPadBytes(msg, 4 * i);
      PadWordFrom(msg, i);
    } else {
      LengthWords(8 * n);
      LengthAtEnd(msg);
    }
  }

  lemma PadWordFrom(msg: seq<Byte>, i: nat)
    ensures PadWord(msg, i) == WordFrom(PadByte(msg, 4 * i), PadByte(msg, 4 * i + 1), PadByte(msg, 4 * i + 2), PadByte(msg, 4 * i + 3))
  {
    hide PadByte;
  }

  lemma PlainPadBytes(msg: seq<Byte>, j: nat)
    requires j + 4 <= |StdPadded(msg)| - 8
    ensures var p := StdPadded(msg);
            && p[j] == PadByte(msg, j) && p[j + 1] == PadByte(msg, j + 1)
            && p[j + 2] == PadByte(msg, j + 2) && p[j + 3] == PadByte(msg, j + 3)
  {
    hide LengthByte, StdZeros;
  }

  lemma LengthAtEnd(msg: seq<Byte>)
    ensures var p := StdPadded(msg);
            |p| >= 8 && forall i :: 0 <= i < 8 ==> p[|p| - 8 + i] == LengthByte(8 * |msg|, i)
  {
    hide LengthByte, StdZeros;
  }

  lemma BlockParsed(msg: seq<Byte>, n: nat)
    requires |msg| < 0x2000_0000_0000_0000 && 16 * n + 16 <= |Padded(msg)|
    ensures |StdPadded(msg)| == 4 * |Padded(msg)|
    ensures Padded(msg)[16 * n..16 * (n + 1)] == StdWords(StdPadded(msg), n)
  {
    hide Padded, StdPadded, WordFrom;
    PaddedWord(msg, 16 * n);
    forall i | 0 <= i < 16 ensures Padded(msg)[16 * n..16 * (n + 1)][i] == StdWords(StdPadded(msg), n)[i] {
      PaddedWord(msg, 16 * n + i);
    }
  }

  lemma {:induction false} ChainIsStd(msg: seq<Byte>, n: nat)
    requires |msg| < 0x2000_0000_0000_0000 && 16 * n <= |Padded(msg)| && |H_INIT| == 8
    ensures |StdPadded(msg)| == 4 * |Padded(msg)|
    ensures Absorb(H_INIT, Padded(msg)[..16 * n]) == StdChain(StdPadded(msg), n)
  {
    hide Padded, StdPadded, StdWords, StdBlock, Compress, Absorb, H_INIT;
    PaddedWord(msg, 0);
    if n == 0 {
      AbsorbNothing(H_INIT, Padded(msg));
    } else {
      ChainIsStd(msg, n - 1);
      AbsorbNext(H_INIT, Padded(msg), n - 1);
      BlockParsed(msg, n - 1);
      BlockIsStd(StdChain(StdPadded(msg), n - 1), StdWords(StdPadded(msg), n - 1));
    }
  }

  /** The hash that sha2.c computes is SHA-256. */
  lemma HashIsStd(msg: seq<Byte>)
    requires |msg| < 0x2000_0000_0000_0000
    ensures Sha2.Hash(msg) == StdHash(msg)
  {
    hide Padded, StdPadded, StdChain, Absorb, BytesOf, H_INIT;
    TableSizes();
    var n := |Padded(msg)| / 16;
    ChainIsStd(msg, n);
    assert Padded(msg)[..16 * n] == Padded(msg);
    var h := StdChain(StdPadded(msg), n);
    forall i | 0 <= i < 32 ensures BytesOf(h)[i] == StdHash(msg)[i] {
      BytesOfAt(h, i / 4);
      assert BytesOf(h)[4 * (i / 4)..4 * (i / 4) + 4][i % 4] == BytesOf(h)[i];
    }
  }

  // What the scan compares with the target.

  /** A byte string as a number, lowest byte first. */
  function LittleEndian(b: seq<Byte>): nat {
    if b == [] then 0 else b[0] + 0x100 * LittleEndian(b[1..])
  }

  lemma {:induction false} BytesOfFront(w: seq<Word>)
    requires w != []
    ensures BytesOf(w) == Be32Bytes(w[0]) + BytesOf(w[1..])
    decreases |w|
  {
    hide Be32Bytes, BytesOf;
    var n := |w| - 1;
    BytesOfNothing();
    BytesOfNext(w);
    if n == 0 {
      assert w[..0] == [] && w[1..] == [];
    } else {
      BytesOfFront(w[..n]);
      BytesOfNext(w[1..]);
      assert w[..n][1..] == w[1..][..n - 1] && w[1..][n - 1] == w[n];
    }
  }

  lemma FourBytes(b: seq<Byte>, rest: seq<Byte>)
    requires |b| == 4
    ensures LittleEndian(b + rest) == WordFrom(b[3], b[2], b[1], b[0]) + 0x1_0000_0000 * LittleEndian(rest)
  {
    var s := b + rest;
    OneByte(s);
    OneByte(s[1..]);
    OneByte(s[2..]);
    OneByte(s[3..]);
    assert s[4..] == rest;
  }

  lemma OneByte(s: seq<Byte>)
    requires s != []
    ensures LittleEndian(s) == s[0] as int + 0x100 * LittleEndian(s[1..])
  {
  }

  lemma SwapReverses(w: Word)
    ensures var b := Be32Bytes(w); Swab32(w) == WordFrom(b[3], b[2], b[1], b[0])
  {
  }

  lemma {:induction false} SwappedNumber(w: seq<Word>)
    ensures Value(SwabAll(w)) == LittleEndian(BytesOf(w))
  {
    hide Be32Bytes, Swab32, BytesOf, WordFrom;
    if w == [] {
      BytesOfNothing();
    } else {
      SwappedNumber(w[1..]);
      BytesOfFront(w);
      FourBytes(Be32Bytes(w[0]), BytesOf(w[1..]));
      SwapReverses(w[0]);
      assert SwabAll(w)[1..] == SwabAll(w[1..]);
    }
  }

  /** A nonce qualifies exactly if the double SHA-256 of the 80 bytes of the header with it, as a number with its lowest
      byte first, does not exceed the target. */
  lemma QualifiesIsStd(hdr: seq<Word>, target: seq<Word>, n: Word)
    requires Header(hdr)
    ensures Qualifies(hdr, target, n) <==> LittleEndian(StdHash(StdHash(BytesOf(hdr[..20][19 := n])))) <= Value(target)
  {
    hide DoubleHash, BytesOf, Sha2.Hash, StdHash, Value, LittleEndian, SwabAll;
    var h := hdr[19 := n];
    assert h[16..][4..] == hdr[16..][4..] && h[..20] == hdr[..20][19 := n];
    DoubleHashOfBytes(h);
    HashIsStd(BytesOf(h[..20]));
    HashIsStd(Sha2.Hash(BytesOf(h[..20])));
    SwappedNumber(DoubleHash(h));
  }

  /** The words that the miner puts behind the twenty words of a header. */
  lemma HeaderIsBuilt(work: seq<Word>)
    requires |work| == 20
    ensures Header(work + [0x8000_0000, 0, 0, 0, 0, 0, 0, 0, 0, 0, 0, 0x280])
  {
    var tail: seq<Word> := [0x8000_0000, 0, 0, 0, 0, 0, 0, 0, 0, 0, 0, 0x280];
    assert (work + tail)[16..] == work[16..] + tail;
  }
}
