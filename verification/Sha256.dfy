/** SHA-256 as section 6.2.2 of FIPS 180-4 defines it, and the compression function of sha2.c:
    registers that rotate through an array of eight words instead of being shuffled. */
module Sha256 {

  import opened MachineWords

  const H_INIT: seq<Word> := [
    0x6a09e667, 0xbb67ae85, 0x3c6ef372, 0xa54ff53a,
    0x510e527f, 0x9b05688c, 0x1f83d9ab, 0x5be0cd19
  ]

  const K: seq<Word> := [
    0x428a2f98, 0x71374491, 0xb5c0fbcf, 0xe9b5dba5,
    0x3956c25b, 0x59f111f1, 0x923f82a4, 0xab1c5ed5,
    0xd807aa98, 0x12835b01, 0x243185be, 0x550c7dc3,
    0x72be5d74, 0x80deb1fe, 0x9bdc06a7, 0xc19bf174
  ] + [
    0xe49b69c1, 0xefbe4786, 0x0fc19dc6, 0x240ca1cc,
    0x2de92c6f, 0x4a7484aa, 0x5cb0a9dc, 0x76f988da,
    0x983e5152, 0xa831c66d, 0xb00327c8, 0xbf597fc7,
    0xc6e00bf3, 0xd5a79147, 0x06ca6351, 0x14292967
  ] + [
    0x27b70a85, 0x2e1b2138, 0x4d2c6dfc, 0x53380d13,
    0x650a7354, 0x766a0abb, 0x81c2c92e, 0x92722c85,
    0xa2bfe8a1, 0xa81a664b, 0xc24b8b70, 0xc76c51a3,
    0xd192e819, 0xd6990624, 0xf40e3585, 0x106aa070
  ] + [
    0x19a4c116, 0x1e376c08, 0x2748774c, 0x34b0bcb5,
    0x391c0cb3, 0x4ed8aa4a, 0x5b9cca4f, 0x682e6ff3,
    0x748f82ee, 0x78a5636f, 0x84c87814, 0x8cc70208,
    0x90befffa, 0xa4506ceb, 0xbef9a3f7, 0xc67178f2
  ]

  lemma TableSizes()
    ensures |K| == 64 && |H_INIT| == 8
  {
  }

  // The macros of sha2.c:50-57, on machine words.

  function ChBits(x: bv32, y: bv32, z: bv32): bv32 { (x & (y ^ z)) ^ z }
  function MajBits(x: bv32, y: bv32, z: bv32): bv32 { (x & (y | z)) | (y & z) }
  function BigS0Bits(x: bv32): bv32 { ((x >> 2) | (x << 30)) ^ ((x >> 13) | (x << 19)) ^ ((x >> 22) | (x << 10)) }
  function BigS1Bits(x: bv32): bv32 { ((x >> 6) | (x << 26)) ^ ((x >> 11) | (x << 21)) ^ ((x >> 25) | (x << 7)) }
  function S0Bits(x: bv32): bv32 { ((x >> 7) | (x << 25)) ^ ((x >> 18) | (x << 14)) ^ (x >> 3) }
  function S1Bits(x: bv32): bv32 { ((x >> 17) | (x << 15)) ^ ((x >> 19) | (x << 13)) ^ (x >> 10) }

  /** The macros compute the functions of section 4.1.2 of FIPS 180-4. */
  lemma MacrosMatchStandard(x: bv32, y: bv32, z: bv32)
    ensures ChBits(x, y, z) == (x & y) ^ (!x & z)
    ensures MajBits(x, y, z) == (x & y) ^ (x & z) ^ (y & z)
    ensures BigS0Bits(x) == x.RotateRight(2) ^ x.RotateRight(13) ^ x.RotateRight(22)
    ensures BigS1Bits(x) == x.RotateRight(6) ^ x.RotateRight(11) ^ x.RotateRight(25)
    ensures S0Bits(x) == x.RotateRight(7) ^ x.RotateRight(18) ^ (x >> 3)
    ensures S1Bits(x) == x.RotateRight(17) ^ x.RotateRight(19) ^ (x >> 10)
  {
  }

  // The same functions on words as numbers; proofs below need nothing of them but S0(0) == S1(0) == 0.

  function Ch(x: Word, y: Word, z: Word): Word { ChBits(x as bv32, y as bv32, z as bv32) as int }
  function Maj(x: Word, y: Word, z: Word): Word { MajBits(x as bv32, y as bv32, z as bv32) as int }
  function BigS0(x: Word): Word { BigS0Bits(x as bv32) as int }
  function BigS1(x: Word): Word { BigS1Bits(x as bv32) as int }
  function S0(x: Word): Word { S0Bits(x as bv32) as int }
  function S1(x: Word): Word { S1Bits(x as bv32) as int }

  lemma SigmasOfZero()
    ensures S0(0) == 0 && S1(0) == 0
  {
    assert S0Bits(0) == 0 && S1Bits(0) == 0;
  }

  /** uint32_t addition */
  function Add(x: Word, y: Word): Word {
    if x + y < WORDS then x + y else x + y - WORDS
  }

  lemma AddGroup(x: Word, y: Word, z: Word)
    ensures Add(x, y) == Add(y, x) && Add(Add(x, y), z) == Add(x, Add(y, z)) && Add(x, 0) == x
  {
  }

  datatype Regs = Regs(a: Word, b: Word, c: Word, d: Word, e: Word, f: Word, g: Word, h: Word)

  function Temp1(e: Word, f: Word, g: Word, h: Word, k: Word): Word {
    Add(Add(Add(h, BigS1(e)), Ch(e, f, g)), k)
  }

  function Temp2(a: Word, b: Word, c: Word): Word {
    Add(BigS0(a), Maj(a, b, c))
  }

  /** One step of the main loop; k is the sum of the round constant and the schedule word. */
  function Round(r: Regs, k: Word): Regs {
    var t1 := Temp1(r.e, r.f, r.g, r.h, k);
    var t2 := Temp2(r.a, r.b, r.c);
    Regs(Add(t1, t2), r.a, r.b, r.c, Add(r.d, t1), r.e, r.f, r.g)
  }

  function Extend(w2: Word, w7: Word, w15: Word, w16: Word): Word {
    Add(Add(Add(S1(w2), w7), S0(w15)), w16)
  }

  function ScheduleWord(block: seq<Word>, t: nat): Word
    requires |block| == 16
  {
    if t < 16 then block[t]
    else Extend(ScheduleWord(block, t - 2), ScheduleWord(block, t - 7), ScheduleWord(block, t - 15), ScheduleWord(block, t - 16))
  }

  function RoundsFrom(r: Regs, block: seq<Word>, n: nat): Regs
    requires |block| == 16 && n <= |K|
  {
    if n == 0 then r else Round(RoundsFrom(r, block, n - 1), Add(ScheduleWord(block, n - 1), K[n - 1]))
  }

  function ToRegs(s: seq<Word>): Regs
    requires |s| >= 8
  {
    Regs(s[0], s[1], s[2], s[3], s[4], s[5], s[6], s[7])
  }

  function Compress(state: seq<Word>, block: seq<Word>): (r: seq<Word>)
    requires |state| == 8 && |block| == 16
    ensures |r| == 8
  {
    var v := RoundsFrom(ToRegs(state), block, 64);
    [Add(state[0], v.a), Add(state[1], v.b), Add(state[2], v.c), Add(state[3], v.d),
     Add(state[4], v.e), Add(state[5], v.f), Add(state[6], v.g), Add(state[7], v.h)]
  }

  // ---- the rotating register file -------------------------------------------------------------

  /** Register j of round i lives in slot (64 - i + j) % 8 of the array. */
  function Slot(i: nat, j: nat): (k: nat)
    requires i <= 64
    ensures k < 8
  {
    (64 - i + j) % 8
  }

  function View(s: seq<Word>, i: nat): Regs
    requires |s| >= 8 && i <= 64
  {
    Regs(s[Slot(i, 0)], s[Slot(i, 1)], s[Slot(i, 2)], s[Slot(i, 3)],
         s[Slot(i, 4)], s[Slot(i, 5)], s[Slot(i, 6)], s[Slot(i, 7)])
  }

  /** Going to the next round turns the file by one slot. */
  lemma SlotsTurn(i: nat)
    requires i < 64
    ensures Slot(i + 1, 0) == Slot(i, 7) && Slot(i + 1, 1) == Slot(i, 0) && Slot(i + 1, 2) == Slot(i, 1)
    ensures Slot(i + 1, 3) == Slot(i, 2) && Slot(i + 1, 4) == Slot(i, 3) && Slot(i + 1, 5) == Slot(i, 4)
    ensures Slot(i + 1, 6) == Slot(i, 5) && Slot(i + 1, 7) == Slot(i, 6)
  {
  }

  lemma SlotsApart(i: nat, j: nat, k: nat)
    requires i <= 64 && j < k < 8
    ensures Slot(i, j) != Slot(i, k)
  {
  }

  /** Adding to slot d and overwriting slot h is a whole round, seen one turn later. */
  lemma TwoWritesAreARound(s: seq<Word>, i: nat, t0: Word, t1: Word, k: Word)
    requires |s| >= 8 && i < 64
    requires var r := View(s, i); t0 == Temp1(r.e, r.f, r.g, r.h, k) && t1 == Temp2(r.a, r.b, r.c)
    ensures View(s[Slot(i, 3) := Add(s[Slot(i, 3)], t0)][Slot(i, 7) := Add(t0, t1)], i + 1) == Round(View(s, i), k)
  {
    hide Slot, Temp1, Temp2, Add;
    SlotsTurn(i);
    SlotsApart(i, 0, 3); SlotsApart(i, 1, 3); SlotsApart(i, 2, 3); SlotsApart(i, 3, 4);
    SlotsApart(i, 3, 5); SlotsApart(i, 3, 6); SlotsApart(i, 3, 7); SlotsApart(i, 0, 7);
    SlotsApart(i, 1, 7); SlotsApart(i, 2, 7); SlotsApart(i, 4, 7); SlotsApart(i, 5, 7); SlotsApart(i, 6, 7);
  }

  /** RNDr(S, W, i): two of the eight slots are written, none is moved. */
  method RoundInPlace(s: array<Word>, w: array<Word>, i: nat)
    requires s.Length >= 8 && i < 64 && i < w.Length && s != w
    modifies s
    ensures View(s[..], i + 1) == Round(View(old(s[..]), i), Add(w[i], K[i]))
    ensures forall k :: 8 <= k < s.Length ==> s[k] == old(s[k])
  {
    hide Slot, Temp1, Temp2, Add, K, Round;
    TableSizes();
    ghost var before := s[..];
    var t0 := Temp1(s[Slot(i, 4)], s[Slot(i, 5)], s[Slot(i, 6)], s[Slot(i, 7)], Add(w[i], K[i]));
    var t1 := Temp2(s[Slot(i, 0)], s[Slot(i, 1)], s[Slot(i, 2)]);
    TwoWritesAreARound(before, i, t0, t1, Add(w[i], K[i]));
    SlotsApart(i, 3, 7);
    s[Slot(i, 3)] := Add(s[Slot(i, 3)], t0);
    s[Slot(i, 7)] := Add(t0, t1);
    assert s[..] == before[Slot(i, 3) := Add(before[Slot(i, 3)], t0)][Slot(i, 7) := Add(t0, t1)];
  }
}
