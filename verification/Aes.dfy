/** The AES transformations of FIPS 197 over byte blocks, and the proof that deciphering undoes enciphering
    for any list of round keys. */
module Aes {
  import opened AesTables
  import opened AesField

  type Bytes = seq<bv8>
  type Block = s: Bytes | |s| == 16 witness seq(16, _ => 0)

  /** The byte of row i % 4 and column i / 4 of a block is byte i. */
  function SubBytes(s: Block): Block { seq(16, i requires 0 <= i < 16 => SubByte(s[i])) }
  function InvSubBytes(s: Block): Block { seq(16, i requires 0 <= i < 16 => InvSubByte(s[i])) }

  /** The byte c columns to the right of byte i in its row, going round. */
  function Along(i: nat, c: nat): (j: nat)
    requires i < 16 && c <= 4
    ensures j < 16 && j % 4 == i % 4
  {
    if i + 4 * c < 16 then i + 4 * c else i + 4 * c - 16
  }

  /** Row r moves left by r columns; the inverse moves it right, which is left by 4 - r. */
  function ShiftRows(s: Block): Block { seq(16, i requires 0 <= i < 16 => s[Along(i, i % 4)]) }
  function InvShiftRows(s: Block): Block { seq(16, i requires 0 <= i < 16 => s[Along(i, 4 - i % 4)]) }

  /** The byte r rows below byte i in its column, going round. */
  function Below(i: nat, r: nat): (j: nat)
    requires i < 16 && r < 4
    ensures j < 16 && j / 4 == i / 4
  {
    if i % 4 + r < 4 then i + r else i + r - 4
  }

  function MixColumns(s: Block): Block {
    seq(16, i requires 0 <= i < 16 => Mixed(s[i], s[Below(i, 1)], s[Below(i, 2)], s[Below(i, 3)]))
  }
  function InvMixColumns(s: Block): Block {
    seq(16, i requires 0 <= i < 16 => Unmixed(s[i], s[Below(i, 1)], s[Below(i, 2)], s[Below(i, 3)]))
  }

  function XorBlocks(s: Block, k: Block): Block { seq(16, i requires 0 <= i < 16 => Xor(s[i], k[i])) }

  /** Round key number n of an expanded key. */
  function RoundKey(w: Bytes, n: nat): Block
    requires 16 * n + 16 <= |w|
  {
    w[16 * n..16 * n + 16]
  }

  function Round(s: Block, k: Block): Block {
    XorBlocks(MixColumns(ShiftRows(SubBytes(s))), k)
  }
  function InvRound(s: Block, k: Block): Block {
    InvMixColumns(XorBlocks(InvSubBytes(InvShiftRows(s)), k))
  }

  /** Rounds 1 to n. */
  function Rounds(s: Block, w: Bytes, n: nat): Block
    requires 16 * n + 16 <= |w|
  {
    if n == 0 then s else Round(Rounds(s, w, n - 1), RoundKey(w, n))
  }

  /** Inverse rounds n down to 1. */
  function InvRounds(s: Block, w: Bytes, n: nat): Block
    requires 16 * n + 16 <= |w|
    decreases n
  {
    if n == 0 then s else InvRounds(InvRound(s, RoundKey(w, n)), w, n - 1)
  }

  /** Section 5.1: nr rounds, the last without MixColumns. */
  function Cipher(s: Block, w: Bytes, nr: nat): Block
    requires nr >= 1 && |w| == 16 * (nr + 1)
  {
    XorBlocks(ShiftRows(SubBytes(Rounds(XorBlocks(s, RoundKey(w, 0)), w, nr - 1))), RoundKey(w, nr))
  }

  /** Section 5.3. */
  function InvCipher(s: Block, w: Bytes, nr: nat): Block
    requires nr >= 1 && |w| == 16 * (nr + 1)
  {
    XorBlocks(InvSubBytes(InvShiftRows(InvRounds(XorBlocks(s, RoundKey(w, nr)), w, nr - 1))), RoundKey(w, 0))
  }

  lemma SubBytesUndone(s: Block)
    ensures InvSubBytes(SubBytes(s)) == s
  {
    hide SubByte, InvSubByte;
    forall i | 0 <= i < 16 ensures InvSubBytes(SubBytes(s))[i] == s[i] { SubUndone(s[i]); }
  }

  lemma AlongAndBack(i: nat)
    requires i < 16
    ensures Along(Along(i, 4 - i % 4), i % 4) == i
  {
  }

  lemma ShiftRowsUndone(s: Block)
    ensures InvShiftRows(ShiftRows(s)) == s
  {
    forall i | 0 <= i < 16 ensures InvShiftRows(ShiftRows(s))[i] == s[i] {
      AlongAndBack(i);
    }
  }

  lemma BelowTwice(i: nat, r: nat, q: nat)
    requires i < 16 && r < 4 && q < 4
    ensures Below(Below(i, r), q) == Below(i, if r + q < 4 then r + q else r + q - 4)
  {
  }

  lemma MixColumnsUndone(s: Block)
    ensures InvMixColumns(MixColumns(s)) == s
  {
    forall i | 0 <= i < 16 ensures InvMixColumns(MixColumns(s))[i] == s[i] { MixUndoneAt(s, i); }
  }

  lemma MixUndoneAt(s: Block, i: nat)
    requires i < 16
    ensures InvMixColumns(MixColumns(s))[i] == s[i]
  {
    hide Mixed, Unmixed, Below;
    forall r, q | 0 <= r < 4 && 0 <= q < 4 ensures Below(Below(i, r), q) == Below(i, if r + q < 4 then r + q else r + q - 4) { BelowTwice(i, r, q); }
    BelowSelf(i);
    MixUndone(s[i], s[Below(i, 1)], s[Below(i, 2)], s[Below(i, 3)]);
    assert Below(Below(i, 1), 1) == Below(i, 2) && Below(Below(i, 1), 2) == Below(i, 3) && Below(Below(i, 1), 3) == i;
    assert Below(Below(i, 2), 1) == Below(i, 3) && Below(Below(i, 2), 2) == i && Below(Below(i, 2), 3) == Below(i, 1);
    assert Below(Below(i, 3), 1) == i && Below(Below(i, 3), 2) == Below(i, 1) && Below(Below(i, 3), 3) == Below(i, 2);
  }

  lemma BelowSelf(i: nat)
    requires i < 16
    ensures Below(i, 0) == i
  {
  }

  lemma XorBlocksTwice(s: Block, k: Block)
    ensures XorBlocks(XorBlocks(s, k), k) == s
  {
    hide Xor;
    forall i | 0 <= i < 16 ensures XorBlocks(XorBlocks(s, k), k)[i] == s[i] { XorTwice(s[i], k[i]); }
  }

  /** The inverse rounds, starting from shifted and substituted bytes, walk back through the forward rounds. */
  lemma {:induction false} RoundsUndone(s: Block, w: Bytes, n: nat)
    requires 16 * n + 16 <= |w|
    ensures InvRounds(ShiftRows(SubBytes(Rounds(s, w, n))), w, n) == ShiftRows(SubBytes(s))
  {
    hide SubBytes, InvSubBytes, ShiftRows, InvShiftRows, MixColumns, InvMixColumns, XorBlocks;
    if n > 0 {
      var before := Rounds(s, w, n - 1);
      var after := Rounds(s, w, n);
      ShiftRowsUndone(SubBytes(after));
      SubBytesUndone(after);
      XorBlocksTwice(MixColumns(ShiftRows(SubBytes(before))), RoundKey(w, n));
      MixColumnsUndone(ShiftRows(SubBytes(before)));
      RoundsUndone(s, w, n - 1);
    }
  }

  lemma CipherUndone(s: Block, w: Bytes, nr: nat)
    requires nr >= 1 && |w| == 16 * (nr + 1)
    ensures InvCipher(Cipher(s, w, nr), w, nr) == s
  {
    hide SubBytes, InvSubBytes, ShiftRows, InvShiftRows, XorBlocks, Rounds, InvRounds;
    var first := XorBlocks(s, RoundKey(w, 0));
    XorBlocksTwice(ShiftRows(SubBytes(Rounds(first, w, nr - 1))), RoundKey(w, nr));
    RoundsUndone(first, w, nr - 1);
    ShiftRowsUndone(SubBytes(first));
    SubBytesUndone(first);
    XorBlocksTwice(s, RoundKey(w, 0));
  }

  // Enciphering undoes deciphering too.

  lemma InvSubBytesUndone(s: Block)
    ensures SubBytes(InvSubBytes(s)) == s
  {
    hide SubByte, InvSubByte;
    forall i | 0 <= i < 16 ensures SubBytes(InvSubBytes(s))[i] == s[i] { InvSubUndone(s[i]); }
  }

  lemma InvShiftRowsUndone(s: Block)
    ensures ShiftRows(InvShiftRows(s)) == s
  {
    forall i | 0 <= i < 16 ensures ShiftRows(InvShiftRows(s))[i] == s[i] { BackAndAlong(i); }
  }

  lemma BackAndAlong(i: nat)
    requires i < 16
    ensures Along(Along(i, i % 4), 4 - i % 4) == i
  {
  }

  lemma InvMixColumnsUndone(s: Block)
    ensures MixColumns(InvMixColumns(s)) == s
  {
    forall i | 0 <= i < 16 ensures MixColumns(InvMixColumns(s))[i] == s[i] { UnmixUndoneAt(s, i); }
  }

  lemma UnmixUndoneAt(s: Block, i: nat)
    requires i < 16
    ensures MixColumns(InvMixColumns(s))[i] == s[i]
  {
    hide Mixed, Unmixed, Below;
    forall r, q | 0 <= r < 4 && 0 <= q < 4 ensures Below(Below(i, r), q) == Below(i, if r + q < 4 then r + q else r + q - 4) { BelowTwice(i, r, q); }
    BelowSelf(i);
    UnmixUndone(s[i], s[Below(i, 1)], s[Below(i, 2)], s[Below(i, 3)]);
    assert Below(Below(i, 1), 1) == Below(i, 2) && Below(Below(i, 1), 2) == Below(i, 3) && Below(Below(i, 1), 3) == i;
    assert Below(Below(i, 2), 1) == Below(i, 3) && Below(Below(i, 2), 2) == i && Below(Below(i, 2), 3) == Below(i, 1);
    assert Below(Below(i, 3), 1) == i && Below(Below(i, 3), 2) == Below(i, 1) && Below(Below(i, 3), 3) == Below(i, 2);
  }

  /** The forward rounds walk back through the inverse rounds. */
  lemma {:induction false} InvRoundsUndone(y: Block, w: Bytes, n: nat)
    requires 16 * n + 16 <= |w|
    ensures Rounds(InvSubBytes(InvShiftRows(InvRounds(y, w, n))), w, n) == InvSubBytes(InvShiftRows(y))
    decreases n
  {
    hide SubBytes, InvSubBytes, ShiftRows, InvShiftRows, MixColumns, InvMixColumns, XorBlocks;
    if n > 0 {
      var before := InvRound(y, RoundKey(w, n));
      InvRoundsUndone(before, w, n - 1);
      InvSubBytesUndone(InvShiftRows(before));
      InvShiftRowsUndone(before);
      InvMixColumnsUndone(XorBlocks(InvSubBytes(InvShiftRows(y)), RoundKey(w, n)));
      XorBlocksTwice(InvSubBytes(InvShiftRows(y)), RoundKey(w, n));
    }
  }

  lemma InvCipherUndone(c: Block, w: Bytes, nr: nat)
    requires nr >= 1 && |w| == 16 * (nr + 1)
    ensures Cipher(InvCipher(c, w, nr), w, nr) == c
  {
    hide SubBytes, InvSubBytes, ShiftRows, InvShiftRows, XorBlocks, Rounds, InvRounds;
    var last := XorBlocks(c, RoundKey(w, nr));
    XorBlocksTwice(InvSubBytes(InvShiftRows(InvRounds(last, w, nr - 1))), RoundKey(w, 0));
    InvRoundsUndone(last, w, nr - 1);
    InvSubBytesUndone(InvShiftRows(last));
    InvShiftRowsUndone(last);
    XorBlocksTwice(c, RoundKey(w, nr));
  }

  // Key expansion, section 5.2.

  /** The round constant: {02} to the power n - 1. */
  function RoundConstant(n: nat): bv8
    requires n >= 1
  {
    if n == 1 then 1 else Double(RoundConstant(n - 1))
  }

  ghost predicate KeyLength(nk: nat) { nk == 4 || nk == 6 || nk == 8 }

  /** The word that is added to the word nk places back: the previous word, rotated, substituted and given a
      round constant at multiples of nk, and only substituted half way between them for the longest keys. */
  function Stepped(previous: Bytes, nk: nat, i: nat): (t: Bytes)
    requires |previous| == 4 && nk > 0 && i >= nk
    ensures |t| == 4
  {
    if i % nk == 0 then
      assert i / nk >= 1;
      [Xor(SubByte(previous[1]), RoundConstant(i / nk)), SubByte(previous[2]), SubByte(previous[3]), SubByte(previous[0])]
    else if nk > 6 && i % nk == 4 then
      [SubByte(previous[0]), SubByte(previous[1]), SubByte(previous[2]), SubByte(previous[3])]
    else
      previous
  }

  /** Word i of the expanded key. */
  function ScheduleWord(key: Bytes, i: nat): (t: Bytes)
    requires |key| >= 4 && |key| % 4 == 0
    ensures |t| == 4
  {
    var nk := |key| / 4;
    if i < nk then
      key[4 * i..4 * i + 4]
    else
      var t := Stepped(ScheduleWord(key, i - 1), nk, i);
      var back := ScheduleWord(key, i - nk);
      [Xor(back[0], t[0]), Xor(back[1], t[1]), Xor(back[2], t[2]), Xor(back[3], t[3])]
  }

  function ScheduleByte(key: Bytes, i: nat): bv8
    requires |key| >= 4 && |key| % 4 == 0
  {
    ScheduleWord(key, i / 4)[i % 4]
  }

  /** The nr + 1 round keys one after another; nr is nk + 6. */
  function ExpandedKey(key: Bytes): (w: Bytes)
    requires |key| >= 4 && |key| % 4 == 0
    ensures |w| == 16 * (|key| / 4 + 7)
  {
    seq(16 * (|key| / 4 + 7), i requires 0 <= i < 16 * (|key| / 4 + 7) => ScheduleByte(key, i))
  }

  lemma KeyComesFirst(key: Bytes)
    requires |key| >= 4 && |key| % 4 == 0
    ensures ExpandedKey(key)[..|key|] == key
  {
    hide ScheduleWord;
    forall i | 0 <= i < |key| ensures ScheduleByte(key, i) == key[i] { FirstWords(key, i / 4); }
  }

  lemma FirstWords(key: Bytes, i: nat)
    requires |key| >= 4 && |key| % 4 == 0 && i < |key| / 4
    ensures ScheduleWord(key, i) == key[4 * i..4 * i + 4]
  {
  }
}
