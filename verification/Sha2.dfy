/** sha2.c: the compression function, the hash of a byte string, and its double. */
module Sha2 {
  import opened MachineWords
  import opened Sha256

  function Swab32(x: Word): Word {
    (x % 0x100) * 0x100_0000 + (x / 0x100 % 0x100) * 0x1_0000 + (x / 0x1_0000 % 0x100) * 0x100 + x / 0x100_0000
  }

  function SwabAll(block: seq<Word>): (r: seq<Word>)
    ensures |r| == |block|
  {
    seq(|block|, i requires 0 <= i < |block| => Swab32(block[i]))
  }

  ghost predicate Scheduled(w: seq<Word>, block: seq<Word>, n: nat)
    requires |block| == 16
  {
    n <= |w| && forall j :: 0 <= j < n ==> w[j] == ScheduleWord(block, j)
  }

  /** Two steps of the schedule loop. */
  method ExtendPair(w: array<Word>, i: nat, ghost block: seq<Word>)
    requires |block| == 16 && 16 <= i && i + 1 < w.Length && Scheduled(w[..], block, i)
    modifies w
    ensures Scheduled(w[..], block, i + 2)
    ensures forall k :: (0 <= k < i || i + 2 <= k < w.Length) ==> w[k] == old(w[k])
  {
    hide Extend;
    w[i] := Extend(w[i - 2], w[i - 7], w[i - 15], w[i - 16]);
    w[i + 1] := Extend(w[i - 1], w[i - 6], w[i - 14], w[i - 15]);
  }

  /** Rounds from..to of the unrolled RNDr sequence. */
  method Mix(s: array<Word>, w: array<Word>, from: nat, to: nat, ghost r: Regs, ghost block: seq<Word>)
    requires s.Length >= 8 && s != w && |block| == 16
    requires from <= to <= 64 && Scheduled(w[..], block, to)
    requires View(s[..], from) == RoundsFrom(r, block, from)
    modifies s
    ensures View(s[..], to) == RoundsFrom(r, block, to)
    ensures forall k :: 8 <= k < s.Length ==> s[k] == old(s[k])
  {
    hide View, Round, Add, ScheduleWord;
    TableSizes();
    for i := from to to
      invariant View(s[..], i) == RoundsFrom(r, block, i)
      invariant forall k :: 8 <= k < s.Length ==> s[k] == old(s[k])
    {
      RoundInPlace(s, w, i);
    }
  }

  /** Step 1 of sha256_transform: the message schedule. */
  method Schedule(block: seq<Word>, swap: bool) returns (w: array<Word>)
    requires |block| == 16
    ensures fresh(w) && w.Length == 64
    ensures Scheduled(w[..], if swap then SwabAll(block) else block, 64)
  {
    hide ScheduleWord;
    ghost var b := if swap then SwabAll(block) else block;
    w := new Word[64];
    for i := 0 to 16
      invariant forall j :: 0 <= j < i ==> w[j] == b[j]
    {
      w[i] := if swap then Swab32(block[i]) else block[i];
    }
    FirstWords(w[..], b);
    var i := 16;
    while i < 64
      invariant 16 <= i <= 64 && i % 2 == 0
      invariant Scheduled(w[..], b, i)
    {
      ExtendPair(w, i, b);
      i := i + 2;
    }
  }

  /** sha256_transform */
  method Transform(state: array<Word>, block: seq<Word>, swap: bool)
    requires state.Length >= 8 && |block| == 16
    modifies state
    ensures state[..8] == Compress(old(state[..8]), if swap then SwabAll(block) else block)
    ensures forall k :: 8 <= k < state.Length ==> state[k] == old(state[k])
  {
    hide ScheduleWord, RoundsFrom, Add, View, Scheduled;
    ghost var b := if swap then SwabAll(block) else block;
    var w := Schedule(block, swap);
    var s := new Word[8](k requires 0 <= k < 8 reads state => state[k]);
    ghost var r := ToRegs(state[..8]);
    ViewAtStart(s[..], r, b);
    Mix(s, w, 0, 64, r, b);
    ViewAtEnd(s[..]);
    for k := 0 to 8
      modifies state
      invariant forall j :: 0 <= j < k ==> state[j] == Add(old(state[j]), s[j])
      invariant forall j :: k <= j < state.Length ==> state[j] == old(state[j])
    {
      state[k] := Add(state[k], s[k]);
    }
    FeedForward(old(state[..8]), b, s[..], state[..8]);
  }

  lemma FeedForward(before: seq<Word>, block: seq<Word>, s: seq<Word>, after: seq<Word>)
    requires |before| == 8 && |after| == 8 && |s| == 8 && |block| == 16
    requires ToRegs(s) == RoundsFrom(ToRegs(before), block, 64)
    requires forall j :: 0 <= j < 8 ==> after[j] == Add(before[j], s[j])
    ensures after == Compress(before, block)
  {
    hide RoundsFrom, Add;
  }

  lemma FirstWords(w: seq<Word>, block: seq<Word>)
    requires |block| == 16 <= |w| && forall j :: 0 <= j < 16 ==> w[j] == block[j]
    ensures Scheduled(w, block, 16)
  {
  }

  lemma ViewAtStart(s: seq<Word>, r: Regs, block: seq<Word>)
    requires |s| >= 8 && |block| == 16 && r == ToRegs(s)
    ensures View(s, 0) == RoundsFrom(r, block, 0)
  {
  }

  lemma ViewAtEnd(s: seq<Word>)
    requires |s| >= 8
    ensures View(s, 64) == ToRegs(s)
  {
  }

  // ---- byte strings ---------------------------------------------------------------------------

  function Be32(b0: Byte, b1: Byte, b2: Byte, b3: Byte): Word {
    b0 * 0x100_0000 + b1 * 0x1_0000 + b2 * 0x100 + b3
  }

  lemma Be32RoundTrip(w: Word)
    ensures var b := Be32Bytes(w); Be32(b[0], b[1], b[2], b[3]) == w
  {
    assert w / 0x100_0000 == w / 0x1_0000 / 0x100;
    assert w / 0x1_0000 == w / 0x100 / 0x100;
  }

  /** Big-endian words of a byte string, as section 5.2.1 of FIPS 180-4 reads a block. */
  function WordsOf(b: seq<Byte>): (r: seq<Word>)
    requires |b| % 4 == 0
    ensures |r| == |b| / 4
  {
    seq(|b| / 4, i requires 0 <= i < |b| / 4 => Be32(b[4 * i], b[4 * i + 1], b[4 * i + 2], b[4 * i + 3]))
  }

  function BytesOf(w: seq<Word>): (r: seq<Byte>)
    ensures |r| == 4 * |w|
  {
    if w == [] then [] else BytesOf(w[..|w| - 1]) + Be32Bytes(w[|w| - 1])
  }

  /** How many 64-byte blocks hold len bytes, 0x80 and the 8-byte length. */
  function PadBlocks(len: nat): (k: nat)
    ensures 64 * (k - 1) < len + 9 <= 64 * k
  {
    (len + 8) / 64 + 1
  }

  /** The zero bytes that follow 0x80: the fewest that leave eight bytes of the last block. */
  function ZeroCount(len: nat): (z: nat)
    ensures len + 1 + z == 64 * PadBlocks(len) - 8 && z < 64
  {
    64 * PadBlocks(len) - 9 - len
  }

  /** The padded message of section 5.1.1 of FIPS 180-4, as words; its last two are the bit length. */
  function Padded(msg: seq<Byte>): (r: seq<Word>)
    requires |msg| < 0x2000_0000_0000_0000
    ensures |r| == 16 * PadBlocks(|msg|)
  {
    var filled := msg + [0x80] + seq(ZeroCount(|msg|), _ => 0);
    assert |filled| == 4 * (16 * PadBlocks(|msg|) - 2);
    WordsOf(filled) + [8 * |msg| / 0x1_0000_0000, 8 * |msg| % 0x1_0000_0000]
  }

  function Absorb(state: seq<Word>, words: seq<Word>): (r: seq<Word>)
    requires |state| == 8 && |words| % 16 == 0
    ensures |r| == 8
    decreases |words|
  {
    if |words| == 0 then state
    else Compress(Absorb(state, words[..|words| - 16]), words[|words| - 16..])
  }

  function Hash(msg: seq<Byte>): (r: seq<Byte>)
    requires |msg| < 0x2000_0000_0000_0000
    ensures |r| == 32
  {
    hide H_INIT, K, Padded, Absorb, BytesOf, PadBlocks;
    TableSizes();
    BytesOf(Absorb(H_INIT, Padded(msg)))
  }

  /** sha256d_hash1: the second half pads a 32-byte message. */
  const HASH1: seq<Word> := [
    0, 0, 0, 0, 0, 0, 0, 0,
    0x8000_0000, 0, 0, 0, 0, 0, 0, 0x100
  ]

  /** The double hash, from the digest words of the first one. */
  function SecondHash(first: seq<Word>): (r: seq<Word>)
    requires |first| == 8
    ensures |r| == 8
  {
    TableSizes();
    Compress(H_INIT, first + HASH1[8..])
  }

  /** Byte j of the message, then 0x80, then zeros. */
  function PadByte(msg: seq<Byte>, j: nat): Byte {
    if j < |msg| then msg[j] else if j == |msg| then 0x80 else 0
  }

  function PadWord(msg: seq<Byte>, i: nat): Word {
    Be32(PadByte(msg, 4 * i), PadByte(msg, 4 * i + 1), PadByte(msg, 4 * i + 2), PadByte(msg, 4 * i + 3))
  }

  lemma PaddedAt(msg: seq<Byte>, i: nat)
    requires |msg| < 0x2000_0000_0000_0000 && i < |Padded(msg)|
    ensures |Padded(msg)| * 4 == |msg| + 9 + ZeroCount(|msg|)
    ensures i < |Padded(msg)| - 2 ==> Padded(msg)[i] == PadWord(msg, i)
    ensures i == |Padded(msg)| - 2 ==> Padded(msg)[i] == 8 * |msg| / 0x1_0000_0000
    ensures i == |Padded(msg)| - 1 ==> Padded(msg)[i] == 8 * |msg| % 0x1_0000_0000
  {
    hide Be32;
    var filled := msg + [0x80] + seq(ZeroCount(|msg|), _ => 0);
    assert Padded(msg) == WordsOf(filled) + [8 * |msg| / 0x1_0000_0000, 8 * |msg| % 0x1_0000_0000];
    if i < |filled| / 4 {
      FilledAt(msg, filled, 4 * i);
    }
  }

  lemma FilledAt(msg: seq<Byte>, filled: seq<Byte>, j: nat)
    requires filled == msg + [0x80] + seq(ZeroCount(|msg|), _ => 0) && j + 4 <= |filled|
    ensures filled[j] == PadByte(msg, j) && filled[j + 1] == PadByte(msg, j + 1)
    ensures filled[j + 2] == PadByte(msg, j + 2) && filled[j + 3] == PadByte(msg, j + 3)
  {
  }

  /** One pass of sha256d's loop over the bytes: the memset, the memcpy and the 0x80. */
  method FillBlock(t: array<Byte>, data: array<Byte>, len: nat, r: int)
    requires t.Length == 64 && t != data && len <= data.Length && -9 < r <= len && (len - r) % 64 == 0
    modifies t
    ensures forall q :: 0 <= q < 64 ==> t[q] == PadByte(data[..len], len - r + q)
  {
    if r < 64 {
      forall q | 0 <= q < 64 { t[q] := 0; }
    }
    var count := if r > 64 then 64 else if r < 0 then 0 else r;
    forall q | 0 <= q < count { t[q] := data[len - r + q]; }
    if 0 <= r < 64 {
      t[r] := 0x80;
    }
  }

  /** be32dec over the block, then the bit length in its last word when this is the last block. */
  method LoadWords(t: array<Byte>, len: nat, r: int) returns (w: seq<Word>)
    requires t.Length == 64 && len < 0x1000_0000
    ensures |w| == 16
    ensures forall i :: 0 <= i < 15 ==> w[i] == Be32(t[4 * i], t[4 * i + 1], t[4 * i + 2], t[4 * i + 3])
    ensures w[15] == if r < 56 then 8 * len else Be32(t[60], t[61], t[62], t[63])
  {
    w := [];
    while |w| < 16
      invariant |w| <= 16
      invariant forall i :: 0 <= i < |w| ==> w[i] == Be32(t[4 * i], t[4 * i + 1], t[4 * i + 2], t[4 * i + 3])
    {
      var i := |w|;
      w := w + [Be32(t[4 * i], t[4 * i + 1], t[4 * i + 2], t[4 * i + 3])];
    }
    if r < 56 {
      w := w[15 := 8 * len];
    }
  }

  /** The block a pass loads is the block of the padded message; r < 56 exactly on the last one. */
  lemma LoadedBlock(msg: seq<Byte>, k: nat, t: seq<Byte>, w: seq<Word>)
    requires |msg| < 0x1000_0000 && 64 * k < |msg| + 9
    requires |t| == 64 && forall q :: 0 <= q < 64 ==> t[q] == PadByte(msg, 64 * k + q)
    requires |w| == 16
    requires forall i :: 0 <= i < 15 ==> w[i] == Be32(t[4 * i], t[4 * i + 1], t[4 * i + 2], t[4 * i + 3])
    requires w[15] == if |msg| - 64 * k < 56 then 8 * |msg| else Be32(t[60], t[61], t[62], t[63])
    ensures 16 * (k + 1) <= |Padded(msg)|
    ensures 64 * (k + 1) >= |msg| + 9 <==> 16 * (k + 1) == |Padded(msg)|
    ensures w == Padded(msg)[16 * k..16 * (k + 1)]
  {
    hide Padded, Be32;
    PaddedAt(msg, 0);
    forall i | 0 <= i < 16
      ensures w[i] == Padded(msg)[16 * k + i]
    {
      PaddedAt(msg, 16 * k + i);
      if i < 15 || |msg| - 64 * k >= 56 {
        assert w[i] == PadWord(msg, 16 * k + i);
      }
      if i == 14 && |msg| - 64 * k < 56 {
        ZeroWord();
      }
    }
  }

  lemma ZeroWord()
    ensures Be32(0, 0, 0, 0) == 0
  {
  }

  lemma AbsorbNext(state: seq<Word>, words: seq<Word>, k: nat)
    requires |state| == 8 && |words| % 16 == 0 && 16 * (k + 1) <= |words|
    ensures Absorb(state, words[..16 * (k + 1)]) == Compress(Absorb(state, words[..16 * k]), words[16 * k..16 * (k + 1)])
  {
    hide Compress;
    var upto := words[..16 * (k + 1)];
    assert upto[..|upto| - 16] == words[..16 * k];
    assert upto[|upto| - 16..] == words[16 * k..16 * (k + 1)];
  }

  lemma AbsorbOne(state: seq<Word>, words: seq<Word>)
    requires |state| == 8 && |words| == 16
    ensures Absorb(state, words) == Compress(state, words)
  {
    hide Compress;
    assert words[|words| - 16..] == words;
    assert words[..|words| - 16] == [];
  }

  lemma BytesOfAt(w: seq<Word>, i: nat)
    requires i < |w|
    ensures BytesOf(w)[4 * i..4 * i + 4] == Be32Bytes(w[i])
  {
    if i < |w| - 1 {
      BytesOfAt(w[..|w| - 1], i);
      assert BytesOf(w)[4 * i..4 * i + 4] == BytesOf(w[..|w| - 1])[4 * i..4 * i + 4];
    }
  }

  lemma WordOfBytes(w: seq<Word>, i: nat)
    requires i < |w|
    ensures PadWord(BytesOf(w), i) == w[i]
  {
    hide Be32, Be32Bytes, BytesOf;
    var msg := BytesOf(w);
    BytesOfAt(w, i);
    var b := Be32Bytes(w[i]);
    assert msg[4 * i..4 * i + 4][0] == msg[4 * i] && msg[4 * i..4 * i + 4][1] == msg[4 * i + 1];
    assert msg[4 * i..4 * i + 4][2] == msg[4 * i + 2] && msg[4 * i..4 * i + 4][3] == msg[4 * i + 3];
    Be32RoundTrip(w[i]);
  }

  lemma DigestPadWord(msg: seq<Byte>, i: nat)
    requires |msg| == 32 && 8 <= i < 14
    ensures PadWord(msg, i) == HASH1[i]
  {
  }

  lemma Hash1Length()
    ensures |HASH1| == 16 && HASH1[15] == 0x100 && HASH1[14] == 0
  {
  }

  lemma DigestPadded(first: seq<Word>, i: nat)
    requires |first| == 8 && i < 16
    ensures |Padded(BytesOf(first))| == 16
    ensures Padded(BytesOf(first))[i] == if i < 8 then first[i] else HASH1[i]
  {
    hide Padded, BytesOf, PadWord, HASH1, Be32;
    Hash1Length();
    var msg := BytesOf(first);
    assert |msg| == 32;
    PaddedAt(msg, 0);
    assert |Padded(msg)| == 16;
    PaddedAt(msg, i);
    if i < 8 {
      WordOfBytes(first, i);
    } else if i < 14 {
      DigestPadWord(msg, i);
    }
  }

  /** Appending sha256d_hash1's second half is exactly the padding of a digest. */
  lemma SecondHashIsHash(first: seq<Word>)
    requires |first| == 8
    ensures Padded(BytesOf(first)) == first + HASH1[8..]
    ensures Hash(BytesOf(first)) == BytesOf(SecondHash(first))
  {
    hide Padded, Compress, BytesOf, PadWord, HASH1, H_INIT, Be32, Absorb;
    TableSizes();
    Hash1Length();
    var msg := BytesOf(first);
    forall i | 0 <= i < 16
      ensures |Padded(msg)| == 16 && Padded(msg)[i] == if i < 8 then first[i] else HASH1[i]
    {
      DigestPadded(first, i);
    }
    DigestPadded(first, 0);
    assert Padded(msg) == first + HASH1[8..];
    AbsorbOne(H_INIT, Padded(msg));
  }

  /** sha256_init */
  method Init(state: array<Word>)
    requires state.Length >= 8
    modifies state
    ensures |H_INIT| == 8 && state[..8] == H_INIT
    ensures forall k :: 8 <= k < state.Length ==> state[k] == old(state[k])
  {
    hide H_INIT;
    TableSizes();
    forall k | 0 <= k < 8 { state[k] := H_INIT[k]; }
    assert state[..8] == H_INIT;
  }

  /** The first hash of sha256d: the loop over r, from len down to -9. */
  method AbsorbMessage(s: array<Word>, data: array<Byte>, len: nat)
    requires s.Length == 16 && len <= data.Length && len < 0x1000_0000
    requires |H_INIT| == 8 && s[..8] == H_INIT
    modifies s
    ensures s[..8] == Absorb(H_INIT, Padded(data[..len]))
  {
    hide Padded, Absorb, Compress, Be32, H_INIT, PadByte;
    TableSizes();
    ghost var msg := data[..len];
    ghost var k := 0;
    AbsorbNothing(H_INIT, Padded(msg));
    var t := new Byte[64];
    var r: int := len;
    while r > -9
      modifies s, t
      invariant r == len - 64 * k && 16 * k <= |Padded(msg)|
      invariant r <= -9 ==> 16 * k == |Padded(msg)|
      invariant s[..8] == Absorb(H_INIT, Padded(msg)[..16 * k])
      decreases r + 64
    {
      FillBlock(t, data, len, r);
      var w := LoadWords(t, len, r);
      LoadedBlock(msg, k, t[..], w);
      AbsorbNext(H_INIT, Padded(msg), k);
      Transform(s, w, false);
      r := r - 64;
      k := k + 1;
    }
    assert Padded(msg)[..16 * k] == Padded(msg);
  }

  lemma AbsorbNothing(state: seq<Word>, words: seq<Word>)
    requires |state| == 8
    ensures Absorb(state, words[..0]) == state
  {
  }

  /** sha256d: SHA-256 of SHA-256, for every length whose bit count fits an int.  The digest may be
      written over the data. */
  method Sha256d(hash: array<Byte>, data: array<Byte>, len: nat)
    requires hash.Length >= 32 && len <= data.Length && len < 0x1000_0000
    modifies hash
    ensures hash[..32] == Hash(Hash(old(data[..len])))
  {
    hide Padded, Absorb, Compress, H_INIT, HASH1, BytesOf;
    Hash1Length();
    var s := new Word[16];
    Init(s);
    AbsorbMessage(s, data, len);
    ghost var first := s[..8];
    SecondHashIsHash(first);
    forall k | 8 <= k < 16 { s[k] := HASH1[k]; }
    assert s[..] == first + HASH1[8..];
    var t := new Word[16];
    Init(t);
    Transform(t, s[..], false);
    PutBytes(hash, t);
    assert t[..8] == SecondHash(first);
  }

  /** The eight words as bytes, each in big-endian order. */
  method PutBytes(hash: array<Byte>, t: array<Word>)
    requires hash.Length >= 32 && t.Length >= 8
    modifies hash
    ensures hash[..32] == BytesOf(t[..8])
  {
    hide BytesOf;
    BytesOfNothing();
    for i := 0 to 8
      invariant hash[..4 * i] == BytesOf(t[..i])
    {
      var b := Be32Bytes(t[i]);
      hash[4 * i], hash[4 * i + 1], hash[4 * i + 2], hash[4 * i + 3] := b[0], b[1], b[2], b[3];
      BytesOfNext(t[..i + 1]);
      assert t[..i + 1][..i] == t[..i];
      assert hash[..4 * (i + 1)] == hash[..4 * i] + b;
    }
  }

  lemma BytesOfNothing()
    ensures BytesOf([]) == []
  {
  }

  lemma BytesOfNext(w: seq<Word>)
    requires |w| > 0
    ensures BytesOf(w) == BytesOf(w[..|w| - 1]) + Be32Bytes(w[|w| - 1])
  {
  }
}
