/** Keys, contexts and whole messages of oaes_lib.c. */
module OaesLib {
  import opened AesTables
  import opened AesField
  import opened Aes
  import opened OaesBlocks

  const GF8: seq<bv8> := [0x01, 0x02, 0x04, 0x08, 0x10, 0x20, 0x40, 0x80, 0x1b, 0x36]

  lemma Gf8IsPowerOfTwo(n: nat)
    requires 1 <= n <= 10
    ensures GF8[n - 1] == RoundConstant(n)
  {
    if n > 1 { Gf8IsPowerOfTwo(n - 1); }
  }

  method WordRotLeft(word: array<bv8>)
    requires word.Length == 4
    modifies word
    ensures word[0] == old(word[1]) && word[1] == old(word[2]) && word[2] == old(word[3]) && word[3] == old(word[0])
  {
    word[0], word[1], word[2], word[3] := word[1], word[2], word[3], word[0];
  }

  method SubWord(word: array<bv8>)
    requires word.Length == 4
    modifies word
    ensures forall k :: 0 <= k < 4 ==> word[k] == SubByte(old(word[k]))
  {
    hide SubByte;
    for j := 0 to 4
      invariant forall k :: 0 <= k < j ==> word[k] == SubByte(old(word[k]))
      invariant forall k :: j <= k < 4 ==> word[k] == old(word[k])
    {
      word[j] := SubByte(word[j]);
    }
  }

  /** The first n words of w are those of the key schedule. */
  ghost predicate Laid(key: Bytes, w: Bytes, n: nat)
    requires |key| >= 4 && |key| % 4 == 0 && 4 * n <= |w|
  {
    forall v :: 0 <= v < n ==> w[4 * v..4 * v + 4] == ScheduleWord(key, v)
  }

  lemma LaidAt(key: Bytes, w: Bytes, n: nat, v: nat)
    requires |key| >= 4 && |key| % 4 == 0 && 4 * n <= |w| && v < n && Laid(key, w, n)
    ensures w[4 * v..4 * v + 4] == ScheduleWord(key, v)
  {
    hide ScheduleWord;
  }

  lemma SliceOfPrefix(w: Bytes, n: nat, a: nat, b: nat)
    requires a <= b <= n <= |w|
    ensures w[..n][a..b] == w[a..b]
  {
  }

  lemma LaidOneMore(key: Bytes, before: Bytes, w: Bytes, n: nat)
    requires |key| >= 4 && |key| % 4 == 0 && 4 * n + 4 <= |w| == |before| && Laid(key, before, n)
    requires w[..4 * n] == before[..4 * n] && w[4 * n..4 * n + 4] == ScheduleWord(key, n)
    ensures Laid(key, w, n + 1)
  {
    hide ScheduleWord;
    forall v | 0 <= v <= n ensures w[4 * v..4 * v + 4] == ScheduleWord(key, v) {
      if v < n {
        SliceOfPrefix(w, 4 * n, 4 * v, 4 * v + 4);
        SliceOfPrefix(before, 4 * n, 4 * v, 4 * v + 4);
      }
    }
  }

  /** The sum of the word nk places back and the transformed word before is the next word. */
  lemma NextLaid(key: Bytes, before: Bytes, w: Bytes, t: Bytes, nk: nat, n: nat)
    requires KeyLength(nk) && |key| == 4 * nk && nk <= n && 4 * n + 4 <= |w| == |before| && Laid(key, before, n)
    requires t == Stepped(before[4 * (n - 1)..4 * n], nk, n)
    requires forall j :: 0 <= j < 4 ==> w[4 * n..4 * n + 4][j] == Xor(before[4 * (n - nk)..4 * (n - nk) + 4][j], t[j])
    requires w[..4 * n] == before[..4 * n]
    ensures Laid(key, w, n + 1)
  {
    hide ScheduleWord, Xor, Stepped, Laid;
    LaidAt(key, before, n, n - 1);
    LaidAt(key, before, n, n - nk);
    WordFollows(key, n);
    assert w[4 * n..4 * n + 4] == ScheduleWord(key, n);
    LaidOneMore(key, before, w, n);
  }

  lemma KeyLaid(key: Bytes, w: Bytes, nk: nat)
    requires KeyLength(nk) && |key| == 4 * nk <= |w| && w[..4 * nk] == key
    ensures Laid(key, w, nk)
  {
    hide ScheduleWord;
    forall v | 0 <= v < nk ensures w[4 * v..4 * v + 4] == ScheduleWord(key, v) {
      FirstWords(key, v);
      SliceOfPrefix(w, 4 * nk, 4 * v, 4 * v + 4);
    }
  }

  lemma AllLaid(key: Bytes, w: Bytes)
    requires KeyLength(|key| / 4) && |key| % 4 == 0 && |w| == 16 * (|key| / 4 + 7) && Laid(key, w, |w| / 4)
    ensures w == ExpandedKey(key)
  {
    hide ScheduleWord, Laid;
    forall k | 0 <= k < |w| ensures w[k] == ExpandedKey(key)[k] {
      LaidAt(key, w, |w| / 4, k / 4);
      assert w[k] == w[4 * (k / 4)..4 * (k / 4) + 4][k % 4];
    }
  }

  /** Writes at to the sum of the word at from and temp. */
  method AddWord(words: array<bv8>, to: nat, from: nat, temp: array<bv8>)
    requires from + 4 <= to && to + 4 <= words.Length && temp.Length == 4 && temp != words
    modifies words
    ensures forall j :: 0 <= j < 4 ==> words[to..to + 4][j] == Xor(old(words[from..from + 4])[j], temp[j])
    ensures forall k :: 0 <= k < words.Length && !(to <= k < to + 4) ==> words[k] == old(words[k])
  {
    hide Xor;
    for j := 0 to 4
      invariant forall k :: 0 <= k < j ==> words[to + k] == Xor(old(words[from..from + 4])[k], temp[k])
      invariant forall k :: 0 <= k < words.Length && !(to <= k < to + 4) ==> words[k] == old(words[k])
    {
      words[to + j] := Xor(words[from + j], temp[j]);
    }
  }

  class Key {
    const data: array<bv8>
    var keyBase: nat
    var numKeys: nat
    var expData: array<bv8>

    /** The key has one of the three lengths and its round keys have been laid out. */
    ghost predicate Valid()
      reads this, data, expData
    {
      && KeyLength(keyBase) && data.Length == 4 * keyBase
      && numKeys == keyBase + 7
      && data != expData
      && expData[..] == ExpandedKey(data[..])
    }

    constructor (bytes: array<bv8>)
      requires bytes.Length == 16 || bytes.Length == 24 || bytes.Length == 32
      ensures Valid() && fresh(data) && fresh(expData)
      ensures data[..] == bytes[..]
    {
      hide ExpandedKey;
      data := new bv8[bytes.Length](i requires 0 <= i < bytes.Length reads bytes => bytes[i]);
      expData := new bv8[0];
      keyBase, numKeys := 0, 0;
      new;
      assert data[..] == bytes[..];
      Expand();
    }

    method Expand()
      requires data.Length == 16 || data.Length == 24 || data.Length == 32
      modifies this
      ensures Valid() && fresh(expData)
    {
      hide Laid, ExpandedKey;
      keyBase := data.Length / 4;
      numKeys := keyBase + 7;
      expData := new bv8[16 * numKeys];
      forall k | 0 <= k < data.Length { expData[k] := data[k]; }
      ghost var key := data[..];
      KeyLaid(key, expData[..], keyBase);
      var temp := new bv8[4];
      for i := keyBase to 4 * numKeys
        invariant fresh(expData) && fresh(temp) && temp != expData && temp != data && data != expData && expData.Length == 16 * numKeys && temp.Length == 4
        invariant keyBase == data.Length / 4 && numKeys == keyBase + 7 && data[..] == key
        invariant Laid(key, expData[..], i)
        modifies temp, expData
      {
        LayWord(temp, i);
      }
      AllLaid(key, expData[..]);
    }

    /** Word i of the expanded key from the two words it depends on. */
    method LayWord(temp: array<bv8>, i: nat)
      requires KeyLength(keyBase) && numKeys == keyBase + 7 && data.Length == 4 * keyBase
      requires expData.Length == 16 * numKeys && keyBase <= i < 4 * numKeys
      requires Laid(data[..], expData[..], i)
      requires temp.Length == 4 && temp != expData && temp != data && data != expData
      modifies temp, expData
      ensures Laid(data[..], expData[..], i + 1)
    {
      hide ScheduleWord, Xor, Stepped, Laid, ExpandedKey;
      ghost var key, before := data[..], expData[..];
      forall j | 0 <= j < 4 { temp[j] := expData[4 * (i - 1) + j]; }
      assert temp[..] == before[4 * (i - 1)..4 * i];
      TransformColumn(temp, i);
      ghost var t := temp[..];
      AddWord(expData, 4 * i, 4 * (i - keyBase), temp);
      NextLaid(key, before, expData[..], t, keyBase, i);
      assert data[..] == key;
    }

    method TransformColumn(temp: array<bv8>, i: nat)
      requires KeyLength(keyBase) && numKeys == keyBase + 7
      requires temp.Length == 4 && keyBase <= i < 4 * numKeys
      modifies temp
      ensures temp[..] == Stepped(old(temp[..]), keyBase, i)
    {
      hide SubByte, RoundConstant, Xor;
      if i % keyBase == 0 {
        ConstantInTable(keyBase, i);
        WordRotLeft(temp);
        SubWord(temp);
        temp[0] := Xor(temp[0], GF8[i / keyBase - 1]);
      } else if keyBase > 6 && i % keyBase == 4 {
        SubWord(temp);
      }
    }
  }

  lemma ConstantInTable(nk: nat, i: nat)
    requires KeyLength(nk) && nk <= i < 4 * (nk + 7)
    ensures 1 <= i / nk <= 10 && GF8[i / nk - 1] == RoundConstant(i / nk)
  {
    hide RoundConstant;
    assert 1 <= i / nk <= 10;
    Gf8IsPowerOfTwo(i / nk);
  }

  lemma WordFollows(key: Bytes, i: nat)
    requires |key| >= 4 && |key| % 4 == 0 && i >= |key| / 4
    ensures var t := Stepped(ScheduleWord(key, i - 1), |key| / 4, i);
            forall j :: 0 <= j < 4 ==> ScheduleWord(key, i)[j] == Xor(ScheduleWord(key, i - |key| / 4)[j], t[j])
  {
    hide Stepped, Xor;
  }

  method EncryptBlock(key: Key, c: array<bv8>)
    requires key.Valid() && c.Length == 16 && c != key.data && c != key.expData
    modifies c
    ensures key.Valid()
    ensures c[..] == Cipher(old(c[..]), key.expData[..], key.numKeys - 1)
  {
    hide SubBytes, ShiftRows, MixColumns, XorBlocks, ExpandedKey;
    ghost var w, first := key.expData[..], XorBlocks(c[..], RoundKey(key.expData[..], 0));
    AddBlockKey(c, key.expData, 0);
    for i := 1 to key.numKeys - 1
      invariant c[..] == Rounds(first, w, i - 1)
      invariant key.expData[..] == w
    {
      EncryptionRound(key.expData, 16 * i, c);
    }
    SubBytesInPlace(c);
    ShiftRowsInPlace(c);
    AddBlockKey(c, key.expData, key.numKeys - 1);
  }

  /** AddRoundKey on a whole block, with round key number n. */
  method AddBlockKey(c: array<bv8>, expData: array<bv8>, n: nat)
    requires c.Length == 16 && 16 * n + 16 <= expData.Length && c != expData
    modifies c
    ensures c[..] == XorBlocks(old(c[..]), RoundKey(expData[..], n))
  {
    hide XorBlocks;
    ghost var w, was := expData[..], c[..];
    assert View(c, 0) == was;
    assert View(expData, 16 * n) == RoundKey(w, n);
    AddRoundKey(c, 0, expData, 16 * n);
    assert View(c, 0) == c[..];
  }

  /** One full round with the sixteen key bytes at from. */
  method EncryptionRound(key: array<bv8>, from: nat, c: array<bv8>)
    requires c.Length == 16 && from + 16 <= key.Length && c != key
    modifies c
    ensures c[..] == Round(old(c[..]), key[from..from + 16])
  {
    hide SubBytes, ShiftRows, MixColumns, XorBlocks;
    SubBytesInPlace(c);
    ShiftRowsInPlace(c);
    MixColumnsInPlace(c);
    ghost var mixed := c[..];
    assert View(c, 0) == mixed;
    AddRoundKey(c, 0, key, from);
    assert View(c, 0) == c[..];
  }

  /** Ten full rounds, with no initial key addition and no short last round. */
  method PseudoEncryptEcb(key: Key, c: array<bv8>)
    requires key.Valid() && c.Length == 16 && c != key.data && c != key.expData
    modifies c
    ensures key.Valid()
    ensures c[..] == FullRounds(old(c[..]), key.expData[..], 10)
  {
    hide Round, ExpandedKey;
    ghost var w := key.expData[..];
    for i := 0 to 10
      invariant c[..] == FullRounds(old(c[..]), w, i)
      invariant key.expData[..] == w
    {
      EncryptionRound(key.expData, 16 * i, c);
    }
  }

  /** n full rounds with round keys 0 to n - 1. */
  function FullRounds(s: Block, w: Bytes, n: nat): Block
    requires 16 * n <= |w|
  {
    if n == 0 then s else Round(FullRounds(s, w, n - 1), RoundKey(w, n - 1))
  }

  method DecryptBlock(key: Key, m: array<bv8>, at: nat)
    requires key.Valid() && at + 16 <= m.Length && m != key.data && m != key.expData
    modifies m
    ensures key.Valid()
    ensures View(m, at) == InvCipher(old(View(m, at)), key.expData[..], key.numKeys - 1)
    ensures OnlyBlock(m, at)
  {
    hide InvSubBytes, InvShiftRows, InvMixColumns, XorBlocks, ExpandedKey;
    ghost var w, nr := key.expData[..], key.numKeys - 1;
    AddRoundKey(m, at, key.expData, 16 * (key.numKeys - 1));
    ghost var first := View(m, at);
    var i := key.numKeys - 2;
    while i > 0
      invariant 0 <= i <= nr - 1
      invariant InvRounds(View(m, at), w, i) == InvRounds(first, w, nr - 1)
      invariant OnlyBlock(m, at)
      invariant key.expData[..] == w
    {
      InvShiftRowsInPlace(m, at);
      InvSubBytesInPlace(m, at);
      AddRoundKey(m, at, key.expData, 16 * i);
      InvMixColumnsInPlace(m, at);
      i := i - 1;
    }
    InvShiftRowsInPlace(m, at);
    InvSubBytesInPlace(m, at);
    AddRoundKey(m, at, key.expData, 0);
  }
}
