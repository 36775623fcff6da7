/** The table-driven AES rounds of aesb.c over 32-bit little-endian words equal the byte-wise rounds. */
module Aesb {
  import opened AesTables
  import opened AesField
  import opened Aes
  import opened OaesBlocks
  import opened OaesLib

  type Words = s: seq<bv32> | |s| == 4 witness [0, 0, 0, 0]

  /** Byte j of a word, counted from the low end. */
  function ByteOfWord(w: bv32, j: nat): bv8
    requires j < 4
  {
    if j == 0 then (w & 0xff) as bv8
    else if j == 1 then ((w >> 8) & 0xff) as bv8
    else if j == 2 then ((w >> 16) & 0xff) as bv8
    else (w >> 24) as bv8
  }

  /** Words as bytes in memory. */
  function BytesOf(s: seq<bv32>): (b: Bytes)
    ensures |b| == 4 * |s|
  {
    seq(4 * |s|, i requires 0 <= i < 4 * |s| => ByteOfWord(s[i / 4], i % 4))
  }

  function BytesToWord(b0: bv8, b1: bv8, b2: bv8, b3: bv8): bv32 {
    (b3 as bv32 << 24) | (b2 as bv32 << 16) | (b1 as bv32 << 8) | b0 as bv32
  }

  function XorWords(x: bv32, y: bv32): bv32 { x ^ y }

  // The table entries, computed as the table macros compute them.

  function F2(p: bv8): bv8 {
    var x := p as bv32;
    ((x << 1) ^ (((x >> 7) & 1) * 0x11b)) as bv8
  }

  lemma F2Doubles(p: bv8)
    ensures F2(p) == Double(p)
  {
  }

  function F3(p: bv8): bv8 { Xor(F2(p), p) }

  function T0(b: bv8): bv32 { var p := SubByte(b); BytesToWord(F2(p), p, p, F3(p)) }
  function T1(b: bv8): bv32 { var p := SubByte(b); BytesToWord(F3(p), F2(p), p, p) }
  function T2(b: bv8): bv32 { var p := SubByte(b); BytesToWord(p, F3(p), F2(p), p) }
  function T3(b: bv8): bv32 { var p := SubByte(b); BytesToWord(p, p, F3(p), F2(p)) }

  /** One output word of the round macro, from the words its four table lookups read. */
  function RoundWord(k: bv32, x0: bv32, x1: bv32, x2: bv32, x3: bv32): bv32 {
    XorWords(k, XorWords(XorWords(XorWords(T0(ByteOfWord(x0, 0)), T1(ByteOfWord(x1, 1))), T2(ByteOfWord(x2, 2))), T3(ByteOfWord(x3, 3))))
  }

  // Bytes of words.

  lemma BytesOfBuiltWord(b0: bv8, b1: bv8, b2: bv8, b3: bv8)
    ensures var w := BytesToWord(b0, b1, b2, b3);
            ByteOfWord(w, 0) == b0 && ByteOfWord(w, 1) == b1 && ByteOfWord(w, 2) == b2 && ByteOfWord(w, 3) == b3
  {
  }

  lemma ByteOfXor(x: bv32, y: bv32, j: nat)
    requires j < 4
    ensures ByteOfWord(XorWords(x, y), j) == Xor(ByteOfWord(x, j), ByteOfWord(y, j))
  {
    if j == 0 { LowBits(x, y); }
    else if j == 1 { LowBits(x >> 8, y >> 8); }
    else if j == 2 { LowBits(x >> 16, y >> 16); }
    else { TopBits(x, y); }
  }

  lemma LowBits(x: bv32, y: bv32)
    ensures ((x ^ y) & 0xff) as bv8 == (x & 0xff) as bv8 ^ (y & 0xff) as bv8
  {
  }

  lemma TopBits(x: bv32, y: bv32)
    ensures ((x ^ y) >> 24) as bv8 == (x >> 24) as bv8 ^ (y >> 24) as bv8
  {
  }

  lemma ByteOfRoundWord(k: bv32, x0: bv32, x1: bv32, x2: bv32, x3: bv32, j: nat)
    requires j < 4
    ensures ByteOfWord(RoundWord(k, x0, x1, x2, x3), j) ==
            Xor(ByteOfWord(k, j),
                Xor4(ByteOfWord(T0(ByteOfWord(x0, 0)), j), ByteOfWord(T1(ByteOfWord(x1, 1)), j),
                     ByteOfWord(T2(ByteOfWord(x2, 2)), j), ByteOfWord(T3(ByteOfWord(x3, 3)), j)))
  {
    hide ByteOfWord, XorWords, Xor, T0, T1, T2, T3;
    var t0, t1, t2, t3 := T0(ByteOfWord(x0, 0)), T1(ByteOfWord(x1, 1)), T2(ByteOfWord(x2, 2)), T3(ByteOfWord(x3, 3));
    ByteOfXor(k, XorWords(XorWords(XorWords(t0, t1), t2), t3), j);
    ByteOfXor(XorWords(XorWords(t0, t1), t2), t3, j);
    ByteOfXor(XorWords(t0, t1), t2, j);
    ByteOfXor(t0, t1, j);
  }

  /** The bytes of a table entry are {02}, {01}, {01} and {03} times the substituted byte, turned by the table's number. */
  lemma TableBytes(b: bv8)
    ensures var p := SubByte(b); var d := Double(p); var t := Xor(Double(p), p);
            && ByteOfWord(T0(b), 0) == d && ByteOfWord(T0(b), 1) == p && ByteOfWord(T0(b), 2) == p && ByteOfWord(T0(b), 3) == t
            && ByteOfWord(T1(b), 0) == t && ByteOfWord(T1(b), 1) == d && ByteOfWord(T1(b), 2) == p && ByteOfWord(T1(b), 3) == p
            && ByteOfWord(T2(b), 0) == p && ByteOfWord(T2(b), 1) == t && ByteOfWord(T2(b), 2) == d && ByteOfWord(T2(b), 3) == p
            && ByteOfWord(T3(b), 0) == p && ByteOfWord(T3(b), 1) == p && ByteOfWord(T3(b), 2) == t && ByteOfWord(T3(b), 3) == d
  {
    hide ByteOfWord, BytesToWord, SubByte, Double, Xor, F2;
    var p := SubByte(b);
    F2Doubles(p);
    BytesOfBuiltWord(F2(p), p, p, F3(p));
    BytesOfBuiltWord(F3(p), F2(p), p, p);
    BytesOfBuiltWord(p, F3(p), F2(p), p);
    BytesOfBuiltWord(p, p, F3(p), F2(p));
  }

  /** The four bytes of an output word are a mixed column plus the key. */
  lemma RoundWordMixes(k: bv32, x0: bv32, x1: bv32, x2: bv32, x3: bv32)
    ensures var a, b, c, d := SubByte(ByteOfWord(x0, 0)), SubByte(ByteOfWord(x1, 1)), SubByte(ByteOfWord(x2, 2)), SubByte(ByteOfWord(x3, 3));
            var y := RoundWord(k, x0, x1, x2, x3);
            && ByteOfWord(y, 0) == Xor(Mixed(a, b, c, d), ByteOfWord(k, 0))
            && ByteOfWord(y, 1) == Xor(Mixed(b, c, d, a), ByteOfWord(k, 1))
            && ByteOfWord(y, 2) == Xor(Mixed(c, d, a, b), ByteOfWord(k, 2))
            && ByteOfWord(y, 3) == Xor(Mixed(d, a, b, c), ByteOfWord(k, 3))
  {
    hide ByteOfWord, RoundWord, SubByte, Double, Xor, Xor4, Mixed, T0, T1, T2, T3;
    var a, b, c, d := SubByte(ByteOfWord(x0, 0)), SubByte(ByteOfWord(x1, 1)), SubByte(ByteOfWord(x2, 2)), SubByte(ByteOfWord(x3, 3));
    TableBytes(ByteOfWord(x0, 0));
    TableBytes(ByteOfWord(x1, 1));
    TableBytes(ByteOfWord(x2, 2));
    TableBytes(ByteOfWord(x3, 3));
    var a2, b2, c2, d2 := Double(a), Double(b), Double(c), Double(d);
    MixedAsFour(a, b, c, d);
    MixedAsFour(b, c, d, a);
    MixedAsFour(c, d, a, b);
    MixedAsFour(d, a, b, c);
    forall j | 0 <= j < 4
      ensures ByteOfWord(RoundWord(k, x0, x1, x2, x3), j) ==
              Xor(Xor4(ByteOfWord(T0(ByteOfWord(x0, 0)), j), ByteOfWord(T1(ByteOfWord(x1, 1)), j),
                       ByteOfWord(T2(ByteOfWord(x2, 2)), j), ByteOfWord(T3(ByteOfWord(x3, 3)), j)), ByteOfWord(k, j))
    {
      ByteOfRoundWord(k, x0, x1, x2, x3, j);
      Commutes(ByteOfWord(k, j), Xor4(ByteOfWord(T0(ByteOfWord(x0, 0)), j), ByteOfWord(T1(ByteOfWord(x1, 1)), j),
                                      ByteOfWord(T2(ByteOfWord(x2, 2)), j), ByteOfWord(T3(ByteOfWord(x3, 3)), j)));
    }
    // byte 1: a + {02}b + {03}c + d, and so on
    Rotated(a, b2, Xor(c2, c), d);
    Rotated(a, b, c2, Xor(d2, d));
    Rotated(b, c2, Xor(d2, d), a);
    Rotated(d2, Xor(a2, a), b, c);
  }

  lemma MixedAsFour(a: bv8, b: bv8, c: bv8, d: bv8)
    ensures Mixed(a, b, c, d) == Xor4(Double(a), Xor(Double(b), b), c, d)
  {
    hide Double, Xor;
    Associates(Double(a), Double(b), b);
  }

  /** The round macro: the words of the next state. */
  function RoundWords(x: Words, k: Words): Words {
    [RoundWord(k[0], x[0], x[1], x[2], x[3]),
     RoundWord(k[1], x[1], x[2], x[3], x[0]),
     RoundWord(k[2], x[2], x[3], x[0], x[1]),
     RoundWord(k[3], x[3], x[0], x[1], x[2])]
  }

  lemma MixedColumn(t: Block, c: nat)
    requires c < 4
    ensures var m := MixColumns(t); var a, b, d, e := t[4 * c], t[4 * c + 1], t[4 * c + 2], t[4 * c + 3];
            && m[4 * c] == Mixed(a, b, d, e) && m[4 * c + 1] == Mixed(b, d, e, a)
            && m[4 * c + 2] == Mixed(d, e, a, b) && m[4 * c + 3] == Mixed(e, a, b, d)
  {
    hide Mixed, MixColumns;
    MixColumnsList(t);
    if c == 0 {} else if c == 1 {} else if c == 2 {} else {}
  }

  lemma ShiftedAt(s: Block, c: nat, r: nat)
    requires c < 4 && r < 4
    ensures ShiftRows(SubBytes(s))[4 * c + r] == SubByte(s[4 * (if c + r < 4 then c + r else c + r - 4) + r])
  {
    hide SubByte;
  }

  lemma ByteInWord(x: Words, c: nat, r: nat)
    requires c < 4 && r < 4
    ensures BytesOf(x)[4 * c + r] == ByteOfWord(x[c], r)
  {
    hide ByteOfWord;
  }

  function Next(x: Words, c: nat, n: nat): bv32
    requires c < 4 && n < 4
  {
    x[if c + n < 4 then c + n else c + n - 4]
  }

  function ColumnWord(x: Words, k: Words, c: nat): bv32
    requires c < 4
  {
    RoundWord(k[c], Next(x, c, 0), Next(x, c, 1), Next(x, c, 2), Next(x, c, 3))
  }

  lemma RoundColumns(x: Words, k: Words, c: nat)
    requires c < 4
    ensures RoundWords(x, k)[c] == ColumnWord(x, k, c)
  {
    hide RoundWord;
    if c == 0 { } else if c == 1 { } else if c == 2 { } else { }
  }

  lemma Diagonal(x: Words, c: nat, r: nat)
    requires c < 4 && r < 4
    ensures ShiftRows(SubBytes(BytesOf(x)))[4 * c + r] == SubByte(ByteOfWord(Next(x, c, r), r))
  {
    hide SubByte, BytesOf, ByteOfWord, ShiftRows, SubBytes;
    ShiftedAt(BytesOf(x), c, r);
    ByteInWord(x, if c + r < 4 then c + r else c + r - 4, r);
  }

  /** Column c of the round, which comes from the diagonal of the block that ShiftRows turns into that column. */
  lemma ColumnOfRound(x: Words, k: Words, c: nat)
    requires c < 4
    ensures var y, z := ColumnWord(x, k, c), Round(BytesOf(x), BytesOf(k));
            && ByteOfWord(y, 0) == z[4 * c] && ByteOfWord(y, 1) == z[4 * c + 1]
            && ByteOfWord(y, 2) == z[4 * c + 2] && ByteOfWord(y, 3) == z[4 * c + 3]
  {
    hide ByteOfWord, RoundWord, SubByte, SubBytes, ShiftRows, MixColumns, BytesOf, Next, Xor, Mixed;
    Diagonal(x, c, 0);
    Diagonal(x, c, 1);
    Diagonal(x, c, 2);
    Diagonal(x, c, 3);
    ByteInWord(k, c, 0);
    ByteInWord(k, c, 1);
    ByteInWord(k, c, 2);
    ByteInWord(k, c, 3);
    MixedColumn(ShiftRows(SubBytes(BytesOf(x))), c);
    RoundWordMixes(k[c], Next(x, c, 0), Next(x, c, 1), Next(x, c, 2), Next(x, c, 3));
  }

  lemma RoundByWords(x: Words, k: Words)
    ensures BytesOf(RoundWords(x, k)) == Round(BytesOf(x), BytesOf(k))
  {
    hide ByteOfWord, RoundWords, ColumnWord, Round;
    forall i | 0 <= i < 16 ensures BytesOf(RoundWords(x, k))[i] == Round(BytesOf(x), BytesOf(k))[i] {
      RoundColumns(x, k, i / 4);
      ColumnOfRound(x, k, i / 4);
    }
  }

  // The program's two functions, on buffers seen as 32-bit words.

  /** The round macro reads all of x for every word of y, so the two must be different buffers. */
  method RoundInto(y: array<bv32>, x: array<bv32>, key: array<bv32>, from: nat)
    requires y.Length == 4 && x.Length == 4 && from + 4 <= key.Length && y != x && y != key
    modifies y
    ensures BytesOf(y[..]) == Round(BytesOf(x[..]), BytesOf(key[from..from + 4]))
  {
    hide RoundWord, Round, BytesOf;
    ghost var words, k := x[..], key[from..from + 4];
    y[0] := RoundWord(key[from + 0], x[0], x[1], x[2], x[3]);
    y[1] := RoundWord(key[from + 1], x[1], x[2], x[3], x[0]);
    y[2] := RoundWord(key[from + 2], x[2], x[3], x[0], x[1]);
    y[3] := RoundWord(key[from + 3], x[3], x[0], x[1], x[2]);
    RoundByWords(words, k);
    assert y[..] == RoundWords(words, k);
  }

  method SingleRound(input: array<bv32>, output: array<bv32>, expandedKey: array<bv32>)
    requires input.Length == 4 && output.Length == 4 && expandedKey.Length >= 4
    requires output != input && output != expandedKey
    modifies output
    ensures BytesOf(output[..]) == Round(BytesOf(input[..]), BytesOf(expandedKey[..4]))
  {
    RoundInto(output, input, expandedKey, 0);
  }

  /** Ten rounds that go back and forth between val and a local buffer. */
  method PseudoRoundMut(val: array<bv32>, expandedKey: array<bv32>)
    requires val.Length == 4 && expandedKey.Length >= 40 && val != expandedKey
    modifies val
    ensures BytesOf(val[..]) == FullRounds(old(BytesOf(val[..])), BytesOf(expandedKey[..]), 10)
  {
    hide Round, BytesOf, FullRounds;
    ghost var s, k := BytesOf(val[..]), expandedKey[..];
    NoRounds(s, k);
    var b1 := new bv32[4];
    RoundInto(b1, val, expandedKey, 0);
    OneMoreRound(s, k, 0);
    RoundInto(val, b1, expandedKey, 4);
    OneMoreRound(s, k, 1);
    RoundInto(b1, val, expandedKey, 8);
    OneMoreRound(s, k, 2);
    RoundInto(val, b1, expandedKey, 12);
    OneMoreRound(s, k, 3);
    RoundInto(b1, val, expandedKey, 16);
    OneMoreRound(s, k, 4);
    RoundInto(val, b1, expandedKey, 20);
    OneMoreRound(s, k, 5);
    RoundInto(b1, val, expandedKey, 24);
    OneMoreRound(s, k, 6);
    RoundInto(val, b1, expandedKey, 28);
    OneMoreRound(s, k, 7);
    RoundInto(b1, val, expandedKey, 32);
    OneMoreRound(s, k, 8);
    RoundInto(val, b1, expandedKey, 36);
    OneMoreRound(s, k, 9);
  }

  lemma NoRounds(s: Block, k: seq<bv32>)
    ensures FullRounds(s, BytesOf(k), 0) == s
  {
  }

  lemma OneMoreRound(s: Block, k: seq<bv32>, n: nat)
    requires 4 * n + 4 <= |k|
    ensures FullRounds(s, BytesOf(k), n + 1) == Round(FullRounds(s, BytesOf(k), n), BytesOf(k[4 * n..4 * n + 4]))
  {
    hide Round, ByteOfWord;
    forall i | 0 <= i < 16 ensures RoundKey(BytesOf(k), n)[i] == BytesOf(k[4 * n..4 * n + 4])[i] {
      assert (16 * n + i) / 4 == 4 * n + i / 4 && (16 * n + i) % 4 == i % 4;
    }
    assert RoundKey(BytesOf(k), n) == BytesOf(k[4 * n..4 * n + 4]);
  }
}
