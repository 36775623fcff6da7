/** The block operations of oaes_lib.c, in place on byte arrays, against the transformations of FIPS 197. */
module OaesBlocks {
  import opened AesTables
  import opened AesField
  import opened Aes

  // The inverse steps work on sixteen bytes somewhere inside a longer buffer.

  ghost function View(a: array<bv8>, at: nat): Block
    requires at + 16 <= a.Length
    reads a
  {
    a[at..at + 16]
  }

  twostate predicate OnlyBlock(a: array<bv8>, new at: nat)
    reads a
  {
    forall k :: 0 <= k < a.Length && !(at <= k < at + 16) ==> a[k] == old(a[k])
  }

  method SubBytesInPlace(c: array<bv8>)
    requires c.Length == 16
    modifies c
    ensures c[..] == SubBytes(old(c[..]))
  {
    hide SubByte;
    for j := 0 to 16
      invariant forall k :: 0 <= k < j ==> c[k] == SubByte(old(c[k]))
      invariant forall k :: j <= k < 16 ==> c[k] == old(c[k])
    {
      c[j] := SubByte(c[j]);
    }
  }

  lemma ShiftRowsList(s: Block)
    ensures var t := ShiftRows(s);
            && t[0] == s[0] && t[1] == s[5] && t[2] == s[10] && t[3] == s[15]
            && t[4] == s[4] && t[5] == s[9] && t[6] == s[14] && t[7] == s[3]
            && t[8] == s[8] && t[9] == s[13] && t[10] == s[2] && t[11] == s[7]
            && t[12] == s[12] && t[13] == s[1] && t[14] == s[6] && t[15] == s[11]
  {
  }

  lemma InvShiftRowsList(s: Block)
    ensures var t := InvShiftRows(s);
            && t[0] == s[0] && t[1] == s[13] && t[2] == s[10] && t[3] == s[7]
            && t[4] == s[4] && t[5] == s[1] && t[6] == s[14] && t[7] == s[11]
            && t[8] == s[8] && t[9] == s[5] && t[10] == s[2] && t[11] == s[15]
            && t[12] == s[12] && t[13] == s[9] && t[14] == s[6] && t[15] == s[3]
  {
  }

  lemma AllSixteen(s: Block, t: Block)
    requires s[0] == t[0] && s[1] == t[1] && s[2] == t[2] && s[3] == t[3]
    requires s[4] == t[4] && s[5] == t[5] && s[6] == t[6] && s[7] == t[7]
    requires s[8] == t[8] && s[9] == t[9] && s[10] == t[10] && s[11] == t[11]
    requires s[12] == t[12] && s[13] == t[13] && s[14] == t[14] && s[15] == t[15]
    ensures s == t
  {
    assert forall k :: 0 <= k < 16 ==> s[k] == t[k];
  }

  method ShiftRowsInPlace(block: array<bv8>)
    requires block.Length == 16
    modifies block
    ensures block[..] == ShiftRows(old(block[..]))
  {
    hide ShiftRows;
    ghost var rows := ShiftRows(block[..]);
    ShiftRowsList(block[..]);
    var t0, t1, t2, t3, t4 := block[0x03], block[0x02], block[0x01], block[0x06], block[0x0b];
    block[0x0b] := block[0x07];
    block[0x01] := block[0x05];
    block[0x02] := block[0x0a];
    block[0x03] := block[0x0f];
    block[0x05] := block[0x09];
    block[0x06] := block[0x0e];
    block[0x07] := t0;
    block[0x09] := block[0x0d];
    block[0x0a] := t1;
    block[0x0d] := t2;
    block[0x0e] := t3;
    block[0x0f] := t4;
    AllSixteen(block[..], rows);
  }

  method InvShiftRowsInPlace(m: array<bv8>, at: nat)
    requires at + 16 <= m.Length
    modifies m
    ensures View(m, at) == InvShiftRows(old(View(m, at)))
    ensures OnlyBlock(m, at)
  {
    hide InvShiftRows;
    ghost var was := View(m, at);
    InvShiftRowsList(was);
    var temp: Block := [
      m[at + 0x00], m[at + 0x0d], m[at + 0x0a], m[at + 0x07],
      m[at + 0x04], m[at + 0x01], m[at + 0x0e], m[at + 0x0b],
      m[at + 0x08], m[at + 0x05], m[at + 0x02], m[at + 0x0f],
      m[at + 0x0c], m[at + 0x09], m[at + 0x06], m[at + 0x03]];
    AllSixteen(temp, InvShiftRows(was));
    PutBlock(m, at, temp);
  }

  method PutBlock(m: array<bv8>, at: nat, b: Block)
    requires at + 16 <= m.Length
    modifies m
    ensures View(m, at) == b
    ensures OnlyBlock(m, at)
  {
    forall k | 0 <= k < 16 { m[at + k] := b[k]; }
  }

  method InvSubBytesInPlace(m: array<bv8>, at: nat)
    requires at + 16 <= m.Length
    modifies m
    ensures View(m, at) == InvSubBytes(old(View(m, at)))
    ensures OnlyBlock(m, at)
  {
    hide InvSubByte;
    ghost var was := View(m, at);
    for j := 0 to 16
      invariant forall k :: 0 <= k < j ==> m[at + k] == InvSubByte(was[k])
      invariant forall k :: j <= k < 16 ==> m[at + k] == was[k]
      invariant OnlyBlock(m, at)
    {
      m[at + j] := InvSubByte(m[at + j]);
    }
  }

  /** Adds the sixteen bytes of key at from to the sixteen bytes of m at at. */
  method AddRoundKey(m: array<bv8>, at: nat, key: array<bv8>, from: nat)
    requires at + 16 <= m.Length && from + 16 <= key.Length && m != key
    modifies m
    ensures View(m, at) == XorBlocks(old(View(m, at)), View(key, from))
    ensures OnlyBlock(m, at)
  {
    hide Xor;
    ghost var was := View(m, at);
    for j := 0 to 16
      invariant forall k :: 0 <= k < j ==> m[at + k] == Xor(was[k], key[from + k])
      invariant forall k :: j <= k < 16 ==> m[at + k] == was[k]
      invariant OnlyBlock(m, at)
    {
      m[at + j] := Xor(m[at + j], key[from + j]);
    }
  }

  /** Table lookup by the multiplier; any other multiplier leaves the byte alone. */
  function GfMul(left: bv8, right: bv8): bv8 {
    if right == 0x02 then Mul2(left)
    else if right == 0x03 then Mul3(left)
    else if right == 0x09 then Mul9(left)
    else if right == 0x0b then MulB(left)
    else if right == 0x0d then MulD(left)
    else if right == 0x0e then MulE(left)
    else left
  }

  lemma GfMulMultiplies(x: bv8)
    ensures GfMul(x, 0x02) == Double(x) && GfMul(x, 0x03) == Xor(Double(x), x)
    ensures GfMul(x, 0x09) == Times9(x) && GfMul(x, 0x0b) == TimesB(x)
    ensures GfMul(x, 0x0d) == TimesD(x) && GfMul(x, 0x0e) == TimesE(x)
  {
    hide Mul2, Mul3, Mul9, MulB, MulD, MulE, Double, Xor, Times9, TimesB, TimesD, TimesE;
    Table2(x);
    Table3(x);
    Table9(x);
    TableB(x);
    TableD(x);
    TableE(x);
  }

  lemma MixedByTables(a: bv8, b: bv8, c: bv8, d: bv8)
    ensures Xor4(GfMul(a, 0x02), GfMul(b, 0x03), c, d) == Mixed(a, b, c, d)
  {
    hide GfMul, Double, Xor;
    GfMulMultiplies(a);
    GfMulMultiplies(b);
    Associates(Double(a), Double(b), b);
  }

  lemma UnmixedByTables(a: bv8, b: bv8, c: bv8, d: bv8)
    ensures Xor4(GfMul(a, 0x0e), GfMul(b, 0x0b), GfMul(c, 0x0d), GfMul(d, 0x09)) == Unmixed(a, b, c, d)
  {
    hide GfMul, Double, Xor, Times9, TimesB, TimesD, TimesE;
    GfMulMultiplies(a);
    GfMulMultiplies(b);
    GfMulMultiplies(c);
    GfMulMultiplies(d);
  }

  /** One column of MixColumns. */
  method MixCols(m: array<bv8>, at: nat)
    requires at + 4 <= m.Length
    modifies m
    ensures var a, b, c, d := old(m[at]), old(m[at + 1]), old(m[at + 2]), old(m[at + 3]);
            && m[at] == Mixed(a, b, c, d) && m[at + 1] == Mixed(b, c, d, a)
            && m[at + 2] == Mixed(c, d, a, b) && m[at + 3] == Mixed(d, a, b, c)
    ensures forall k :: 0 <= k < m.Length && !(at <= k < at + 4) ==> m[k] == old(m[k])
  {
    hide GfMul, Xor, Xor4, Mixed;
    var a, b, c, d := m[at], m[at + 1], m[at + 2], m[at + 3];
    var t0 := Xor4(GfMul(a, 0x02), GfMul(b, 0x03), c, d);
    var t1 := Xor4(a, GfMul(b, 0x02), GfMul(c, 0x03), d);
    var t2 := Xor4(a, b, GfMul(c, 0x02), GfMul(d, 0x03));
    var t3 := Xor4(GfMul(a, 0x03), b, c, GfMul(d, 0x02));
    MixedByTables(a, b, c, d);
    MixedByTables(b, c, d, a);
    MixedByTables(c, d, a, b);
    MixedByTables(d, a, b, c);
    Rotated(a, GfMul(b, 0x02), GfMul(c, 0x03), d);
    Rotated(a, b, GfMul(c, 0x02), GfMul(d, 0x03));
    Rotated(b, GfMul(c, 0x02), GfMul(d, 0x03), a);
    Rotated(GfMul(d, 0x02), GfMul(a, 0x03), b, c);
    m[at], m[at + 1], m[at + 2], m[at + 3] := t0, t1, t2, t3;
  }

  /** One column of InvMixColumns. */
  method InvMixCols(m: array<bv8>, at: nat)
    requires at + 4 <= m.Length
    modifies m
    ensures var a, b, c, d := old(m[at]), old(m[at + 1]), old(m[at + 2]), old(m[at + 3]);
            && m[at] == Unmixed(a, b, c, d) && m[at + 1] == Unmixed(b, c, d, a)
            && m[at + 2] == Unmixed(c, d, a, b) && m[at + 3] == Unmixed(d, a, b, c)
    ensures forall k :: 0 <= k < m.Length && !(at <= k < at + 4) ==> m[k] == old(m[k])
  {
    hide GfMul, Xor, Xor4, Unmixed;
    var a, b, c, d := m[at], m[at + 1], m[at + 2], m[at + 3];
    var t0 := Xor4(GfMul(a, 0x0e), GfMul(b, 0x0b), GfMul(c, 0x0d), GfMul(d, 0x09));
    var t1 := Xor4(GfMul(a, 0x09), GfMul(b, 0x0e), GfMul(c, 0x0b), GfMul(d, 0x0d));
    var t2 := Xor4(GfMul(a, 0x0d), GfMul(b, 0x09), GfMul(c, 0x0e), GfMul(d, 0x0b));
    var t3 := Xor4(GfMul(a, 0x0b), GfMul(b, 0x0d), GfMul(c, 0x09), GfMul(d, 0x0e));
    UnmixedByTables(a, b, c, d);
    UnmixedByTables(b, c, d, a);
    UnmixedByTables(c, d, a, b);
    UnmixedByTables(d, a, b, c);
    Rotated(GfMul(a, 0x09), GfMul(b, 0x0e), GfMul(c, 0x0b), GfMul(d, 0x0d));
    Rotated(GfMul(a, 0x0d), GfMul(b, 0x09), GfMul(c, 0x0e), GfMul(d, 0x0b));
    Rotated(GfMul(b, 0x09), GfMul(c, 0x0e), GfMul(d, 0x0b), GfMul(a, 0x0d));
    Rotated(GfMul(d, 0x0e), GfMul(a, 0x0b), GfMul(b, 0x0d), GfMul(c, 0x09));
    m[at], m[at + 1], m[at + 2], m[at + 3] := t0, t1, t2, t3;
  }

  lemma MixColumnsList(s: Block)
    ensures var t := MixColumns(s);
            && t[0] == Mixed(s[0], s[1], s[2], s[3])
            && t[1] == Mixed(s[1], s[2], s[3], s[0])
            && t[2] == Mixed(s[2], s[3], s[0], s[1])
            && t[3] == Mixed(s[3], s[0], s[1], s[2])
            && t[4] == Mixed(s[4], s[5], s[6], s[7])
            && t[5] == Mixed(s[5], s[6], s[7], s[4])
            && t[6] == Mixed(s[6], s[7], s[4], s[5])
            && t[7] == Mixed(s[7], s[4], s[5], s[6])
            && t[8] == Mixed(s[8], s[9], s[10], s[11])
            && t[9] == Mixed(s[9], s[10], s[11], s[8])
            && t[10] == Mixed(s[10], s[11], s[8], s[9])
            && t[11] == Mixed(s[11], s[8], s[9], s[10])
            && t[12] == Mixed(s[12], s[13], s[14], s[15])
            && t[13] == Mixed(s[13], s[14], s[15], s[12])
            && t[14] == Mixed(s[14], s[15], s[12], s[13])
            && t[15] == Mixed(s[15], s[12], s[13], s[14])
  {
    hide Mixed;
  }

  lemma InvMixColumnsList(s: Block)
    ensures var t := InvMixColumns(s);
            && t[0] == Unmixed(s[0], s[1], s[2], s[3])
            && t[1] == Unmixed(s[1], s[2], s[3], s[0])
            && t[2] == Unmixed(s[2], s[3], s[0], s[1])
            && t[3] == Unmixed(s[3], s[0], s[1], s[2])
            && t[4] == Unmixed(s[4], s[5], s[6], s[7])
            && t[5] == Unmixed(s[5], s[6], s[7], s[4])
            && t[6] == Unmixed(s[6], s[7], s[4], s[5])
            && t[7] == Unmixed(s[7], s[4], s[5], s[6])
            && t[8] == Unmixed(s[8], s[9], s[10], s[11])
            && t[9] == Unmixed(s[9], s[10], s[11], s[8])
            && t[10] == Unmixed(s[10], s[11], s[8], s[9])
            && t[11] == Unmixed(s[11], s[8], s[9], s[10])
            && t[12] == Unmixed(s[12], s[13], s[14], s[15])
            && t[13] == Unmixed(s[13], s[14], s[15], s[12])
            && t[14] == Unmixed(s[14], s[15], s[12], s[13])
            && t[15] == Unmixed(s[15], s[12], s[13], s[14])
  {
    hide Unmixed;
  }

  method MixColumnsInPlace(c: array<bv8>)
    requires c.Length == 16
    modifies c
    ensures c[..] == MixColumns(old(c[..]))
  {
    hide Mixed, MixColumns;
    ghost var rows := MixColumns(c[..]);
    MixColumnsList(c[..]);
    MixCols(c, 0);
    MixCols(c, 4);
    MixCols(c, 8);
    MixCols(c, 12);
    AllSixteen(c[..], rows);
  }

  method InvMixColumnsInPlace(m: array<bv8>, at: nat)
    requires at + 16 <= m.Length
    modifies m
    ensures View(m, at) == InvMixColumns(old(View(m, at)))
    ensures OnlyBlock(m, at)
  {
    hide Unmixed, InvMixColumns;
    ghost var rows := InvMixColumns(View(m, at));
    InvMixColumnsList(View(m, at));
    InvMixCols(m, at);
    InvMixCols(m, at + 4);
    InvMixCols(m, at + 8);
    InvMixCols(m, at + 12);
    AllSixteen(View(m, at), rows);
  }
}
