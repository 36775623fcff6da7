/** The messages of oaes_lib.c byte by byte, with the modes of NIST SP 800-38A as one pass over the text: what
    oaes_encrypt writes, and that oaes_decrypt accepts exactly such messages. */
module OaesFormat {
  import opened Aes
  import opened OaesMessages

  /** Section 6.1. */
  function Ecb(w: Bytes, nr: nat, p: Bytes): (d: Bytes)
    requires nr >= 1 && |w| == 16 * (nr + 1) && |p| % 16 == 0
    ensures |d| == |p|
    decreases |p|
  {
    if p == [] then [] else Cipher(p[..16], w, nr) + Ecb(w, nr, p[16..])
  }

  /** Section 6.2: each block is added to the cipher block before it. */
  function Cbc(w: Bytes, nr: nat, before: Block, p: Bytes): (d: Bytes)
    requires nr >= 1 && |w| == 16 * (nr + 1) && |p| % 16 == 0
    ensures |d| == |p|
    decreases |p|
  {
    if p == [] then []
    else
      var c := Cipher(XorBlocks(p[..16], before), w, nr);
      c + Cbc(w, nr, c, p[16..])
  }

  /** The bytes 1, 2, 3, ... up to a full block, or none. */
  function Filled(m: Bytes): (p: Bytes)
    ensures |p| % 16 == 0
  {
    m + seq((16 - |m| % 16) % 16, i requires 0 <= i < (16 - |m| % 16) % 16 => (i + 1) as bv8)
  }

  /** OAES, version 1, type 2, the mode, the padding mark, seven bytes that nobody reads, the IV and the cipher text. */
  function Message(w: Bytes, nr: nat, cbc: bool, iv: Block, unread: Bytes, m: Bytes): Bytes
    requires nr >= 1 && |w| == 16 * (nr + 1)
  {
    [0x4f, 0x41, 0x45, 0x53, 0x01, 0x02, if cbc then 0x02 else 0x01, 0x00, if |m| % 16 == 0 then 0x00 else 0x01]
    + unread + iv + (if cbc then Cbc(w, nr, iv, Filled(m)) else Ecb(w, nr, Filled(m)))
  }

  // Chaining block by block.

  lemma {:induction false} BlockMovesUp(w: Bytes, nr: nat, cbc: bool, iv: Block, p: Bytes, j: nat)
    requires nr >= 1 && |w| == 16 * (nr + 1) && 16 * j + 32 <= |p|
    ensures CipherBlock(w, nr, cbc, iv, p, j + 1) == CipherBlock(w, nr, cbc, CipherBlock(w, nr, cbc, iv, p, 0), p[16..], j)
  {
    hide Cipher, XorBlocks;
    assert BlockAt(p, j + 1) == BlockAt(p[16..], j);
    if j > 0 { BlockMovesUp(w, nr, cbc, iv, p, j - 1); }
  }

  lemma {:induction false} ModesAre(w: Bytes, nr: nat, cbc: bool, iv: Block, p: Bytes)
    requires nr >= 1 && |w| == 16 * (nr + 1) && |p| % 16 == 0
    ensures Enciphered(w, nr, cbc, iv, p) == if cbc then Cbc(w, nr, iv, p) else Ecb(w, nr, p)
    decreases |p|
  {
    hide Cipher, XorBlocks;
    if p != [] {
      var c := CipherBlock(w, nr, cbc, iv, p, 0);
      ModesAre(w, nr, cbc, c, p[16..]);
      FirstAndRest(w, nr, cbc, iv, p);
      assert BlockAt(p, 0) == p[..16];
    }
  }

  lemma FirstAndRest(w: Bytes, nr: nat, cbc: bool, iv: Block, p: Bytes)
    requires nr >= 1 && |w| == 16 * (nr + 1) && |p| % 16 == 0 && p != []
    ensures var c := CipherBlock(w, nr, cbc, iv, p, 0);
            Enciphered(w, nr, cbc, iv, p) == c + Enciphered(w, nr, cbc, c, p[16..])
  {
    hide Cipher, XorBlocks;
    var c: Block := CipherBlock(w, nr, cbc, iv, p, 0);
    hide CipherBlock;
    var all, rest := Enciphered(w, nr, cbc, iv, p), Enciphered(w, nr, cbc, c, p[16..]);
    var joined: Bytes := c[..] + rest;
    forall i | 0 <= i < |p| ensures all[i] == joined[i] {
      if i >= 16 {
        BlockMovesUp(w, nr, cbc, iv, p, i / 16 - 1);
        assert (i - 16) / 16 == i / 16 - 1 && (i - 16) % 16 == i % 16;
      }
    }
  }

  lemma FilledIs(m: Bytes)
    ensures Padded(m) == Filled(m) && (PadLength(|m|) > 0 <==> |m| % 16 != 0)
  {
  }

  /** What oaes_encrypt writes. */
  lemma SealedIsMessage(w: Bytes, nr: nat, options: bv16, iv: Block, m: Bytes)
    requires nr >= 1 && |w| == 16 * (nr + 1) && OptionsOk(options)
    ensures Sealed(w, nr, options, iv, m) == Message(w, nr, options == CBC, iv, [0, 0, 0, 0, 0, 0, 0], m)
  {
    hide Ecb, Cbc, Enciphered, Padded, Filled, PadLength;
    FilledIs(m);
    ModesAre(w, nr, options == CBC, iv, Padded(m));
    HeaderIs(options, if PadLength(|m|) > 0 then 1 else 0);
  }

  lemma HeaderIs(options: bv16, flags: bv8)
    requires OptionsOk(options)
    ensures (options & CBC != 0) == (options == CBC)
    ensures Header(options, flags) ==
            [0x4f, 0x41, 0x45, 0x53, 0x01, 0x02, if options == CBC then 0x02 else 0x01, 0x00, flags] + [0, 0, 0, 0, 0, 0, 0]
  {
    if options == CBC { assert options == 2; } else { assert options == 1; }
  }

  // What oaes_decrypt accepts.

  lemma EncipheredDeciphered(w: Bytes, nr: nat, cbc: bool, iv: Block, d: Bytes)
    requires nr >= 1 && |w| == 16 * (nr + 1) && |d| % 16 == 0
    ensures Enciphered(w, nr, cbc, iv, Deciphered(w, nr, cbc, iv, d)) == d
  {
    hide PlainBlock, CipherBlock, Deciphered;
    var p := Deciphered(w, nr, cbc, iv, d);
    forall i | 0 <= i < |d| ensures Enciphered(w, nr, cbc, iv, p)[i] == d[i] {
      CipherOfPlainBlock(w, nr, cbc, iv, d, i / 16);
      assert BlockAt(d, i / 16)[i % 16] == d[i];
    }
  }

  lemma PlainBlockIsThere(w: Bytes, nr: nat, cbc: bool, iv: Block, d: Bytes, j: nat)
    requires nr >= 1 && |w| == 16 * (nr + 1) && |d| % 16 == 0 && 16 * j + 16 <= |d|
    ensures BlockAt(Deciphered(w, nr, cbc, iv, d), j) == PlainBlock(w, nr, cbc, iv, d, j)
  {
    hide PlainBlock;
    var p := Deciphered(w, nr, cbc, iv, d);
    forall k | 0 <= k < 16 ensures BlockAt(p, j)[k] == PlainBlock(w, nr, cbc, iv, d, j)[k] {
      assert BlockAt(p, j)[k] == p[16 * j + k];
      assert (16 * j + k) / 16 == j && (16 * j + k) % 16 == k;
    }
  }

  lemma {:induction false} CipherOfPlainBlock(w: Bytes, nr: nat, cbc: bool, iv: Block, d: Bytes, j: nat)
    requires nr >= 1 && |w| == 16 * (nr + 1) && |d| % 16 == 0 && 16 * j + 16 <= |d|
    ensures CipherBlock(w, nr, cbc, iv, Deciphered(w, nr, cbc, iv, d), j) == BlockAt(d, j)
  {
    hide Cipher, InvCipher, XorBlocks, Deciphered;
    PlainBlockIsThere(w, nr, cbc, iv, d, j);
    InvCipherUndone(BlockAt(d, j), w, nr);
    if cbc {
      var before := if j == 0 then iv else BlockAt(d, j - 1);
      if j > 0 { CipherOfPlainBlock(w, nr, cbc, iv, d, j - 1); }
      XorBlocksTwice(InvCipher(BlockAt(d, j), w, nr), before);
    }
  }

  /** oaes_decrypt returns the text m for exactly the messages of m: for either mode and every IV. */
  lemma OpenedExactly(w: Bytes, nr: nat, c: Bytes, m: Bytes)
    requires nr >= 1 && |w| == 16 * (nr + 1) && |c| >= 32 && |c| % 16 == 0
    ensures Open(w, nr, c) == Opened(m) <==>
            exists cbc: bool, iv: Block, unread: Bytes :: |unread| == 7 && c == Message(w, nr, cbc, iv, unread, m)
  {
    hide Open, Message, Filled, OptionsOf, HeaderOk;
    if Open(w, nr, c) == Opened(m) {
      OpenedIsMessage(w, nr, c, m);
      assert |c[9..16]| == 7 && |c[16..32]| == 16;
    }
    if cbc: bool, iv: Block, unread: Bytes :| |unread| == 7 && c == Message(w, nr, cbc, iv, unread, m) {
      MessageOpened(w, nr, cbc, iv, unread, m);
    }
  }

  lemma MessageOpened(w: Bytes, nr: nat, cbc: bool, iv: Block, unread: Bytes, m: Bytes)
    requires nr >= 1 && |w| == 16 * (nr + 1) && |unread| == 7
    ensures var c := Message(w, nr, cbc, iv, unread, m); |c| >= 32 && |c| % 16 == 0 && Open(w, nr, c) == Opened(m)
  {
    hide Ecb, Cbc, Enciphered, Deciphered, Filled, Padded, PadLength, PadOk, NumberOf, HeaderOk, OptionsOf;
    var c := Message(w, nr, cbc, iv, unread, m);
    FilledIs(m);
    ModesAre(w, nr, cbc, iv, Padded(m));
    assert c[16..32] == iv && c[32..] == Enciphered(w, nr, cbc, iv, Padded(m));
    HeaderRead(c, cbc);
    DecipheredEnciphered(w, nr, cbc, iv, Padded(m));
    PaddingUndone(m);
  }

  lemma HeaderRead(c: Bytes, cbc: bool)
    requires |c| >= 16 && c[..8] == [0x4f, 0x41, 0x45, 0x53, 0x01, 0x02, if cbc then 0x02 else 0x01, 0x00] && (c[8] == 0 || c[8] == 1)
    ensures HeaderOk(c) && (OptionsOf(c) & CBC != 0) == cbc
  {
    assert c[0] == c[..8][0] && c[1] == c[..8][1] && c[2] == c[..8][2] && c[3] == c[..8][3];
    assert c[4] == c[..8][4] && c[5] == c[..8][5] && c[6] == c[..8][6] && c[7] == c[..8][7];
  }

  lemma HeaderAccepted(c: Bytes)
    requires |c| >= 16 && HeaderOk(c)
    ensures (c[8] == 0 || c[8] == 1)
    ensures c[..9] == [0x4f, 0x41, 0x45, 0x53, 0x01, 0x02, if OptionsOf(c) & CBC != 0 then 0x02 else 0x01, 0x00, c[8]]
  {
    OptionBytes(c[6], c[7]);
  }

  lemma OptionBytes(low: bv8, high: bv8)
    requires OptionsOk(OptionsFrom(low, high))
    ensures high == 0 && low == if OptionsFrom(low, high) & CBC != 0 then 0x02 else 0x01
  {
  }

  lemma OpenedIsMessage(w: Bytes, nr: nat, c: Bytes, m: Bytes)
    requires nr >= 1 && |w| == 16 * (nr + 1) && |c| >= 32 && |c| % 16 == 0 && Open(w, nr, c) == Opened(m)
    ensures c == Message(w, nr, OptionsOf(c) & CBC != 0, c[16..32], c[9..16], m)
  {
    hide Ecb, Cbc, Enciphered, Deciphered, Filled, PadLength, PadOk, NumberOf, HeaderOk, OptionsOf, Padded;
    var cbc, iv, d := OptionsOf(c) & CBC != 0, c[16..32], c[32..];
    var p := Deciphered(w, nr, cbc, iv, d);
    HeaderAccepted(c);
    EncipheredDeciphered(w, nr, cbc, iv, d);
    if c[8] == 0 { NoPadding(p); } else { PaddingWas(p); }
    FilledIs(m);
    ModesAre(w, nr, cbc, iv, Padded(m));
    assert c == c[..9] + c[9..16] + iv + d;
  }

  lemma NoPadding(p: Bytes)
    requires |p| % 16 == 0
    ensures Padded(p) == p
  {
  }

  lemma PaddingWas(p: Bytes)
    requires |p| % 16 == 0 && PadOk(p)
    ensures var m := p[..|p| - NumberOf(p[|p| - 1])]; Padded(m) == p && |m| % 16 != 0
  {
    var k := NumberOf(p[|p| - 1]);
    var m := p[..|p| - k];
    assert PadLength(|m|) == k;
    assert p == m + p[|p| - k..];
  }
}
