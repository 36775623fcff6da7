/** Whole messages of oaes_lib.c: header, chaining and padding (section 6 of NIST SP 800-38A), and the proof that
    oaes_decrypt undoes oaes_encrypt. */
module OaesMessages {
  import opened Aes
  import opened OaesBlocks
  import opened OaesLib

  // What a sealed message is.

  const ECB: bv16 := 1
  const CBC: bv16 := 2

  predicate OptionsOk(options: bv16) { options == ECB || options == CBC }

  function PadLength(n: nat): (k: nat)
    ensures k < 16 && (n + k) % 16 == 0
  {
    if n % 16 == 0 then 0 else 16 - n % 16
  }

  function ByteOf(k: nat): bv8
    requires k < 16
  {
    k as bv8
  }

  function NumberOf(b: bv8): nat { b as nat }

  lemma BytesAndNumbers(b: bv8, k: nat)
    requires k < 16
    ensures b == ByteOf(k) <==> NumberOf(b) == k
  {
  }

  /** The bytes 1, 2, ..., k. */
  function Pad(k: nat): (p: Bytes)
    requires k < 16
    ensures |p| == k
  {
    seq(k, i requires 0 <= i < k => ByteOf(i + 1))
  }

  function Padded(m: Bytes): (p: Bytes)
    ensures |p| % 16 == 0
  {
    m + Pad(PadLength(|m|))
  }

  function BlockAt(p: Bytes, j: nat): Block
    requires 16 * j + 16 <= |p|
  {
    p[16 * j..16 * j + 16]
  }

  /** Cipher block j: in CBC each plain block is first added to the cipher block before it, or to the IV. */
  function CipherBlock(w: Bytes, nr: nat, cbc: bool, iv: Block, p: Bytes, j: nat): Block
    requires nr >= 1 && |w| == 16 * (nr + 1) && 16 * j + 16 <= |p|
  {
    if !cbc then Cipher(BlockAt(p, j), w, nr)
    else Cipher(XorBlocks(BlockAt(p, j), if j == 0 then iv else CipherBlock(w, nr, cbc, iv, p, j - 1)), w, nr)
  }

  /** Plain block j of cipher text d. */
  function PlainBlock(w: Bytes, nr: nat, cbc: bool, iv: Block, d: Bytes, j: nat): Block
    requires nr >= 1 && |w| == 16 * (nr + 1) && 16 * j + 16 <= |d|
  {
    var b := InvCipher(BlockAt(d, j), w, nr);
    if cbc then XorBlocks(b, if j == 0 then iv else BlockAt(d, j - 1)) else b
  }

  function Enciphered(w: Bytes, nr: nat, cbc: bool, iv: Block, p: Bytes): (d: Bytes)
    requires nr >= 1 && |w| == 16 * (nr + 1) && |p| % 16 == 0
    ensures |d| == |p|
  {
    seq(|p|, i requires 0 <= i < |p| => CipherBlock(w, nr, cbc, iv, p, i / 16)[i % 16])
  }

  function Deciphered(w: Bytes, nr: nat, cbc: bool, iv: Block, d: Bytes): (p: Bytes)
    requires nr >= 1 && |w| == 16 * (nr + 1) && |d| % 16 == 0
    ensures |p| == |d|
  {
    seq(|d|, i requires 0 <= i < |d| => PlainBlock(w, nr, cbc, iv, d, i / 16)[i % 16])
  }

  function Header(options: bv16, flags: bv8): Block {
    [0x4f, 0x41, 0x45, 0x53, 0x01, 0x02, (options & 0xff) as bv8, (options >> 8) as bv8,
     flags, 0, 0, 0, 0, 0, 0, 0]
  }

  /** The whole message that oaes_encrypt writes. */
  function Sealed(w: Bytes, nr: nat, options: bv16, iv: Block, m: Bytes): Bytes
    requires nr >= 1 && |w| == 16 * (nr + 1)
  {
    Header(options, if PadLength(|m|) > 0 then 1 else 0) + iv + Enciphered(w, nr, options & CBC != 0, iv, Padded(m))
  }

  // What oaes_decrypt makes of a message.

  datatype Opening = Refused | Opened(text: Bytes)

  function OptionsOf(c: Bytes): bv16
    requires |c| >= 16
  {
    OptionsFrom(c[6], c[7])
  }

  /** A little-endian 16-bit number. */
  function OptionsFrom(low: bv8, high: bv8): bv16 { low as bv16 | (high as bv16 << 8) }

  predicate HeaderOk(c: Bytes)
    requires |c| >= 16
  {
    && c[0] == 0x4f && c[1] == 0x41 && c[2] == 0x45 && c[3] == 0x53
    && c[4] == 0x01 && c[5] == 0x02
    && OptionsOk(OptionsOf(c))
    && (c[8] == 0 || c[8] == 1)
  }

  /** The text ends in the bytes 1, 2, ..., k, for the k that its last byte names. */
  predicate PadOk(p: Bytes) {
    |p| > 0 && var k := NumberOf(p[|p| - 1]); 1 <= k <= 15 && k <= |p| && p[|p| - k..] == Pad(k)
  }

  function Open(w: Bytes, nr: nat, c: Bytes): Opening
    requires nr >= 1 && |w| == 16 * (nr + 1) && |c| >= 32 && |c| % 16 == 0
  {
    if !HeaderOk(c) then Refused
    else
      var p := Deciphered(w, nr, OptionsOf(c) & CBC != 0, c[16..32], c[32..]);
      if c[8] == 0 then Opened(p)
      else if PadOk(p) then Opened(p[..|p| - NumberOf(p[|p| - 1])])
      else Refused
  }

  // Decryption undoes encryption.

  lemma PlainOfCipherBlock(w: Bytes, nr: nat, cbc: bool, iv: Block, p: Bytes, j: nat)
    requires nr >= 1 && |w| == 16 * (nr + 1) && |p| % 16 == 0 && 16 * j + 16 <= |p|
    ensures PlainBlock(w, nr, cbc, iv, Enciphered(w, nr, cbc, iv, p), j) == BlockAt(p, j)
  {
    hide Cipher, InvCipher, XorBlocks, Enciphered;
    CipherBlockIsThere(w, nr, cbc, iv, p, j);
    if !cbc {
      CipherUndone(BlockAt(p, j), w, nr);
    } else {
      var before := if j == 0 then iv else CipherBlock(w, nr, cbc, iv, p, j - 1);
      if j > 0 { CipherBlockIsThere(w, nr, cbc, iv, p, j - 1); }
      CipherUndone(XorBlocks(BlockAt(p, j), before), w, nr);
      XorBlocksTwice(BlockAt(p, j), before);
    }
  }

  lemma CipherBlockIsThere(w: Bytes, nr: nat, cbc: bool, iv: Block, p: Bytes, j: nat)
    requires nr >= 1 && |w| == 16 * (nr + 1) && |p| % 16 == 0 && 16 * j + 16 <= |p|
    ensures BlockAt(Enciphered(w, nr, cbc, iv, p), j) == CipherBlock(w, nr, cbc, iv, p, j)
  {
    hide CipherBlock;
    var d := Enciphered(w, nr, cbc, iv, p);
    forall k | 0 <= k < 16 ensures BlockAt(d, j)[k] == CipherBlock(w, nr, cbc, iv, p, j)[k] {
      assert BlockAt(d, j)[k] == d[16 * j + k];
      assert (16 * j + k) / 16 == j && (16 * j + k) % 16 == k;
    }
  }

  lemma DecipheredEnciphered(w: Bytes, nr: nat, cbc: bool, iv: Block, p: Bytes)
    requires nr >= 1 && |w| == 16 * (nr + 1) && |p| % 16 == 0
    ensures Deciphered(w, nr, cbc, iv, Enciphered(w, nr, cbc, iv, p)) == p
  {
    hide PlainBlock, Enciphered;
    var d := Enciphered(w, nr, cbc, iv, p);
    forall i | 0 <= i < |p| ensures Deciphered(w, nr, cbc, iv, d)[i] == p[i] {
      PlainOfCipherBlock(w, nr, cbc, iv, p, i / 16);
      assert BlockAt(p, i / 16)[i % 16] == p[i];
    }
  }

  lemma HeaderReadBack(options: bv16, flags: bv8)
    requires OptionsOk(options) && (flags == 0 || flags == 1)
    ensures HeaderOk(Header(options, flags)) && OptionsOf(Header(options, flags)) == options
  {
    if options == ECB {
      assert Header(options, flags)[6] == 1 && Header(options, flags)[7] == 0;
    } else {
      assert Header(options, flags)[6] == 2 && Header(options, flags)[7] == 0;
    }
  }

  lemma OpenSealed(w: Bytes, nr: nat, options: bv16, iv: Block, m: Bytes)
    requires nr >= 1 && |w| == 16 * (nr + 1) && OptionsOk(options)
    ensures Open(w, nr, Sealed(w, nr, options, iv, m)) == Opened(m)
  {
    hide Enciphered, Deciphered, HeaderOk, OptionsOf, OptionsOk, Sealed, Padded, PadLength, PadOk, NumberOf;
    SealedParts(w, nr, options, iv, m);
    DecipheredEnciphered(w, nr, options & CBC != 0, iv, Padded(m));
    PaddingUndone(m);
  }

  lemma PaddingUndone(m: Bytes)
    ensures var p := Padded(m); var k := PadLength(|m|);
            && |p| == |m| + k && p[..|m|] == m && (k == 0 ==> p == m)
            && (k > 0 ==> PadOk(p) && NumberOf(p[|p| - 1]) == k)
  {
    hide PadOk, NumberOf, PadLength, Pad;
    if PadLength(|m|) > 0 { PaddingFound(m); }
  }

  lemma PaddingFound(m: Bytes)
    requires PadLength(|m|) > 0
    ensures var p := Padded(m); PadOk(p) && NumberOf(p[|p| - 1]) == PadLength(|m|)
  {
    var p, k := Padded(m), PadLength(|m|);
    BytesAndNumbers(ByteOf(k), k);
    assert p[|p| - 1] == Pad(k)[k - 1];
    assert p[|p| - k..] == Pad(k);
  }

  /** The parts of a sealed message are where oaes_decrypt looks for them. */
  lemma SealedParts(w: Bytes, nr: nat, options: bv16, iv: Block, m: Bytes)
    requires nr >= 1 && |w| == 16 * (nr + 1) && OptionsOk(options)
    ensures var c := Sealed(w, nr, options, iv, m);
            && |c| >= 32 && |c| % 16 == 0
            && HeaderOk(c) && OptionsOf(c) == options
            && c[8] == (if PadLength(|m|) > 0 then 1 else 0)
            && c[16..32] == iv && c[32..] == Enciphered(w, nr, options & CBC != 0, iv, Padded(m))
  {
    hide Enciphered;
    var flags: bv8 := if PadLength(|m|) > 0 then 1 else 0;
    HeaderReadBack(options, flags);
    var c := Sealed(w, nr, options, iv, m);
    assert c[..16] == Header(options, flags);
    OnlyHeaderRead(c);
  }

  lemma OnlyHeaderRead(c: Bytes)
    requires |c| >= 16
    ensures HeaderOk(c) == HeaderOk(c[..16]) && OptionsOf(c) == OptionsOf(c[..16]) && c[8] == c[..16][8]
  {
  }

  /** The text behind header and IV, deciphered. */
  function PlainOf(w: Bytes, nr: nat, c: Bytes): (p: Bytes)
    requires nr >= 1 && |w| == 16 * (nr + 1) && |c| >= 32 && |c| % 16 == 0
    ensures |p| == |c| - 32
  {
    Deciphered(w, nr, OptionsOf(c) & CBC != 0, c[16..32], c[32..])
  }

  /** The text is in the buffer, and zeros follow up to n. */
  ghost predicate HoldsText(after: Bytes, text: Bytes, n: nat) {
    |text| <= n <= |after| && after[..|text|] == text && forall k :: |text| <= k < n ==> after[k] == 0
  }

  /** Return code, length and buffer after a message has been opened: nothing is written if its header is refused, and the
      deciphered text is left if its padding is; otherwise there are zeros where the padding was. */
  ghost predicate Decrypted(w: Bytes, nr: nat, c: Bytes, before: Bytes, after: Bytes, rc: Ret, mLen: nat)
    requires nr >= 1 && |w| == 16 * (nr + 1) && |c| >= 32 && |c| % 16 == 0
  {
    var n := |c| - 32;
    && n <= |after| == |before| && after[n..] == before[n..]
    && match Open(w, nr, c)
       case Refused => rc == BadHeader && mLen == n && after[..n] == if HeaderOk(c) then PlainOf(w, nr, c) else before[..n]
       case Opened(text) => rc == Success && mLen == |text| && HoldsText(after, text, n)
  }

  lemma HeaderRefused(w: Bytes, nr: nat, c: Bytes, m: Bytes)
    requires nr >= 1 && |w| == 16 * (nr + 1) && |c| >= 32 && |c| % 16 == 0 && |c| - 32 <= |m| && !HeaderOk(c)
    ensures Decrypted(w, nr, c, m, m, BadHeader, |c| - 32)
  {
    hide HeaderOk, Deciphered;
  }

  lemma TextOpened(w: Bytes, nr: nat, c: Bytes, before: Bytes, after: Bytes)
    requires nr >= 1 && |w| == 16 * (nr + 1) && |c| >= 32 && |c| % 16 == 0 && |c| - 32 <= |after| == |before|
    requires after[|c| - 32..] == before[|c| - 32..] && HeaderOk(c)
    requires after[..|c| - 32] == PlainOf(w, nr, c)
    ensures c[8] == 0 ==> Decrypted(w, nr, c, before, after, Success, |c| - 32)
    ensures c[8] == 1 && !PadOk(after[..|c| - 32]) ==> Decrypted(w, nr, c, before, after, BadHeader, |c| - 32)
  {
    hide HeaderOk, Deciphered, PadOk, OptionsOf;
  }

  lemma TextWithPad(w: Bytes, nr: nat, c: Bytes, before: Bytes, text: Bytes, after: Bytes, mLen: nat)
    requires nr >= 1 && |w| == 16 * (nr + 1) && |c| >= 32 && |c| % 16 == 0 && |c| - 32 <= |after| == |before|
    requires after[|c| - 32..] == before[|c| - 32..] && HeaderOk(c) && c[8] == 1
    requires text == PlainOf(w, nr, c) && PadOk(text)
    requires mLen == |text| - NumberOf(text[|text| - 1]) && after[..mLen] == text[..mLen]
    requires forall k :: mLen <= k < |text| ==> after[k] == 0
    ensures Decrypted(w, nr, c, before, after, Success, mLen)
  {
    hide HeaderOk, Deciphered, OptionsOf, NumberOf, Pad;
  }

  // Where the pad test reads.

  /** A header that oaes_decrypt accepts and that marks padding, and no text behind the IV. */
  predicate PaddedButEmpty(c: Bytes)
    requires |c| >= 32
  {
    |c| == 32 && HeaderOk(c) && c[8] == 1
  }

  /** Only with these headers does oaes_decrypt look for padding. */
  predicate PadTested(c: Bytes)
    requires |c| >= 32
  {
    HeaderOk(c) && HasPad(c[8])
  }

  /** The index in the text of the byte that is compared with the i-th padding byte from the end. */
  function PadRead(c: Bytes, i: nat): int { PadIndex(|c| - 32, i) }

  /** The index of byte i from the end, in a text of n bytes. */
  function PadIndex(n: int, i: nat): int { n - 1 - i }

  /** The test first reads the last byte of the text, which is outside the text exactly for a padded empty message;
      for every other message all the bytes it may read, at most fifteen, are inside. */
  lemma PadTestOutside(c: Bytes)
    requires |c| >= 32 && |c| % 16 == 0
    ensures PadTested(c) && !(0 <= PadRead(c, 0)) <==> PaddedButEmpty(c)
    ensures PadTested(c) && !PaddedButEmpty(c) ==> forall i: nat :: i < 15 ==> 0 <= PadRead(c, i) < |c| - 32
    ensures PadTested(c) && !PaddedButEmpty(c) ==> c[32..][PadRead(c, 0)] == c[|c| - 1]
  {
    hide HeaderOk, HasPad;
    FlagsTwoWays(c);
  }

  /** There is such a message for both modes and every IV. */
  lemma PaddedEmptyMessage(options: bv16, iv: Block)
    requires OptionsOk(options)
    ensures PaddedButEmpty(Header(options, 1) + iv)
  {
    hide HeaderOk;
    var c := Header(options, 1) + iv;
    HeaderReadBack(options, 1);
    OnlyHeaderRead(c);
    assert c[..16] == Header(options, 1);
  }

  /** oaes_encrypt never writes one. */
  lemma SealedNotPaddedEmpty(w: Bytes, nr: nat, options: bv16, iv: Block, m: Bytes)
    requires nr >= 1 && |w| == 16 * (nr + 1) && OptionsOk(options)
    ensures var c := Sealed(w, nr, options, iv, m); |c| >= 32 && |c| % 16 == 0 && !PaddedButEmpty(c)
  {
    hide Enciphered, HeaderOk, Sealed, Header, OptionsOf;
    SealedParts(w, nr, options, iv, m);
    SealedLength(w, nr, options, iv, m);
  }

  lemma SealedLength(w: Bytes, nr: nat, options: bv16, iv: Block, m: Bytes)
    requires nr >= 1 && |w| == 16 * (nr + 1)
    ensures |Sealed(w, nr, options, iv, m)| == 32 + |m| + PadLength(|m|)
  {
    hide Enciphered, Header;
  }

  // The program's calls.

  const OAES_HEADER: Block := [0x4f, 0x41, 0x45, 0x53, 0x01, 0x02, 0, 0, 0, 0, 0, 0, 0, 0, 0, 0]

  datatype Ret = Success | Arg2 | Arg3 | NoKey | Buf | BadHeader

  class Context {
    var key: Key?
    var options: bv16
    const iv: array<bv8>

    ghost predicate Valid()
      reads this, iv, key, if key != null then {key.data, key.expData} else {}
    {
      && OptionsOk(options) && iv.Length == 16
      && (key != null ==> key.Valid() && iv != key.data && iv != key.expData)
    }

    /** A new context has no key and is in CBC mode with an IV from the random source. */
    constructor (random: Block)
      ensures Valid() && fresh(iv) && key == null && options == CBC && iv[..] == random
    {
      key, options := null, CBC;
      iv := new bv8[16](i requires 0 <= i < 16 => random[i]);
      new;
      assert iv[..] == random;
    }

    /** Choosing a mode; value is the IV for CBC, or null to take it from the random source. */
    method SetOption(option: bv16, value: array?<bv8>, random: Block) returns (rc: Ret)
      requires Valid() && (value != null ==> value.Length >= 16 && value != iv)
      modifies this`options, iv
      ensures Valid()
      ensures rc == if OptionsOk(option) then Success else Arg2
      ensures rc == Arg2 ==> options == old(options) && iv[..] == old(iv[..])
      ensures rc == Success ==> options == option
      ensures option == ECB ==> iv[..] == seq(16, _ => 0)
      ensures option == CBC ==> iv[..] == if value != null then value[..16] else random
    {
      if option == ECB {
        options := options & !CBC;
        forall k | 0 <= k < 16 { iv[k] := 0; }
      } else if option == CBC {
        options := options & !ECB;
        if value != null {
          forall k | 0 <= k < 16 { iv[k] := value[k]; }
        } else {
          forall k | 0 <= k < 16 { iv[k] := random[k]; }
        }
      } else {
        return Arg2;
      }
      options := options | option;
      return Success;
    }

    method KeyImportData(data: array<bv8>) returns (rc: Ret)
      requires Valid()
      modifies this`key
      ensures Valid()
      ensures rc == if data.Length == 16 || data.Length == 24 || data.Length == 32 then Success else Arg3
      ensures rc == Arg3 ==> key == old(key)
      ensures rc == Success ==> key != null && fresh(key) && key.expData[..] == ExpandedKey(data[..])
    {
      if data.Length != 16 && data.Length != 24 && data.Length != 32 { return Arg3; }
      key := new Key(data);
      return Success;
    }

    /** Seals m into c, which has room for capacity bytes; with no c only the length is reported. */
    method Encrypt(m: array<bv8>, c: array?<bv8>, capacity: nat) returns (rc: Ret, cLen: nat)
      requires Valid() && c != m && c != iv && m != iv && (c != null ==> capacity <= c.Length)
      requires key != null ==> c != key.data && c != key.expData
      modifies c, iv
      ensures Valid()
      ensures cLen == 32 + m.Length + PadLength(m.Length)
      ensures rc == if c == null then Success else if capacity < cLen then Buf else if key == null then NoKey else Success
      ensures c == null || rc != Success ==> iv[..] == old(iv[..]) && (c != null ==> c[..] == old(c[..]))
      ensures c != null && rc == Success ==>
                var w, p := key.expData[..], Padded(m[..]);
                var last := |p| / 16;
                && c[..cLen] == Sealed(w, key.numKeys - 1, options, old(iv[..]), m[..])
                && (forall k :: cLen <= k < c.Length ==> c[k] == old(c[k]))
                && iv[..] == if options == ECB || last == 0 then old(iv[..])
                             else CipherBlock(w, key.numKeys - 1, true, old(iv[..]), p, last - 1)
    {
      hide CipherBlock, Enciphered, ExpandedKey, Header, Pad;
      var padLen := if m.Length % 16 == 0 then 0 else 16 - m.Length % 16;
      var flags: bv8 := if padLen != 0 then 1 else 0;
      cLen := 32 + m.Length + padLen;
      if c == null { return Success, cLen; }
      if capacity < cLen { return Buf, cLen; }
      if key == null { return NoKey, cLen; }
      StartMessage(m, c, flags);
      ghost var head, iv0 := c[..16], iv[..];
      SealBlocks(m, c);
      assert c[..cLen] == head + iv0 + c[32..cLen];
      return Success, cLen;
    }

    /** Header, IV and the bare text. */
    method StartMessage(m: array<bv8>, c: array<bv8>, flags: bv8)
      requires c != m && c != iv && iv.Length == 16 && c.Length >= 32 + m.Length
      modifies c
      ensures c[..16] == Header(options, flags) && c[16..32] == iv[..]
      ensures forall k :: 32 <= k < 32 + m.Length ==> c[k] == m[k - 32]
      ensures forall k :: 32 + m.Length <= k < c.Length ==> c[k] == old(c[k])
    {
      hide Header;
      WriteHeader(c, flags);
      ghost var head := c[..16];
      forall k | 16 <= k < 32 { c[k] := iv[k - 16]; }
      forall k | 32 <= k < 32 + m.Length { c[k] := m[k - 32]; }
      assert c[..16] == head;
    }

    method WriteHeader(c: array<bv8>, flags: bv8)
      requires c.Length >= 16
      modifies c
      ensures c[..16] == Header(options, flags)
      ensures forall k :: 16 <= k < c.Length ==> c[k] == old(c[k])
    {
      forall k | 0 <= k < 16 { c[k] := OAES_HEADER[k]; }
      c[6], c[7] := (options & 0xff) as bv8, (options >> 8) as bv8;
      c[8] := flags;
    }

    /** Enciphers in place the text that follows header and IV in c, chaining through iv in CBC mode. */
    method SealBlocks(m: array<bv8>, c: array<bv8>)
      requires Valid() && key != null && c != m && c != iv && m != iv && c != key.data && c != key.expData
      requires c.Length >= 32 + m.Length + PadLength(m.Length)
      requires forall k :: 32 <= k < 32 + m.Length ==> c[k] == m[k - 32]
      modifies c, iv
      ensures Valid()
      ensures var w, p := key.expData[..], Padded(m[..]);
              && c[32..32 + |p|] == Enciphered(w, key.numKeys - 1, options & CBC != 0, old(iv[..]), p)
              && iv[..] == Chained(w, key.numKeys - 1, options & CBC != 0, old(iv[..]), p, |p| / 16)
              && forall k :: 0 <= k < c.Length && !(32 <= k < 32 + |p|) ==> c[k] == old(c[k])
    {
      hide Cipher, CipherBlock, Pad, PadLength, Enciphered, ExpandedKey, Chained, XorBlocks, SealedTo;
      ghost var w, nr, cbc, iv0, text := key.expData[..], key.numKeys - 1, options & CBC != 0, iv[..], m[..];
      ghost var d := Enciphered(w, nr, cbc, iv0, Padded(text));
      ChainedStart(w, nr, cbc, iv0, Padded(text));
      SealedStart(c[..], text, d);
      var block := new bv8[16];
      var i := 0;
      while i < m.Length + PadLength(m.Length)
        invariant 0 <= i <= |d| && i % 16 == 0
        invariant Valid() && key.expData[..] == w && m[..] == text
        invariant iv[..] == Chained(w, nr, cbc, iv0, Padded(text), i / 16)
        invariant SealedTo(c[..], text, d, i)
        invariant forall k :: 0 <= k < c.Length && !(32 <= k < 32 + |d|) ==> c[k] == old(c[k])
        modifies c, iv, block
      {
        SealNext(c, i, if m.Length - i < 16 then m.Length - i else 16, block, text, iv0);
        i := i + 16;
      }
      SealedAll(c[..], text, d);
      assert c[..][32..32 + |d|] == c[32..32 + |d|];
    }

    /** The block at i of the text. */
    method SealNext(c: array<bv8>, i: nat, size: nat, block: array<bv8>, ghost text: Bytes, ghost iv0: Block)
      requires Valid() && key != null && c != iv && c != key.data && c != key.expData
      requires block.Length == 16 && block != c && block != iv && block != key.data && block != key.expData
      requires i % 16 == 0 && i < |text| && size == (if |text| - i < 16 then |text| - i else 16)
      requires iv[..] == Chained(key.expData[..], key.numKeys - 1, options & CBC != 0, iv0, Padded(text), i / 16)
      requires SealedTo(c[..], text, Enciphered(key.expData[..], key.numKeys - 1, options & CBC != 0, iv0, Padded(text)), i)
      modifies c, iv, block
      ensures Valid() && key.expData[..] == old(key.expData[..]) && i + 16 <= |Padded(text)|
      ensures iv[..] == Chained(key.expData[..], key.numKeys - 1, options & CBC != 0, iv0, Padded(text), i / 16 + 1)
      ensures SealedTo(c[..], text, Enciphered(key.expData[..], key.numKeys - 1, options & CBC != 0, iv0, Padded(text)), i + 16)
      ensures OnlyBlock(c, 32 + i)
    {
      hide Cipher, CipherBlock, Pad, Enciphered, ExpandedKey, Chained, XorBlocks, SealedTo;
      ghost var w, nr, cbc := key.expData[..], key.numKeys - 1, options & CBC != 0;
      ghost var d := Enciphered(w, nr, cbc, iv0, Padded(text));
      NextSealed(w, nr, cbc, iv0, text, i / 16, size);
      ghost var before := c[..];
      SealedRoom(before, text, d, i, size);
      assert c[32 + i..32 + i + size] == text[i..i + size];
      SealBlock(c, 32 + i, size, block);
      assert c[..][32 + i..48 + i] == View(c, 32 + i);
      SealedNext(before, c[..], text, d, i);
    }

    /** Opens c[..cLen] into m, which has room for capacity bytes; with no m only the length is reported.
        The length is a 64-bit unsigned number, so it wraps when c is shorter than header and IV. */
    method Decrypt(c: array<bv8>, cLen: nat, m: array?<bv8>, capacity: nat) returns (rc: Ret, mLen: nat)
      requires Valid() && cLen <= c.Length && m != c
      requires m != null ==> capacity <= m.Length < 0xffff_ffff_ffff_ffe0
      requires key != null ==> m != key.data && m != key.expData
      // otherwise the program reads before its buffer, by PadTestOutside
      requires m != null && key != null && cLen >= 32 && cLen % 16 == 0 ==> !PaddedButEmpty(c[..cLen])
      modifies m
      ensures Valid() && c[..] == old(c[..])
      ensures rc == Arg3 <==> cLen % 16 != 0
      ensures cLen % 16 != 0 ==> mLen == capacity
      ensures cLen % 16 == 0 && (m == null || rc != Success) ==>
                mLen == if cLen >= 32 then cLen - 32 else cLen + 0xffff_ffff_ffff_ffe0
      ensures m != null && (rc == Arg3 || rc == Buf || rc == NoKey) ==> m[..] == old(m[..])
      ensures cLen % 16 == 0 && m == null ==> rc == Success
      ensures cLen % 16 == 0 && m != null && (cLen < 32 || capacity < cLen - 32) ==> rc == Buf
      ensures cLen % 16 == 0 && m != null && 32 <= cLen <= capacity + 32 && key == null ==> rc == NoKey
      ensures cLen % 16 == 0 && m != null && 32 <= cLen <= capacity + 32 && key != null ==>
                Decrypted(key.expData[..], key.numKeys - 1, c[..cLen], old(m[..]), m[..], rc, mLen)
    {
      hide ExpandedKey, PaddedButEmpty, Decrypted;
      if cLen % 16 != 0 { return Arg3, capacity; }
      mLen := if cLen >= 32 then cLen - 32 else cLen + 0xffff_ffff_ffff_ffe0;
      if m == null { return Success, mLen; }
      if capacity < mLen { return Buf, mLen; }
      if key == null { return NoKey, mLen; }
      rc, mLen := DecryptText(c, cLen, m);
    }

    /** The part of oaes_decrypt after the checks of its arguments. */
    method DecryptText(c: array<bv8>, cLen: nat, m: array<bv8>) returns (rc: Ret, mLen: nat)
      requires Valid() && key != null && 32 <= cLen <= c.Length && cLen % 16 == 0 && cLen - 32 <= m.Length
      requires m != c && m != key.data && m != key.expData && !PaddedButEmpty(c[..cLen])
      modifies m
      ensures Valid() && c[..] == old(c[..]) && key.expData[..] == old(key.expData[..])
      ensures Decrypted(key.expData[..], key.numKeys - 1, c[..cLen], old(m[..]), m[..], rc, mLen)
      ensures rc == Success || (rc == BadHeader && mLen == cLen - 32)
    {
      hide PlainOf, ExpandedKey, HeaderOk, PadOk, NumberOf, HasPad, Decrypted;
      ghost var w, nr, text, before := key.expData[..], key.numKeys - 1, c[..cLen], m[..];
      mLen := cLen - 32;
      var ok := CheckHeader(c, cLen);
      if !ok {
        HeaderRefused(w, nr, text, before);
        return BadHeader, mLen;
      }
      var flags := c[8];
      FlagsTwoWays(text);
      OpenText(c, cLen, m);
      ghost var plain := m[..];
      TextOpened(w, nr, text, before, plain);
      rc := Success;
      if HasPad(flags) {
        rc, mLen := RemovePad(m, mLen);
        if rc == Success {
          assert m[..][..mLen] == m[..mLen] && m[..][cLen - 32..] == plain[cLen - 32..];
          TextWithPad(w, nr, text, before, plain[..cLen - 32], m[..], mLen);
        }
      }
    }

    /** Deciphers the text with the options of its header. */
    method OpenText(c: array<bv8>, cLen: nat, m: array<bv8>)
      requires Valid() && key != null && 32 <= cLen <= c.Length && cLen % 16 == 0 && cLen - 32 <= m.Length
      requires m != c && m != key.data && m != key.expData
      modifies m
      ensures Valid() && c[..] == old(c[..]) && key.expData[..] == old(key.expData[..])
      ensures m[..][..cLen - 32] == PlainOf(key.expData[..], key.numKeys - 1, c[..cLen])
      ensures m[..cLen - 32] == m[..][..cLen - 32] && m[..][cLen - 32..] == old(m[..])[cLen - 32..]
    {
      hide Deciphered, ExpandedKey, OptionsFrom;
      var options := OptionsFrom(c[6], c[7]);
      ghost var text := c[..cLen];
      assert options == OptionsOf(text) && text[16..32] == c[16..32] && text[32..] == c[32..cLen];
      OpenBlocks(c, cLen, m, options);
    }

    /** Deciphers the blocks behind header and IV into m. */
    method OpenBlocks(c: array<bv8>, cLen: nat, m: array<bv8>, options: bv16)
      requires Valid() && key != null && 32 <= cLen <= c.Length && cLen % 16 == 0 && cLen - 32 <= m.Length
      requires m != c && m != key.data && m != key.expData
      modifies m
      ensures Valid() && key.expData[..] == old(key.expData[..])
      ensures m[..cLen - 32] == Deciphered(key.expData[..], key.numKeys - 1, options & CBC != 0, c[16..32], c[32..cLen])
      ensures forall k :: cLen - 32 <= k < m.Length ==> m[k] == old(m[k])
    {
      hide Deciphered, ExpandedKey, OpenedTo;
      ghost var w, nr, cbc, iv0, d := key.expData[..], key.numKeys - 1, options & CBC != 0, c[16..32], c[32..cLen];
      ghost var p := Deciphered(w, nr, cbc, iv0, d);
      var chain := CopyText(c, cLen, m);
      OpenedStart(m[..], d, p);
      var i := 0;
      ghost var j := 0;
      while i < cLen - 32
        invariant i == 16 * j && i <= |d|
        invariant Valid() && key.expData[..] == w
        invariant c[16..32] == iv0 && c[32..cLen] == d
        invariant options & CBC == 0 || i == 0 ==> chain[..] == iv0
        invariant OpenedTo(m[..], d, p, i)
        invariant forall k :: |d| <= k < m.Length ==> m[k] == old(m[k])
        modifies m, chain
      {
        OpenNext(c, m, i, options, chain, iv0, d, p);
        i := i + 16;
        j := j + 1;
      }
      OpenedAll(m[..], d, p);
      assert m[..cLen - 32] == m[..][..cLen - 32];
    }

    /** The text to be deciphered in place, and the first block of the chain. */
    method CopyText(c: array<bv8>, cLen: nat, m: array<bv8>) returns (chain: array<bv8>)
      requires 32 <= cLen <= c.Length && cLen - 32 <= m.Length && m != c
      modifies m
      ensures fresh(chain) && chain.Length == 16 && chain[..] == c[16..32]
      ensures m[..][..cLen - 32] == c[32..cLen]
      ensures forall k :: cLen - 32 <= k < m.Length ==> m[k] == old(m[k])
    {
      forall k | 0 <= k < cLen - 32 { m[k] := c[32 + k]; }
      chain := new bv8[16];
      forall k | 0 <= k < 16 { chain[k] := c[16 + k]; }
    }

    /** The block at i: in CBC mode its plain text is added to the cipher block before it. */
    method OpenNext(c: array<bv8>, m: array<bv8>, i: nat, options: bv16, chain: array<bv8>,
                    ghost iv0: Block, ghost d: Bytes, ghost p: Bytes)
      requires Valid() && key != null && |d| <= m.Length && |d| + 32 <= c.Length
      requires m != c && m != key.data && m != key.expData && chain.Length == 16
      requires chain != m && chain != c && chain != iv && chain != key.data && chain != key.expData
      requires i % 16 == 0 && i < |d| && |d| % 16 == 0
      requires c[32..32 + |d|] == d && p == Deciphered(key.expData[..], key.numKeys - 1, options & CBC != 0, iv0, d)
      requires options & CBC == 0 || i == 0 ==> chain[..] == iv0
      requires OpenedTo(m[..], d, p, i)
      modifies m, chain
      ensures Valid() && key.expData[..] == old(key.expData[..])
      ensures options & CBC == 0 ==> chain[..] == old(chain[..])
      ensures OpenedTo(m[..], d, p, i + 16)
      ensures forall k :: |d| <= k < m.Length ==> m[k] == old(m[k])
    {
      hide InvCipher, Deciphered, XorBlocks, ExpandedKey, PlainBlock, OpenedTo;
      ghost var before := m[..];
      PlainBlockIsThere(key.expData[..], key.numKeys - 1, options & CBC != 0, iv0, d, i / 16);
      OpenedBlock(before, d, p, i);
      assert View(m, i) == before[i..i + 16];
      if i > 0 {
        SliceAgain(c[..], 32, 32 + |d|, i - 16, i);
        assert c[16 + i..32 + i] == c[..][32..32 + |d|][i - 16..i];
      }
      OpenOne(c, m, i, options, chain);
      assert View(m, i) == m[..][i..i + 16];
      OpenedNext(before, m[..], d, p, i);
    }

    /** Deciphers the sixteen bytes of m at i; in CBC mode the bytes of c just before the matching cipher block, or
        the chain for the first block, are added. */
    method OpenOne(c: array<bv8>, m: array<bv8>, i: nat, options: bv16, chain: array<bv8>)
      requires Valid() && key != null && i + 16 <= m.Length && i + 32 <= c.Length
      requires m != c && m != key.data && m != key.expData && chain.Length == 16
      requires chain != m && chain != c && chain != iv && chain != key.data && chain != key.expData
      modifies m, chain
      ensures Valid() && key.expData[..] == old(key.expData[..])
      ensures options & CBC == 0 || i == 0 ==> chain[..] == old(chain[..])
      ensures View(m, i) ==
              var b := InvCipher(old(View(m, i)), key.expData[..], key.numKeys - 1);
              if options & CBC != 0 then XorBlocks(b, if i == 0 then old(chain[..]) else c[16 + i..32 + i]) else b
      ensures OnlyBlock(m, i)
    {
      hide InvCipher, XorBlocks, ExpandedKey;
      if options & CBC != 0 && i > 0 {
        forall k | 0 <= k < 16 { chain[k] := c[16 + i + k]; }
        assert chain[..] == c[16 + i..32 + i];
      }
      DecryptBlock(key, m, i);
      assert chain[..] == View(chain, 0);
      if options & CBC != 0 { AddRoundKey(m, i, chain, 0); }
    }

    /** One block: pad it if it is short, chain it, encipher it and put it back. */
    method SealBlock(c: array<bv8>, at: nat, size: nat, block: array<bv8>)
      requires Valid() && key != null && c != iv && c != key.data && c != key.expData
      requires block.Length == 16 && block != c && block != iv && block != key.data && block != key.expData
      requires at + 16 <= c.Length && 1 <= size <= 16
      modifies c, iv, block
      ensures Valid() && key.expData[..] == old(key.expData[..])
      ensures var p := old(c[at..at + size]) + Pad(16 - size);
              View(c, at) == Cipher(if options & CBC != 0 then XorBlocks(p, old(iv[..])) else p, key.expData[..], key.numKeys - 1)
      ensures OnlyBlock(c, at)
      ensures iv[..] == if options & CBC != 0 then View(c, at) else old(iv[..])
    {
      hide Cipher, XorBlocks, ExpandedKey, Pad;
      FillBlock(c, at, size, block);
      assert RoundKey(iv[..], 0) == iv[..];
      if options & CBC != 0 { AddBlockKey(block, iv, 0); }
      EncryptBlock(key, block);
      forall k | 0 <= k < 16 { c[at + k] := block[k]; }
      assert View(c, at) == block[..];
      if options & CBC != 0 {
        forall k | 0 <= k < 16 { iv[k] := block[k]; }
        assert iv[..] == block[..];
      }
    }
  }

  method FillBlock(c: array<bv8>, at: nat, size: nat, block: array<bv8>)
    requires block.Length == 16 && block != c && at + 16 <= c.Length && 1 <= size <= 16
    modifies block
    ensures block[..] == c[at..at + size] + Pad(16 - size)
  {
    ghost var p := c[at..at + size] + Pad(16 - size);
    forall k | 0 <= k < size { block[k] := c[at + k]; }
    for j := 0 to 16 - size
      invariant forall k :: 0 <= k < size + j ==> block[k] == p[k]
    {
      block[size + j] := ByteOf(j + 1);
    }
  }

  /** What the chaining buffer holds after n blocks. */
  function Chained(w: Bytes, nr: nat, cbc: bool, iv: Block, p: Bytes, n: nat): Block
    requires nr >= 1 && |w| == 16 * (nr + 1) && 16 * n <= |p|
  {
    if cbc && n > 0 then CipherBlock(w, nr, cbc, iv, p, n - 1) else iv
  }

  /** After the 32 bytes of header and IV, the first n bytes of c are those of d, and the bare text follows. */
  ghost predicate SealedTo(c: Bytes, text: Bytes, d: Bytes, n: nat) {
    && n <= |d| && 32 + |d| <= |c| && |d| == |Padded(text)|
    && c[32..32 + n] == d[..n]
    && forall k :: 32 + n <= k < 32 + |text| ==> c[k] == text[k - 32]
  }

  lemma SealedStart(c: Bytes, text: Bytes, d: Bytes)
    requires 32 + |d| <= |c| && |d| == |Padded(text)|
    requires forall k :: 32 <= k < 32 + |text| ==> c[k] == text[k - 32]
    ensures SealedTo(c, text, d, 0)
  {
    hide Pad, PadLength;
  }

  lemma SealedAll(c: Bytes, text: Bytes, d: Bytes)
    requires SealedTo(c, text, d, |d|)
    ensures c[32..32 + |d|] == d
  {
    hide Pad, PadLength;
  }

  lemma SealedRoom(c: Bytes, text: Bytes, d: Bytes, i: nat, size: nat)
    requires SealedTo(c, text, d, i) && i % 16 == 0 && i < |text|
    requires size == if |text| - i < 16 then |text| - i else 16
    ensures 48 + i <= 32 + |d| <= |c| && c[32 + i..32 + i + size] == text[i..i + size]
  {
    hide Pad;
  }

  lemma SealedNext(before: Bytes, c: Bytes, text: Bytes, d: Bytes, i: nat)
    requires SealedTo(before, text, d, i) && |c| == |before| && i % 16 == 0 && i + 16 <= |d|
    requires forall k :: 0 <= k < |c| && !(32 + i <= k < 48 + i) ==> c[k] == before[k]
    requires c[32 + i..48 + i] == BlockAt(d, i / 16)
    ensures SealedTo(c, text, d, i + 16)
  {
    hide Pad, PadLength;
    assert c[32..32 + i] == before[32..32 + i];
    assert c[32..48 + i] == c[32..32 + i] + c[32 + i..48 + i];
    assert d[..i + 16] == d[..i] + BlockAt(d, i / 16);
  }

  lemma ChainedStart(w: Bytes, nr: nat, cbc: bool, iv: Block, p: Bytes)
    requires nr >= 1 && |w| == 16 * (nr + 1)
    ensures Chained(w, nr, cbc, iv, p, 0) == iv
  {
  }

  /** Block j of the sealed text from the text itself and the chaining buffer. */
  lemma NextSealed(w: Bytes, nr: nat, cbc: bool, iv: Block, m: Bytes, j: nat, size: nat)
    requires nr >= 1 && |w| == 16 * (nr + 1) && 16 * j < |m|
    requires size == if |m| - 16 * j < 16 then |m| - 16 * j else 16
    ensures var d, block := Enciphered(w, nr, cbc, iv, Padded(m)), m[16 * j..16 * j + size] + Pad(16 - size);
            var chain := Chained(w, nr, cbc, iv, Padded(m), j);
            && BlockAt(d, j) == Cipher(if cbc then XorBlocks(block, chain) else block, w, nr)
            && Chained(w, nr, cbc, iv, Padded(m), j + 1) == if cbc then BlockAt(d, j) else chain
  {
    hide Cipher, XorBlocks, Enciphered, Pad;
    PaddedBlock(m, j);
    CipherBlockIsThere(w, nr, cbc, iv, Padded(m), j);
  }

  lemma PaddedBlock(m: Bytes, j: nat)
    requires 16 * j < |m|
    ensures var size := if |m| - 16 * j < 16 then |m| - 16 * j else 16;
            BlockAt(Padded(m), j) == m[16 * j..16 * j + size] + Pad(16 - size)
  {
    hide Pad;
    var k := PadLength(|m|);
    if |m| - 16 * j < 16 {
      assert 16 * j + 16 == |m| + k && |m| - 16 * j == 16 - k;
      PaddedEnd(m, Pad(k), 16 * j);
    } else {
      assert Pad(0) == [];
    }
  }

  lemma PaddedEnd(m: Bytes, p: Bytes, at: nat)
    requires at <= |m|
    ensures (m + p)[at..|m| + |p|] == m[at..|m|] + p
  {
  }

  lemma PlainBlockIsThere(w: Bytes, nr: nat, cbc: bool, iv: Block, d: Bytes, j: nat)
    requires nr >= 1 && |w| == 16 * (nr + 1) && |d| % 16 == 0 && 16 * j + 16 <= |d|
    ensures BlockAt(Deciphered(w, nr, cbc, iv, d), j) ==
            var b := InvCipher(BlockAt(d, j), w, nr);
            if cbc then XorBlocks(b, if j == 0 then iv else BlockAt(d, j - 1)) else b
  {
    hide InvCipher, XorBlocks;
    var p := Deciphered(w, nr, cbc, iv, d);
    forall k | 0 <= k < 16 ensures BlockAt(p, j)[k] == PlainBlock(w, nr, cbc, iv, d, j)[k] {
      assert BlockAt(p, j)[k] == p[16 * j + k];
      assert (16 * j + k) / 16 == j && (16 * j + k) % 16 == k;
    }
  }

  /** Some bit other than the padding flag is set. */
  predicate UnknownFlags(f: bv8) { f & 0xfe != 0 }

  lemma FlagsKnown(f: bv8)
    ensures UnknownFlags(f) <==> f != 0 && f != 1
  {
  }

  /** The header checks of oaes_decrypt, in its order. */
  method CheckHeader(c: array<bv8>, cLen: nat) returns (ok: bool)
    requires 32 <= cLen <= c.Length
    ensures ok == HeaderOk(c[..cLen])
  {
    hide OptionsOk, OptionsFrom, UnknownFlags;
    FlagsKnown(c[8]);
    ghost var text := c[..cLen];
    assert text[0] == c[0] && text[1] == c[1] && text[2] == c[2] && text[3] == c[3];
    if c[0] != OAES_HEADER[0] || c[1] != OAES_HEADER[1] || c[2] != OAES_HEADER[2] || c[3] != OAES_HEADER[3] { return false; }
    if c[4] != 0x01 { return false; }
    if c[5] != 0x02 { return false; }
    ok := CheckOptions(OptionsFrom(c[6], c[7]));
    if !ok { return false; }
    if UnknownFlags(c[8]) { return false; }
    return true;
  }

  /** Testing bits accepts exactly the two single options. */
  method CheckOptions(options: bv16) returns (ok: bool)
    ensures ok == OptionsOk(options)
  {
    if options & !(ECB | CBC) != 0 { return false; }
    if options & ECB != 0 && options & CBC != 0 { return false; }
    if options == 0 { return false; }
    return true;
  }

  /** The padding flag. */
  predicate HasPad(f: bv8) { f & 1 != 0 }

  lemma FlagsTwoWays(c: Bytes)
    requires |c| >= 16
    ensures HeaderOk(c) ==> c[8] == 0 || c[8] == 1
    ensures c[8] == 1 ==> HasPad(c[8])
    ensures c[8] == 0 ==> !HasPad(c[8])
  {
    hide OptionsOf, HasPad;
    PadFlag();
  }

  lemma PadFlag()
    ensures HasPad(1) && !HasPad(0)
  {
  }

  /** Checks and clears the padding at the end of the n bytes of text. */
  method RemovePad(m: array<bv8>, n: nat) returns (rc: Ret, length: nat)
    requires 16 <= n <= m.Length
    modifies m
    ensures rc == if PadOk(old(m[..n])) then Success else BadHeader
    ensures rc == BadHeader ==> length == n && m[..] == old(m[..])
    ensures rc == Success ==>
              && length == n - NumberOf(old(m[..n])[n - 1])
              && m[..length] == old(m[..n])[..length]
              && (forall k :: length <= k < n ==> m[k] == 0)
              && forall k :: n <= k < m.Length ==> m[k] == old(m[k])
  {
    hide NumberOf, Pad;
    ghost var p := m[..n];
    var isPad := true;
    var temp := NumberOf(m[PadIndex(n, 0)]);
    if temp <= 0 || temp > 15 { return BadHeader, n; }
    for i := 0 to temp
      invariant isPad <==> forall k :: 0 <= k < i ==> PadAt(p, k, temp)
    {
      assert PadAt(p, i, temp) <==> NumberOf(m[n - 1 - i]) == temp - i;
      if NumberOf(m[PadIndex(n, i)]) != temp - i { isPad := false; }
    }
    PadBackwards(p, temp);
    if isPad {
      forall k | n - temp <= k < n { m[k] := 0; }
      return Success, n - temp;
    } else {
      return BadHeader, n;
    }
  }

  /** Byte i from the end carries the number it has in padding of length k. */
  ghost predicate PadAt(p: Bytes, i: nat, k: nat)
    requires i < |p| && i < k
  {
    NumberOf(p[|p| - 1 - i]) == k - i
  }

  lemma PadBackwards(p: Bytes, k: nat)
    requires |p| >= 16 && 1 <= k <= 15 && NumberOf(p[|p| - 1]) == k
    ensures PadOk(p) <==> forall i :: 0 <= i < k ==> PadAt(p, i, k)
  {
    hide NumberOf, ByteOf;
    forall i | 0 <= i < k ensures PadAt(p, i, k) <==> p[|p| - k..][k - 1 - i] == Pad(k)[k - 1 - i] {
      BytesAndNumbers(p[|p| - 1 - i], k - i);
    }
    if forall i :: 0 <= i < k ==> PadAt(p, i, k) {
      forall j | 0 <= j < k ensures p[|p| - k..][j] == Pad(k)[j] { assert PadAt(p, k - 1 - j, k); }
    }
  }

  /** The first i bytes of the text are deciphered, the others still enciphered. */
  ghost predicate OpenedTo(m: Bytes, d: Bytes, p: Bytes, i: nat) {
    i <= |d| == |p| <= |m| && m[..i] == p[..i] && m[i..|d|] == d[i..]
  }

  lemma SliceAgain(s: Bytes, a: nat, b: nat, x: nat, y: nat)
    requires a <= b <= |s| && x <= y <= b - a
    ensures s[a..b][x..y] == s[a + x..a + y]
  {
    forall k | 0 <= k < y - x ensures s[a..b][x..y][k] == s[a + x..a + y][k] {
      assert s[a..b][x + k] == s[a + (x + k)];
    }
  }

  lemma OpenedStart(m: Bytes, d: Bytes, p: Bytes)
    requires |d| == |p| <= |m| && m[..|d|] == d
    ensures OpenedTo(m, d, p, 0)
  {
  }

  lemma OpenedAll(m: Bytes, d: Bytes, p: Bytes)
    requires OpenedTo(m, d, p, |d|)
    ensures m[..|d|] == p
  {
  }

  lemma OpenedBlock(m: Bytes, d: Bytes, p: Bytes, i: nat)
    requires OpenedTo(m, d, p, i) && i % 16 == 0 && i + 16 <= |d|
    ensures m[i..i + 16] == BlockAt(d, i / 16)
    ensures i > 0 ==> BlockAt(d, i / 16 - 1) == d[i - 16..i]
  {
    assert m[i..i + 16] == m[i..|d|][..16];
  }

  lemma OpenedNext(before: Bytes, after: Bytes, d: Bytes, p: Bytes, i: nat)
    requires OpenedTo(before, d, p, i) && i % 16 == 0 && i + 16 <= |d| && |after| == |before|
    requires forall k :: 0 <= k < |after| && !(i <= k < i + 16) ==> after[k] == before[k]
    requires after[i..i + 16] == BlockAt(p, i / 16)
    ensures OpenedTo(after, d, p, i + 16)
  {
    assert after[..i] == before[..i];
    assert after[..i + 16] == after[..i] + after[i..i + 16];
    assert p[..i + 16] == p[..i] + BlockAt(p, i / 16);
    SliceAgain(before, i, |d|, 16, |d| - i);
    SliceAgain(d, i, |d|, 16, |d| - i);
    assert d[i..|d|] == d[i..] && d[i + 16..|d|] == d[i + 16..];
    assert after[i + 16..|d|] == before[i + 16..|d|] == d[i + 16..];
    assert after[..i + 16] == p[..i + 16];
  }
}
