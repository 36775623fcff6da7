/** BLAKE-256 and HMAC, Groestl and Skein-512 as their own documents word them: padding, lengths, counters and tweaks,
    with one pass over what is left of the message; the model's definitions are the same functions. */
module BigEndian {
  import opened MachineWords
  import opened Powers

  /** A 64-bit number as eight bytes, highest first. */
  function Be64(v: nat): (b: seq<Byte>)
    ensures |b| == 8
  {
    [v / 0x100_0000_0000_0000 % 0x100, v / 0x1_0000_0000_0000 % 0x100, v / 0x100_0000_0000 % 0x100, v / 0x1_0000_0000 % 0x100,
     v / 0x100_0000 % 0x100, v / 0x1_0000 % 0x100, v / 0x100 % 0x100, v % 0x100]
  }

  lemma HighHalf(v: nat)
    ensures Be32Bytes(v / 0x1_0000_0000 % 0x1_0000_0000) == Be64(v)[..4]
  {
    var h := v / 0x1_0000_0000;
    assert v / 0x100_0000_0000 == h / 0x100 && v / 0x1_0000_0000_0000 == h / 0x1_0000 && v / 0x100_0000_0000_0000 == h / 0x100_0000;
    WordBytes(h);
  }

  lemma LowHalf(v: nat)
    ensures Be32Bytes(v % 0x1_0000_0000) == Be64(v)[4..]
  {
    WordBytes(v);
  }

  lemma WordBytes(h: nat)
    ensures Be32Bytes(h % 0x1_0000_0000) == [h / 0x100_0000 % 0x100, h / 0x1_0000 % 0x100, h / 0x100 % 0x100, h % 0x100]
  {
    DivMod(h, 0x1_0000_0000);
    var q, w := h / 0x1_0000_0000, h % 0x1_0000_0000;
    ByteKept(q, w, 0x100_0000, 0x100);
    ByteKept(q, w, 0x1_0000, 0x1_0000);
    ByteKept(q, w, 0x100, 0x100_0000);
    ByteKept(q, w, 1, 0x1_0000_0000);
    assert w / 0x100_0000 < 0x100;
  }

  /** A byte of the low word is a byte of the whole. */
  lemma ByteKept(q: nat, w: nat, m: nat, k: nat)
    requires w < 0x1_0000_0000 && m > 0 && m * k == 0x1_0000_0000 && k % 0x100 == 0
    ensures (q * 0x1_0000_0000 + w) / m % 0x100 == w / m % 0x100
  {
    var h, y := q * 0x1_0000_0000 + w, w / m;
    DivMod(w, m);
    Associate(q, k, m);
    Commute(k, m);
    Distribute(q * k, y, m);
    QuotientUnique(h, m, q * k + y, w % m);
    DivMod(k, 0x100);
    DivMod(y, 0x100);
    Associate(q, k / 0x100, 0x100);
    QuotientUnique(q * k + y, 0x100, q * (k / 0x100) + y / 0x100, y % 0x100);
  }
}

/** Sections 2.1.2 and 2.1.3 of the BLAKE submission, and section 2 of RFC 2104. */
module BlakeSubmission {
  import opened MachineWords
  import opened BigEndian
  import Blake
  import Sha256

  type Bytes = seq<Byte>

  /** How many bytes come between the message and its length: at least one, and they fill the last block. */
  function PadLength(n: nat): (k: nat)
    ensures 1 <= k <= 64 && (n + k + 8) % 64 == 0
  {
    (55 - n) % 64 + 1
  }

  /** A one bit, zero bits and a one bit. */
  function PadBytes(n: nat): (p: Bytes)
    ensures (n + |p| + 8) % 64 == 0
  {
    seq(PadLength(n), i => (if i == 0 then 0x80 else 0x00) + (if i == PadLength(n) - 1 then 0x01 else 0x00))
  }

  function StdPadded(m: Bytes): (p: Bytes)
    ensures |p| % 64 == 0
  {
    m + PadBytes(|m|) + Be64(8 * |m|)
  }

  /** The bits of a message of n bytes in blocks 0 to i, or 0 if block i has none of them; low word first. */
  function StdCounter(n: nat, i: nat): Blake.Counter {
    var bits := if 64 * i >= n then 0 else if 8 * n < 512 * (i + 1) then 8 * n else 512 * (i + 1);
    Blake.Counter(bits % 0x1_0000_0000, bits / 0x1_0000_0000 % 0x1_0000_0000)
  }

  /** From block i on. */
  function StdRun(f: Blake.Compress, h: Blake.Chain, rest: Bytes, n: nat, i: nat): Blake.Chain
    requires |rest| % 64 == 0
    decreases |rest|
  {
    if rest == [] then h else StdRun(f, f(h, rest[..64], StdCounter(n, i)), rest[64..], n, i + 1)
  }

  function StdHash(f: Blake.Compress, iv: Blake.Chain, m: Bytes): Bytes {
    var h := StdRun(f, iv, StdPadded(m), |m|, 0);
    seq(32, k requires 0 <= k < 32 => Be32Bytes(h[k / 4])[k % 4])
  }

  lemma PadIs(n: nat)
    ensures Blake.Padding(n, 0x81, 0x01) == PadBytes(n)
  {
    var p := PadBytes(n);
    var r := n % 64;
    assert (55 - n) % 64 == if r <= 55 then 55 - r else 119 - r;
  }

  lemma LengthIs(v: nat)
    ensures Blake.LengthBytes(v) == Be64(v)
  {
    hide Be32Bytes, Be64;
    HighHalf(v);
    LowHalf(v);
  }

  lemma CounterIs(n: nat, i: nat)
    ensures StdCounter(n, i) == Blake.CounterOf(Blake.BlockCounter(n, i))
  {
  }

  /** The chaining of the model, over any padded bytes. */
  function Over(f: Blake.Compress, iv: Blake.Chain, p: Bytes, n: nat, i: nat): Blake.Chain
    requires 64 * i <= |p|
  {
    if i == 0 then iv else f(Over(f, iv, p, n, i - 1), p[64 * (i - 1)..64 * i], StdCounter(n, i - 1))
  }

  lemma {:induction false} OverIs(f: Blake.Compress, iv: Blake.Chain, m: Bytes, i: nat)
    requires 64 * i <= |Blake.Padded(m, 0x81, 0x01)|
    ensures Over(f, iv, Blake.Padded(m, 0x81, 0x01), |m|, i) == Blake.ChainAfter(f, iv, m, 0x81, 0x01, i)
  {
    hide Blake.Padded, StdCounter, Blake.CounterOf, Blake.BlockCounter;
    if i > 0 {
      CounterIs(|m|, i - 1);
      OverIs(f, iv, m, i - 1);
    }
  }

  lemma {:induction false} RunIs(f: Blake.Compress, iv: Blake.Chain, p: Bytes, n: nat, i: nat, k: nat)
    requires |p| == 64 * k && i <= k
    ensures StdRun(f, Over(f, iv, p, n, i), p[64 * i..], n, i) == Over(f, iv, p, n, k)
    decreases k - i
  {
    hide StdCounter;
    if i < k {
      assert p[64 * i..][..64] == p[64 * i..64 * (i + 1)] && p[64 * i..][64..] == p[64 * (i + 1)..];
      RunIs(f, iv, p, n, i + 1, k);
    } else {
      assert p[64 * i..] == [];
    }
  }

  lemma DigestIs(h: Blake.Chain)
    ensures Blake.BytesOfChain(h) == seq(32, k requires 0 <= k < 32 => Be32Bytes(h[k / 4])[k % 4])
  {
    hide Be32Bytes;
  }

  /** The hash of the model is that of the submission. */
  lemma HashIsStd(f: Blake.Compress, m: Bytes)
    ensures Blake.Hash256(f, m) == StdHash(f, Blake.IV256, m)
  {
    hide PadBytes, Be64, Blake.Padded, Blake.ChainAfter, Blake.BytesOfChain, StdRun, Blake.IV256, Over;
    PaddedIs(m);
    var p := StdPadded(m);
    RunIs(f, Blake.IV256, p, |m|, 0, |p| / 64);
    StartOver(f, Blake.IV256, p, |m|);
    OverIs(f, Blake.IV256, m, |p| / 64);
    DigestIs(StdRun(f, Blake.IV256, p, |m|, 0));
  }

  lemma StartOver(f: Blake.Compress, iv: Blake.Chain, p: Bytes, n: nat)
    ensures Over(f, iv, p, n, 0) == iv && p[64 * 0..] == p
  {
  }

  lemma PaddedIs(m: Bytes)
    ensures StdPadded(m) == Blake.Padded(m, 0x81, 0x01)
  {
    hide Blake.Padding, PadBytes, Blake.LengthBytes, Be64;
    PadIs(|m|);
    LengthIs(8 * |m|);
  }

  /** The start is that of SHA-256, the square roots of the first eight primes. */
  lemma StartIsStd()
    ensures Blake.IV256 == Sha256.H_INIT
  {
  }

  function StdXor(x: Byte, y: Byte): Byte { (x as bv8 ^ y as bv8) as int }

  /** The key, hashed if it is longer than a block, added to the first of 64 constant bytes. */
  function Pad(f: Blake.Compress, key: Bytes, c: Byte): Bytes {
    var k := if |key| > 64 then StdHash(f, Blake.IV256, key) else key;
    seq(|k|, i requires 0 <= i < |k| => StdXor(c, k[i])) + seq(if |k| < 64 then 64 - |k| else 0, _ => c)
  }

  function StdHmac(f: Blake.Compress, key: Bytes, m: Bytes): Bytes {
    StdHash(f, Blake.IV256, Pad(f, key, 0x5c) + StdHash(f, Blake.IV256, Pad(f, key, 0x36) + m))
  }

  lemma SameXor(x: Byte, c: Byte)
    ensures StdXor(c, x) == Blake.XorByte(c, x)
  {
  }

  lemma PadIsKeyPad(f: Blake.Compress, key: Bytes, c: Byte)
    ensures Pad(f, key, c) == Blake.KeyPad(Blake.ShortKey(f, key), c)
  {
    hide StdHash, Blake.Hash256, StdXor, Blake.XorByte;
    HashIsStd(f, key);
    var k := Blake.ShortKey(f, key);
    forall i | 0 <= i < 64 ensures Pad(f, key, c)[i] == Blake.KeyPad(k, c)[i] {
      if i < |k| { SameXor(k[i], c); }
    }
  }

  lemma HmacIsStd(f: Blake.Compress, key: Bytes, m: Bytes)
    ensures Blake.Hmac(f, key, m) == StdHmac(f, key, m)
  {
    hide StdHash, Blake.Hash256, Pad, Blake.KeyPad, Blake.ShortKey;
    PadIsKeyPad(f, key, 0x36);
    PadIsKeyPad(f, key, 0x5c);
    var k := Blake.ShortKey(f, key);
    HashIsStd(f, Blake.KeyPad(k, 0x36) + m);
    HashIsStd(f, Blake.KeyPad(k, 0x5c) + Blake.Hash256(f, Blake.KeyPad(k, 0x36) + m));
  }
}

/** The padding rule and the output of the Groestl submission. */
module GroestlSubmission {
  import opened MachineWords
  import opened BigEndian
  import Groestl

  type Bytes = seq<Byte>

  /** Zero bytes between the one bit and the length, as few as fill the last block. */
  function ZeroBytes(n: nat): (z: nat)
    ensures z < 64 && (n + z + 9) % 64 == 0
  {
    (55 - n) % 64
  }

  /** A one bit, zeros, and the number of blocks of the whole. */
  function StdPadded(m: Bytes): (p: Bytes)
    ensures |p| % 64 == 0
  {
    m + [0x80] + seq(ZeroBytes(|m|), _ => 0x00) + Be64((|m| + ZeroBytes(|m|) + 9) / 64)
  }

  function StdRun(f: Groestl.Compress, h: Groestl.Chain, rest: Bytes): Groestl.Chain
    requires |rest| % 64 == 0
    decreases |rest|
  {
    if rest == [] then h else StdRun(f, f(h, rest[..64]), rest[64..])
  }

  /** The last 256 bits of the transformed chaining value, which starts with the digest length in bits. */
  function StdHash(f: Groestl.Compress, g: Groestl.Output, m: Bytes): Bytes {
    var iv := seq(64, k => if k == 62 then 256 / 256 else if k == 63 then 256 % 256 else 0);
    g(StdRun(f, iv, StdPadded(m)))[64 - 32..]
  }

  lemma LengthIs(v: nat)
    requires v < 0x1_0000_0000_0000_0000
    ensures Groestl.LengthField(v) == Be64(v)
  {
    hide Be32Bytes, Be64;
    HighHalf(v);
    LowHalf(v);
  }

  lemma ZeroCount(n: nat)
    ensures n + ZeroBytes(n) + 9 == 64 * Groestl.BlockCount(n)
  {
    var r := n % 64;
    assert (55 - n) % 64 == if r <= 55 then 55 - r else 119 - r;
  }

  lemma PadIs(m: Bytes)
    requires Groestl.BlockCount(|m|) < 0x1_0000_0000_0000_0000
    ensures Groestl.Padded(m) == StdPadded(m)
  {
    hide Be64, Groestl.LengthField, Groestl.BlockCount, ZeroBytes;
    ZeroCount(|m|);
    LengthIs(Groestl.BlockCount(|m|));
  }

  lemma {:induction false} RunIs(f: Groestl.Compress, iv: Groestl.Chain, p: Bytes, i: nat)
    requires |p| % 64 == 0 && 64 * i <= |p|
    ensures StdRun(f, Groestl.Blocks(f, iv, p, i), p[64 * i..]) == Groestl.Blocks(f, iv, p, |p| / 64)
    decreases |p| - 64 * i
  {
    if 64 * i < |p| {
      assert p[64 * i..][..64] == p[64 * i..64 * (i + 1)] && p[64 * i..][64..] == p[64 * (i + 1)..];
      RunIs(f, iv, p, i + 1);
    } else {
      assert p[64 * i..] == [];
    }
  }

  lemma HashIsStd(f: Groestl.Compress, g: Groestl.Output, m: Bytes)
    requires Groestl.BlockCount(|m|) < 0x1_0000_0000_0000_0000
    ensures Groestl.Hash(f, g, Groestl.IV, m) == StdHash(f, g, m)
  {
    hide StdPadded, Groestl.Padded, StdRun, Groestl.BlockCount;
    PadIs(m);
    RunIs(f, Groestl.IV, StdPadded(m), 0);
    assert StdPadded(m)[64 * 0..] == StdPadded(m);
    assert Groestl.IV == seq(64, k => if k == 62 then 256 / 256 else if k == 63 then 256 % 256 else 0);
  }
}

/** UBI chaining and the output function of Skein 1.3, sections 3.4 and 3.5.4. */
module SkeinSubmission {
  import opened MachineWords
  import opened Powers
  import Skein

  type Bytes = seq<Byte>

  /** The upper half of the tweak: the type in bits 120 to 125, first in bit 126 and final in bit 127. */
  function Upper(kind: bv64, first: bool, final: bool): bv64 {
    (kind << 56) | (if first then 1 << 62 else 0) | (if final then 1 << 63 else 0)
  }

  const MESSAGE: bv64 := 48
  const OUTPUT: bv64 := 63

  /** What is left of a message, after position bytes of it: a block, and the rest; the last block is filled up with zeros. */
  function Ubi(f: Skein.Process, g: Skein.Chain, m: Bytes, position: nat, kind: bv64): Skein.Chain
    decreases |m|
  {
    if |m| <= 64 then f(g, m + seq(64 - |m|, _ => 0), Skein.Tweak(position + |m|, Upper(kind, position == 0, true)))
    else Ubi(f, f(g, m[..64], Skein.Tweak(position + 64, Upper(kind, position == 0, false))), m[64..], position + 64, kind)
  }

  /** A number as eight bytes, lowest first. */
  function Le(i: nat): (b: Bytes)
    ensures |b| == 8
  {
    [i % 0x100, i / 0x100 % 0x100, i / 0x1_0000 % 0x100, i / 0x100_0000 % 0x100, i / 0x1_0000_0000 % 0x100,
     i / 0x100_0000_0000 % 0x100, i / 0x1_0000_0000_0000 % 0x100, i / 0x100_0000_0000_0000 % 0x100]
  }

  /** Byte k of the output is byte k % 64 of the chaining of the counter k / 64. */
  function StdHash(f: Skein.Process, iv: Skein.Chain, m: Bytes, hashBitLen: nat): Bytes {
    var g := Ubi(f, iv, m, 0, MESSAGE);
    seq((hashBitLen + 7) / 8, k requires 0 <= k < (hashBitLen + 7) / 8 => Ubi(f, g, Le(k / 64), 0, OUTPUT)[k % 64])
  }

  lemma FlagsAre(i: nat, last: bool)
    ensures Skein.Flags(i, last) == Upper(MESSAGE, i == 0, last)
    ensures Skein.OUT_TWEAK == Skein.Tweak(8, Upper(OUTPUT, true, true))
  {
  }

  lemma {:induction false} ChainIs(f: Skein.Process, iv: Skein.Chain, m: Bytes, i: nat)
    requires i < Skein.BlockCount(|m|)
    ensures 64 * i <= |m|
    ensures Ubi(f, Skein.ChainAfter(f, iv, m, i), m[64 * i..], 64 * i, MESSAGE) == Skein.ChainAfter(f, iv, m, Skein.BlockCount(|m|))
    decreases Skein.BlockCount(|m|) - i
  {
    hide Skein.Flags, Upper;
    var n, rest := Skein.BlockCount(|m|), m[64 * i..];
    FlagsAre(i, i + 1 == n);
    if i + 1 < n {
      assert rest[..64] == Skein.Padded(m)[64 * i..64 * (i + 1)] && rest[64..] == m[64 * (i + 1)..];
      ChainIs(f, iv, m, i + 1);
    } else {
      assert rest + seq(64 - |rest|, _ => 0) == Skein.Padded(m)[64 * i..64 * (i + 1)];
    }
  }

  lemma CounterIs(i: nat)
    ensures Skein.CounterBlock(i) == Le(i) + seq(56, _ => 0)
  {
    Pow2Of32();
    Pow2Sum(8, 8);
    Pow2Sum(16, 8);
    Pow2Sum(32, 8);
    Pow2Sum(32, 16);
    Pow2Sum(48, 8);
    assert Skein.Le64(i) == Le(i);
  }

  lemma OutputIs(f: Skein.Process, g: Skein.Chain, i: nat)
    ensures f(g, Skein.CounterBlock(i), Skein.OUT_TWEAK) == Ubi(f, g, Le(i), 0, OUTPUT)
  {
    hide Upper, Le, Skein.CounterBlock;
    CounterIs(i);
    FlagsAre(0, true);
  }

  lemma HashIsStd(f: Skein.Process, iv: Skein.Chain, m: Bytes, hashBitLen: nat)
    ensures Skein.Hash(f, iv, m, hashBitLen) == StdHash(f, iv, m, hashBitLen)
  {
    hide Ubi, Skein.CounterBlock, Le, Skein.ChainAfter, Skein.BlockCount;
    ChainIs(f, iv, m, 0) by { assert Skein.BlockCount(|m|) > 0; }
    StartIs(f, iv, m);
    assert m[64 * 0..] == m;
    var g := Ubi(f, iv, m, 0, MESSAGE);
    forall k | 0 <= k < (hashBitLen + 7) / 8
      ensures Skein.Hash(f, iv, m, hashBitLen)[k] == StdHash(f, iv, m, hashBitLen)[k]
    {
      OutputIs(f, g, k / 64);
    }
  }

  lemma StartIs(f: Skein.Process, iv: Skein.Chain, m: Bytes)
    ensures Skein.ChainAfter(f, iv, m, 0) == iv
  {
  }
}
