/** How c_blake256.c cuts a message into counted blocks, for any compression function (section 2.1.3 of the BLAKE
    submission), and HMAC on top of it (section 2 of RFC 2104). */
module Blake {
  import opened MachineWords
  import opened Powers

  type Bytes = seq<Byte>
  type Chain = s: seq<Word> | |s| == 8 witness seq(8, _ => 0)

  /** The 64-bit bit counter as its low and high words. */
  datatype Counter = Counter(lo: Word, hi: Word)

  /** Chain value, block and counter; a block without message bits is given counter zero. */
  type Compress = (Chain, Bytes, Counter) -> Chain

  const ZERO: Counter := Counter(0, 0)

  function CounterOf(bits: nat): Counter {
    Counter(bits % 0x1_0000_0000, bits / 0x1_0000_0000 % 0x1_0000_0000)
  }

  // The specification.

  function LengthBytes(bits: nat): (b: Bytes)
    ensures |b| == 8
  {
    Be32Bytes(CounterOf(bits).hi) + Be32Bytes(CounterOf(bits).lo)
  }

  /** Between the message and its length: one byte if that is all there is room for, else a first byte, zeros and
      a last byte. */
  function Padding(n: nat, pa: Byte, pb: Byte): (p: Bytes)
    ensures (n + |p| + 8) % 64 == 0
  {
    var r := n % 64;
    if r == 55 then [pa]
    else if r < 55 then [0x80] + Zeros(54 - r) + [pb]
    else [0x80] + Zeros(118 - r) + [pb]
  }

  function Padded(m: Bytes, pa: Byte, pb: Byte): (p: Bytes)
    ensures |p| % 64 == 0 && |p| >= |m|
  {
    m + Padding(|m|, pa, pb) + LengthBytes(8 * |m|)
  }

  /** The counter of block i: the message bits up to its end, or zero if it holds none. */
  function BlockCounter(n: nat, i: nat): nat {
    if n <= 64 * i then 0 else if 64 * (i + 1) <= n then 512 * (i + 1) else 8 * n
  }

  function ChainAfter(f: Compress, iv: Chain, m: Bytes, pa: Byte, pb: Byte, i: nat): Chain
    requires 64 * i <= |Padded(m, pa, pb)|
  {
    if i == 0 then iv
    else f(ChainAfter(f, iv, m, pa, pb, i - 1), Padded(m, pa, pb)[64 * (i - 1)..64 * i], CounterOf(BlockCounter(|m|, i - 1)))
  }

  function BytesOfChain(h: Chain): (b: Bytes)
    ensures |b| == 32
  {
    Be32Bytes(h[0]) + Be32Bytes(h[1]) + Be32Bytes(h[2]) + Be32Bytes(h[3])
    + Be32Bytes(h[4]) + Be32Bytes(h[5]) + Be32Bytes(h[6]) + Be32Bytes(h[7])
  }

  function Hash(f: Compress, iv: Chain, m: Bytes, pa: Byte, pb: Byte): (b: Bytes)
    ensures |b| == 32
  {
    BytesOfChain(ChainAfter(f, iv, m, pa, pb, |Padded(m, pa, pb)| / 64))
  }

  // What the program does with whole blocks.

  /** One block later; the carry is taken when the low word becomes zero. */
  function Tick(t: Counter): Counter {
    var lo := (t.lo + 512) % 0x1_0000_0000;
    Counter(lo, if lo == 0 then (t.hi + 1) % 0x1_0000_0000 else t.hi)
  }

  function Ticks(t: Counter, n: nat): Counter {
    if n == 0 then t else Tick(Ticks(t, n - 1))
  }

  function Blocks(f: Compress, h: Chain, t: Counter, nullt: bool, p: Bytes, n: nat): Chain
    requires 64 * n <= |p|
  {
    if n == 0 then h
    else f(Blocks(f, h, t, nullt, p, n - 1), p[64 * (n - 1)..64 * n], if nullt then ZERO else Ticks(t, n))
  }

  lemma {:induction false} BlocksSame(f: Compress, h: Chain, t: Counter, nullt: bool, p: Bytes, q: Bytes, n: nat)
    requires 64 * n <= |p| && 64 * n <= |q| && p[..64 * n] == q[..64 * n]
    ensures Blocks(f, h, t, nullt, p, n) == Blocks(f, h, t, nullt, q, n)
  {
    if n > 0 {
      assert p[..64 * (n - 1)] == p[..64 * n][..64 * (n - 1)] == q[..64 * (n - 1)];
      assert p[64 * (n - 1)..64 * n] == p[..64 * n][64 * (n - 1)..] == q[64 * (n - 1)..64 * n];
      BlocksSame(f, h, t, nullt, p, q, n - 1);
    }
  }

  lemma CounterIs(v: nat, hi: nat, lo: nat)
    requires v == hi * 0x1_0000_0000 + lo && lo < 0x1_0000_0000 && hi < 0x1_0000_0000
    ensures CounterOf(v) == Counter(lo, hi)
  {
    QuotientUnique(v, 0x1_0000_0000, hi, lo);
  }

  /** The carry test sees exactly the wraps of the low word. */
  lemma TickCounts(v: nat)
    requires v % 512 == 0 && v + 512 < 0x1_0000_0000_0000_0000
    ensures Tick(CounterOf(v)) == CounterOf(v + 512)
  {
    hide CounterOf;
    DivMod(v, 512);
    DivMod(v / 512, 0x80_0000);
    var hi, lo := v / 512 / 0x80_0000, v / 512 % 0x80_0000 * 512;
    CounterIs(v, hi, lo);
    if lo + 512 == 0x1_0000_0000 {
      CounterIs(v + 512, hi + 1, 0);
    } else {
      CounterIs(v + 512, hi, lo + 512);
    }
  }

  /** Counting blocks from zero counts bits. */
  lemma {:induction false} TicksCountBits(n: nat)
    requires 512 * n < 0x1_0000_0000_0000_0000
    ensures Ticks(ZERO, n) == CounterOf(512 * n)
  {
    hide Tick;
    if n > 0 {
      TicksCountBits(n - 1);
      TickCounts(512 * (n - 1));
    }
  }

  lemma {:induction false} WholeBlocks(f: Compress, iv: Chain, m: Bytes, pa: Byte, pb: Byte, n: nat)
    requires 64 * n <= |m| && 8 * |m| < 0x1_0000_0000_0000_0000
    ensures 64 * n <= |Padded(m, pa, pb)|
    ensures ChainAfter(f, iv, m, pa, pb, n) == Blocks(f, iv, ZERO, false, m, n)
  {
    hide Ticks, CounterOf, Padding, LengthBytes;
    if n > 0 {
      WholeBlocks(f, iv, m, pa, pb, n - 1);
      TicksCountBits(n);
      assert Padded(m, pa, pb)[64 * (n - 1)..64 * n] == m[64 * (n - 1)..64 * n];
    }
  }

  /** When the program's test on the length does the right thing after left waiting bytes: it looks only at the last
      six bits of the number of bytes, and input of no bytes at all clears the buffer. */
  predicate Fits(left: nat, n: nat) {
    left == 0 || 0 < n < 64 - left || n % 64 >= 64 - left
  }

  /** The bytes that an update cuts into blocks, and the bytes that wait after it. */
  function CutBytes(w: Bytes, data: Bytes): Bytes { if Fits(|w|, |data|) then w + data else data }

  function Rest(p: Bytes): Bytes { p[|p| / 64 * 64..] }

  function WaitingAfter(w: Bytes, data: Bytes): Bytes {
    if Fits(|w|, |data|) then Rest(w + data)
    else if |data| % 64 == 0 then []
    else w + Rest(data)
  }

  /** That is the exact condition: for any other lengths there are bytes for which the wrong ones wait. */
  lemma FitsExactly(left: nat, n: nat)
    requires left < 64
    ensures Fits(left, n) <==> forall w: Bytes, data: Bytes :: |w| == left && |data| == n ==> WaitingAfter(w, data) == Rest(w + data)
  {
    if !Fits(left, n) {
      var w, data: Bytes := seq(left, _ => 1), seq(n, _ => 0);
      assert |w| == left && |data| == n;
      if n % 64 != 0 {
        assert (left + n) / 64 == n / 64;
        assert Rest(w + data)[0] == 0 && WaitingAfter(w, data)[0] == 1;
      } else {
        assert |Rest(w + data)| == left;
      }
    }
  }

  // The last blocks.

  /** The low word turned back, wrapping below zero. */
  function Earlier(t: Counter, bits: nat): Counter {
    Counter((t.lo - bits) % 0x1_0000_0000, t.hi)
  }

  /** Less than a block on top of whole blocks never carries into the high word. */
  lemma PartBlockNoCarry(k: nat, used: nat)
    requires used < 512 && 512 * k + used < 0x1_0000_0000_0000_0000
    ensures CounterOf(512 * k).lo + used < 0x1_0000_0000
    ensures CounterOf(512 * k + used) == Counter(CounterOf(512 * k).lo + used, CounterOf(512 * k).hi)
  {
    var v := 512 * k;
    var lo, hi := v % 0x1_0000_0000, v / 0x1_0000_0000;
    DivMod(v, 0x1_0000_0000);
    assert lo % 512 == 0;
    QuotientUnique(v + used, 0x1_0000_0000, hi, lo + used);
  }

  /** Turned back by 512 - used in any pieces and ticked once, the counter has grown by used. */
  lemma BackAndTick(k: nat, used: nat)
    requires used < 512 && 512 * k + used < 0x1_0000_0000_0000_0000
    ensures used > 0 ==> Tick(Earlier(CounterOf(512 * k), 512 - used)) == CounterOf(512 * k + used)
  {
    hide CounterOf;
    PartBlockNoCarry(k, used);
  }

  lemma EarlierTwice(t: Counter, a: nat, b: nat)
    ensures Earlier(Earlier(t, a), b) == Earlier(t, a + b)
  {
  }

  lemma LengthInBits(t: Counter, m: Bytes)
    requires 8 * |m| < 0x1_0000_0000_0000_0000 && t == CounterOf(512 * (|m| / 64))
    ensures var b := 8 * (|m| % 64);
            var lo := (t.lo + b) % 0x1_0000_0000;
            Be32Bytes(if lo < b then (t.hi + 1) % 0x1_0000_0000 else t.hi) + Be32Bytes(lo) == LengthBytes(8 * |m|)
  {
    hide Be32Bytes, CounterOf;
    PartBlockNoCarry(|m| / 64, 8 * (|m| % 64));
    assert 512 * (|m| / 64) + 8 * (|m| % 64) == 8 * |m|;
  }

  /** The chain value and the counter that the block after the whole blocks is compressed with. */
  lemma LastBlockWithOne(f: Compress, iv: Chain, m: Bytes, pa: Byte, pb: Byte)
    requires |m| % 64 == 55
    ensures |Padded(m, pa, pb)| / 64 == |m| / 64 + 1
    ensures Hash(f, iv, m, pa, pb) == BytesOfChain(f(ChainAfter(f, iv, m, pa, pb, |m| / 64), Rest(m) + [pa] + LengthBytes(8 * |m|),
                                                     CounterOf(8 * |m|)))
  {
    hide CounterOf, LengthBytes, BytesOfChain;
    var k, p := |m| / 64, Padded(m, pa, pb);
    assert p[64 * k..64 * (k + 1)] == Rest(m) + [pa] + LengthBytes(8 * |m|);
  }

  lemma LastBlockWithZeros(f: Compress, iv: Chain, m: Bytes, pa: Byte, pb: Byte)
    requires |m| % 64 < 55
    ensures |Padded(m, pa, pb)| / 64 == |m| / 64 + 1
    ensures Hash(f, iv, m, pa, pb) ==
            BytesOfChain(f(ChainAfter(f, iv, m, pa, pb, |m| / 64), Rest(m) + ([0x80] + Zeros(54 - |m| % 64)) + [pb] + LengthBytes(8 * |m|),
                           if |m| % 64 == 0 then ZERO else CounterOf(8 * |m|)))
  {
    hide LengthBytes, BytesOfChain;
    var k, p := |m| / 64, Padded(m, pa, pb);
    assert p[64 * k..64 * (k + 1)] == Rest(m) + ([0x80] + Zeros(54 - |m| % 64)) + [pb] + LengthBytes(8 * |m|);
  }

  lemma TwoLastBlocks(f: Compress, iv: Chain, m: Bytes, pa: Byte, pb: Byte)
    requires |m| % 64 > 55
    ensures |Padded(m, pa, pb)| / 64 == |m| / 64 + 2
    ensures Hash(f, iv, m, pa, pb) ==
            BytesOfChain(f(f(ChainAfter(f, iv, m, pa, pb, |m| / 64), Rest(m) + ([0x80] + Zeros(63 - |m| % 64)), CounterOf(8 * |m|)),
                           Zeros(55) + [pb] + LengthBytes(8 * |m|), ZERO))
  {
    hide LengthBytes, BytesOfChain;
    var k, p := |m| / 64, Padded(m, pa, pb);
    assert p[64 * k..64 * (k + 1)] == Rest(m) + ([0x80] + Zeros(63 - |m| % 64));
    assert p[64 * (k + 1)..64 * (k + 2)] == Zeros(55) + [pb] + LengthBytes(8 * |m|);
    assert BlockCounter(|m|, k) == 8 * |m| && CounterOf(BlockCounter(|m|, k + 1)) == ZERO;
    var first := ChainAfter(f, iv, m, pa, pb, k + 1);
    assert first == f(ChainAfter(f, iv, m, pa, pb, k), p[64 * k..64 * (k + 1)], CounterOf(8 * |m|));
    assert ChainAfter(f, iv, m, pa, pb, k + 2) == f(first, p[64 * (k + 1)..64 * (k + 2)], ZERO);
  }

  class State {
    const f: Compress
    var h: Chain
    var t: Counter
    var buflen: nat
    var nullt: bool
    const buf: array<Byte>

    /** buflen counts bits, and whole bytes wait in the buffer. */
    ghost predicate Valid()
      reads this
    {
      buf.Length == 64 && buflen % 8 == 0 && buflen < 512
    }

    ghost function Waiting(): (w: Bytes)
      requires Valid()
      reads this, buf
      ensures |w| == buflen / 8
    {
      buf[..buflen / 8]
    }

    constructor (f: Compress, iv: Chain)
      ensures Valid() && fresh(buf) && this.f == f && h == iv && t == ZERO && buflen == 0 && !nullt
    {
      this.f := f;
      h, t, buflen, nullt := iv, ZERO, 0, false;
      buf := new Byte[64];
    }

    method CompressBlock(block: Bytes)
      requires |block| == 64
      modifies this`h, this`t
      ensures t == Tick(old(t)) && h == f(old(h), block, if nullt then ZERO else t)
    {
      t := Tick(t);
      h := f(h, block, if nullt then ZERO else t);
    }

    method Update(data: Bytes)
      requires Valid() && 8 * |data| < 0x1_0000_0000_0000_0000
      modifies this`h, this`t, this`buflen, buf
      ensures Valid()
      ensures var p := old(CutBytes(Waiting(), data));
              h == Blocks(f, old(h), old(t), nullt, p, |p| / 64) && t == Ticks(old(t), |p| / 64)
      ensures Waiting() == old(WaitingAfter(Waiting(), data))
    {
      hide Tick, Ticks, Blocks, Rest;
      ghost var w, h0, t0 := Waiting(), h, t;
      var left := buflen / 8;
      var fill := 64 - left;
      var at, datalen := 0, 8 * |data|;
      ghost var p := CutBytes(w, data);
      NoBlocks(f, h0, t0, nullt, p);
      if left != 0 && datalen / 8 % 64 >= fill {
        forall k | 0 <= k < fill { buf[left + k] := data[k]; }
        assert buf[..] == p[..64];
        CompressBlock(buf[..]);
        OneBlock(f, h0, t0, nullt, p);
        at, datalen := fill, datalen - 8 * fill;
        left := 0;
        at := CompressAll(data, at, p, 1, h0, t0);
      } else if |data| >= 64 {
        at := CompressAll(data, at, p, 0, h0, t0);
      }
      RestLength(w, data);
      KeepRest(data, at, left, 8 * (|data| - at));
    }

    method KeepRest(data: Bytes, at: nat, left: nat, datalen: nat)
      requires buf.Length == 64 && at <= |data| && datalen == 8 * (|data| - at) && left + |data| - at < 64
      modifies this`buflen, buf
      ensures Valid()
      ensures Waiting() == if at == |data| then [] else old(buf[..left]) + data[at..]
    {
      if datalen > 0 {
        forall k | 0 <= k < |data| - at { buf[left + k] := data[at + k]; }
        buflen := 8 * left + datalen;
      } else {
        buflen := 0;
      }
    }

    /** An update that does not fill the buffer. */
    method Append(data: Bytes)
      requires Valid() && 0 < |data| < 64 - buflen / 8
      modifies this`h, this`t, this`buflen, buf
      ensures Valid() && h == old(h) && t == old(t) && Waiting() == old(Waiting()) + data
    {
      RestLength(Waiting(), data);
      NoBlocks(f, h, t, nullt, Waiting() + data);
      Update(data);
    }

    /** An update that fills the buffer exactly. */
    method Complete(data: Bytes)
      requires Valid() && |data| == 64 - buflen / 8 < 64
      modifies this`h, this`t, this`buflen, buf
      ensures Valid() && Waiting() == [] && t == Tick(old(t))
      ensures h == f(old(h), old(Waiting()) + data, if nullt then ZERO else t)
    {
      hide Tick;
      ghost var p := Waiting() + data;
      RestLength(Waiting(), data);
      OneBlock(f, h, t, nullt, p);
      assert p[..64] == p;
      Update(data);
    }

    method TakeBack(bits: nat)
      modifies this`t
      ensures t == Earlier(old(t), bits)
    {
      t := Counter((t.lo - bits) % 0x1_0000_0000, t.hi);
    }

    /** What the state holds once the message m has been put in. */
    ghost predicate Holds(iv: Chain, m: Bytes)
      reads this, buf
    {
      && Valid() && !nullt && 8 * |m| < 0x1_0000_0000_0000_0000
      && h == Blocks(f, iv, ZERO, false, m, |m| / 64)
      && t == CounterOf(512 * (|m| / 64))
      && Waiting() == Rest(m)
    }

    lemma HoldsNothing(iv: Chain)
      requires Valid() && h == iv && t == ZERO && buflen == 0 && !nullt
      ensures Holds(iv, [])
    {
    }

    lemma WaitingLength(iv: Chain, m: Bytes)
      requires Holds(iv, m)
      ensures buflen == 8 * (|m| % 64)
    {
      assert [] + m == m;
      RestLength([], m);
    }

    /** More of a message, in pieces whose lengths the program can handle. */
    method Put(data: Bytes, ghost iv: Chain, ghost m: Bytes)
      requires Holds(iv, m) && 8 * |m + data| < 0x1_0000_0000_0000_0000 && Fits(buflen / 8, |data|)
      modifies this`h, this`t, this`buflen, buf
      ensures Holds(iv, m + data)
    {
      hide Blocks, Ticks, CounterOf, Rest, Fits;
      MoreBytes(f, iv, m, data);
      Update(data);
    }

    /** Padding and length; the counter is turned back before each piece of them, so that it ends up at the number of
        message bits whenever it is used. */
    method FinalH(pa: Byte, pb: Byte, ghost iv: Chain, ghost m: Bytes) returns (digest: Bytes)
      requires Holds(iv, m)
      modifies this, buf
      ensures digest == Hash(f, iv, m, pa, pb)
    {
      hide Tick, Blocks, Padded, ChainAfter, CounterOf, LengthBytes, Rest;
      var lo := (t.lo + buflen) % 0x1_0000_0000;
      var hi := if lo < buflen then (t.hi + 1) % 0x1_0000_0000 else t.hi;
      var msglen := Be32Bytes(hi) + Be32Bytes(lo);
      RestLength([], m);
      assert [] + m == m;
      LengthInBits(t, m);
      WholeBlocks(f, iv, m, pa, pb, |m| / 64);
      if buflen == 440 {
        FinishFull(pa, pb, msglen, iv, m);
      } else if buflen < 440 {
        FinishShort(pa, pb, msglen, iv, m);
      } else {
        FinishLong(pa, pb, msglen, iv, m);
      }
      digest := BytesOfChain(h);
    }

    /** One byte of padding. */
    method FinishFull(pa: Byte, pb: Byte, msglen: Bytes, ghost iv: Chain, ghost m: Bytes)
      requires ReadyToFinish(iv, m, pa, pb, msglen) && buflen == 440
      modifies this, buf
      ensures Hash(f, iv, m, pa, pb) == BytesOfChain(h)
    {
      hide Tick, Earlier, CounterOf, ChainAfter, Padded, LengthBytes, Rest, BytesOfChain;
      LastBlockWithOne(f, iv, m, pa, pb);
      EarlierTwice(t, 8, 64);
      BackAndTick(|m| / 64, 440);
      TakeBack(8);
      Append([pa]);
      TakeBack(64);
      Complete(msglen);
    }

    /** Padding in the same block as the rest of the message. */
    method FinishShort(pa: Byte, pb: Byte, msglen: Bytes, ghost iv: Chain, ghost m: Bytes)
      requires ReadyToFinish(iv, m, pa, pb, msglen) && buflen < 440
      modifies this, buf
      ensures Hash(f, iv, m, pa, pb) == BytesOfChain(h)
    {
      hide Tick, Earlier, CounterOf, ChainAfter, Padded, LengthBytes, Rest, BytesOfChain;
      LastBlockWithZeros(f, iv, m, pa, pb);
      EarlierTwice(t, 440 - buflen, 8);
      EarlierTwice(t, 448 - buflen, 64);
      BackAndTick(|m| / 64, buflen);
      if buflen == 0 { nullt := true; }
      TakeBack(440 - buflen);
      Append([0x80] + Zeros(54 - buflen / 8));
      Append([pb]);
      TakeBack(8);
      TakeBack(64);
      Complete(msglen);
    }

    /** Padding that runs over into a block of its own. */
    method FinishLong(pa: Byte, pb: Byte, msglen: Bytes, ghost iv: Chain, ghost m: Bytes)
      requires ReadyToFinish(iv, m, pa, pb, msglen) && buflen > 440
      modifies this, buf
      ensures Hash(f, iv, m, pa, pb) == BytesOfChain(h)
    {
      hide Tick, Earlier, CounterOf, ChainAfter, Padded, LengthBytes, Rest, BytesOfChain;
      TwoLastBlocks(f, iv, m, pa, pb);
      BackAndTick(|m| / 64, buflen);
      TakeBack(512 - buflen);
      Complete([0x80] + Zeros(63 - buflen / 8));
      BlockOfPadding(pb, msglen);
    }

    /** The second of two last blocks: it holds no bits of the message, so no counter is added to it. */
    method BlockOfPadding(pb: Byte, msglen: Bytes)
      requires Valid() && Waiting() == [] && |msglen| == 8
      modifies this, buf
      ensures h == f(old(h), Zeros(55) + [pb] + msglen, ZERO)
    {
      hide Tick, Earlier;
      TakeBack(440);
      Append(Zeros(55));
      assert [] + Zeros(55) == Zeros(55);
      nullt := true;
      Append([pb]);
      TakeBack(8);
      TakeBack(64);
      Complete(msglen);
    }

    ghost predicate ReadyToFinish(iv: Chain, m: Bytes, pa: Byte, pb: Byte, msglen: Bytes)
      reads this, buf
    {
      && Valid() && !nullt && 8 * |m| < 0x1_0000_0000_0000_0000 && buflen == 8 * (|m| % 64)
      && 64 * (|m| / 64) <= |Padded(m, pa, pb)| && h == ChainAfter(f, iv, m, pa, pb, |m| / 64)
      && t == CounterOf(512 * (|m| / 64)) && Waiting() == Rest(m) && msglen == LengthBytes(8 * |m|)
    }

    /** The whole blocks of data from at on; n blocks of p come before them. */
    method CompressAll(data: Bytes, at: nat, ghost p: Bytes, ghost n: nat, ghost h0: Chain, ghost t0: Counter) returns (end: nat)
      requires at <= |data| && 64 * n <= |p| && data[at..] == p[64 * n..]
      requires h == Blocks(f, h0, t0, nullt, p, n) && t == Ticks(t0, n)
      modifies this`h, this`t
      ensures at <= end <= |data| && data[end..] == Rest(p)
      ensures h == Blocks(f, h0, t0, nullt, p, |p| / 64) && t == Ticks(t0, |p| / 64)
    {
      hide Tick;
      end := at;
      ghost var k := n;
      assert |data[at..]| == |p[64 * n..]|;
      while |data| - end >= 64
        invariant at <= end <= |data| && 64 * k <= |p| && |data| - end == |p| - 64 * k && data[end..] == p[64 * k..]
        invariant h == Blocks(f, h0, t0, nullt, p, k) && t == Ticks(t0, k)
      {
        assert data[end..end + 64] == data[end..][..64] == p[64 * k..][..64] == p[64 * k..64 * (k + 1)];
        assert data[end + 64..] == data[end..][64..] == p[64 * k..][64..] == p[64 * (k + 1)..];
        CompressBlock(data[end..end + 64]);
        k := k + 1;
        end := end + 64;
      }
    }
  }

  const IV256: Chain := [0x6A09E667, 0xBB67AE85, 0x3C6EF372, 0xA54FF53A, 0x510E527F, 0x9B05688C, 0x1F83D9AB, 0x5BE0CD19]

  function Hash256(f: Compress, m: Bytes): (b: Bytes)
    ensures |b| == 32
  {
    Hash(f, IV256, m, 0x81, 0x01)
  }

  lemma {:induction false} BlocksJoin(f: Compress, iv: Chain, m: Bytes, data: Bytes, n: nat)
    requires |m| % 64 == 0 && 64 * n <= |data|
    ensures var k := |m| / 64;
            && Ticks(Ticks(ZERO, k), n) == Ticks(ZERO, k + n)
            && Blocks(f, Blocks(f, iv, ZERO, false, m, k), Ticks(ZERO, k), false, data, n) == Blocks(f, iv, ZERO, false, m + data, k + n)
  {
    hide Tick;
    var k := |m| / 64;
    if n == 0 {
      assert (m + data)[..64 * k] == m[..64 * k];
      BlocksSame(f, iv, ZERO, false, m, m + data, k);
    } else {
      BlocksJoin(f, iv, m, data, n - 1);
      assert (m + data)[64 * (k + n - 1)..64 * (k + n)] == data[64 * (n - 1)..64 * n];
    }
  }

  /** More bytes after the message m: the waiting ones and the new ones are cut into blocks together. */
  lemma MoreBytes(f: Compress, iv: Chain, m: Bytes, data: Bytes)
    requires 8 * |m + data| < 0x1_0000_0000_0000_0000
    ensures var p, k := Rest(m) + data, |m| / 64;
            && Blocks(f, Blocks(f, iv, ZERO, false, m, k), CounterOf(512 * k), false, p, |p| / 64) ==
               Blocks(f, iv, ZERO, false, m + data, |m + data| / 64)
            && Ticks(CounterOf(512 * k), |p| / 64) == CounterOf(512 * (|m + data| / 64))
            && Rest(p) == Rest(m + data)
  {
    hide CounterOf, Tick, Blocks, Ticks, Rest;
    var k, head := |m| / 64, m[..64 * (|m| / 64)];
    var p := Rest(m) + data;
    HeadAndRest(m, data);
    SplitCount(m, data);
    TicksCountBits(k);
    TicksCountBits(k + |p| / 64);
    BlocksJoin(f, iv, head, p, |p| / 64);
    BlocksSame(f, iv, ZERO, false, m, head, k);
  }

  lemma HeadAndRest(m: Bytes, data: Bytes)
    ensures 64 * (|m| / 64) <= |m| && m + data == m[..64 * (|m| / 64)] + (Rest(m) + data)
    ensures m[..64 * (|m| / 64)][..64 * (|m| / 64)] == m[..64 * (|m| / 64)]
  {
  }

  lemma SplitCount(m: Bytes, data: Bytes)
    ensures |m + data| / 64 == |m| / 64 + |Rest(m) + data| / 64
    ensures Rest(Rest(m) + data) == Rest(m + data)
  {
    var k, p := |m| / 64, Rest(m) + data;
    assert |m + data| == 64 * k + |p|;
    assert (m + data)[64 * k..] == p;
    assert (m + data)[64 * (k + |p| / 64)..] == p[64 * (|p| / 64)..];
  }

  method BlakeHash(f: Compress, input: Bytes) returns (out: Bytes)
    requires 8 * |input| < 0x1_0000_0000_0000_0000
    ensures out == Hash256(f, input)
  {
    hide Hash, IV256, Blocks, CounterOf, Rest;
    var s := new State(f, IV256);
    s.HoldsNothing(IV256);
    assert [] + input == input;
    s.Put(input, IV256, []);
    out := s.FinalH(0x81, 0x01, IV256, input);
  }

  // HMAC.

  function XorByte(x: Byte, y: Byte): Byte { (x as bv8 ^ y as bv8) as int }

  /** The key, hashed if it is longer than a block, added to a constant byte. */
  function ShortKey(f: Compress, key: Bytes): (k: Bytes)
    ensures |k| <= 64
  {
    if |key| > 64 then Hash256(f, key) else key
  }

  function KeyPad(key: Bytes, c: Byte): (p: Bytes)
    requires |key| <= 64
    ensures |p| == 64
  {
    seq(64, i requires 0 <= i < 64 => if i < |key| then XorByte(c, key[i]) else c)
  }

  function Hmac(f: Compress, key: Bytes, m: Bytes): Bytes {
    var k := ShortKey(f, key);
    Hash256(f, KeyPad(k, 0x5c) + Hash256(f, KeyPad(k, 0x36) + m))
  }

  method MakePad(key: Bytes, c: Byte) returns (pad: Bytes)
    requires |key| <= 64
    ensures pad == KeyPad(key, c)
  {
    hide XorByte;
    pad := seq(64, _ => c);
    for i := 0 to |key|
      invariant |pad| == 64 && forall k :: 0 <= k < 64 ==> pad[k] == if k < i then XorByte(c, key[k]) else c
    {
      pad := pad[i := XorByte(pad[i], key[i])];
    }
  }

  class HmacState {
    const inner: State
    const outer: State

    /** The inner state holds the padded key and m, the outer state the padded key. */
    ghost predicate Keyed(f: Compress, k: Bytes, m: Bytes)
      requires |k| <= 64
      reads this, inner, inner.buf, outer, outer.buf
    {
      && inner != outer && inner.buf != outer.buf && inner.f == f && outer.f == f
      && inner.Holds(IV256, KeyPad(k, 0x36) + m) && outer.Holds(IV256, KeyPad(k, 0x5c))
    }

    constructor (f: Compress, key: Bytes)
      requires 8 * |key| < 0x1_0000_0000_0000_0000
      ensures fresh(inner) && fresh(outer) && fresh(inner.buf) && fresh(outer.buf)
      ensures Keyed(f, ShortKey(f, key), [])
    {
      hide Hash256, KeyPad, IV256, Blocks, CounterOf, Rest;
      var k := key;
      if |key| > 64 { k := BlakeHash(f, key); }
      inner := new State(f, IV256);
      outer := new State(f, IV256);
      new;
      var pad := MakePad(k, 0x36);
      inner.HoldsNothing(IV256);
      inner.Put(pad, IV256, []);
      assert [] + pad == pad == pad + [];
      pad := MakePad(k, 0x5c);
      outer.HoldsNothing(IV256);
      outer.Put(pad, IV256, []);
      assert [] + pad == pad;
    }

    method Update(data: Bytes, ghost f: Compress, ghost k: Bytes, ghost m: Bytes)
      requires |k| <= 64 && Keyed(f, k, m) && 8 * (64 + |m| + |data|) < 0x1_0000_0000_0000_0000
      requires Fits(|m| % 64, |data|)
      modifies inner, inner.buf
      ensures Keyed(f, k, m + data)
    {
      hide KeyPad, Fits, Blocks, CounterOf, Rest, IV256;
      assert KeyPad(k, 0x36) + m + data == KeyPad(k, 0x36) + (m + data);
      inner.WaitingLength(IV256, KeyPad(k, 0x36) + m);
      inner.Put(data, IV256, KeyPad(k, 0x36) + m);
    }

    method Final(ghost f: Compress, ghost k: Bytes, ghost m: Bytes) returns (digest: Bytes)
      requires |k| <= 64 && Keyed(f, k, m)
      modifies inner, inner.buf, outer, outer.buf
      ensures digest == Hash256(f, KeyPad(k, 0x5c) + Hash256(f, KeyPad(k, 0x36) + m))
    {
      hide KeyPad, Hash;
      var ihash := inner.FinalH(0x81, 0x01, IV256, KeyPad(k, 0x36) + m);
      outer.WaitingLength(IV256, KeyPad(k, 0x5c));
      outer.Put(ihash, IV256, KeyPad(k, 0x5c));
      digest := outer.FinalH(0x81, 0x01, IV256, KeyPad(k, 0x5c) + ihash);
    }
  }

  method HmacHash(f: Compress, key: Bytes, input: Bytes) returns (out: Bytes)
    requires 8 * |key| < 0x1_0000_0000_0000_0000 && 8 * (64 + |input|) < 0x1_0000_0000_0000_0000
    ensures out == Hmac(f, key, input)
  {
    hide Hash256, KeyPad;
    var s := new HmacState(f, key);
    ghost var k := ShortKey(f, key);
    s.Update(input, f, k, []);
    assert [] + input == input;
    out := s.Final(f, k, input);
  }

  lemma RestLength(w: Bytes, data: Bytes)
    requires |w| < 64
    ensures |Rest(w + data)| == (|w| + |data|) % 64 && |Rest(data)| == |data| % 64
    ensures |w| + |data| < 64 ==> Rest(w + data) == w + data
    ensures |data| < 64 ==> Rest(data) == data
  {
    hide Rest;
    RestOfAny(w + data);
    RestOfAny(data);
  }

  lemma RestOfAny(data: Bytes)
    ensures |Rest(data)| == |data| % 64
    ensures |data| < 64 ==> Rest(data) == data
  {
    DivMod(|data|, 64);
  }

  lemma NoBlocks(f: Compress, h: Chain, t: Counter, nullt: bool, p: Bytes)
    ensures Blocks(f, h, t, nullt, p, 0) == h && Ticks(t, 0) == t
  {
  }

  lemma OneBlock(f: Compress, h: Chain, t: Counter, nullt: bool, p: Bytes)
    requires |p| >= 64
    ensures Blocks(f, h, t, nullt, p, 1) == f(h, p[..64], if nullt then ZERO else Tick(t)) && Ticks(t, 1) == Tick(t)
  {
    NoBlocks(f, h, t, nullt, p);
    assert p[64 * 0..64 * 1] == p[..64];
  }
}
