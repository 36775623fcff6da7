/** How Skein-512 in c_skein.c cuts a message, in any pieces, into tweaked blocks (section 3.4 of the Skein 1.3
    specification), for any block function. */
module Skein {
  import opened MachineWords
  import opened Powers

  type Bytes = seq<Byte>

  /** Eight 64-bit words of chaining variables, as 64 bytes in the order of memory. */
  type Chain = s: Bytes | |s| == 64 witness seq(64, _ => 0)

  /** The tweak: the bytes so far, and the flags with the block type. */
  datatype Tweak = Tweak(position: nat, flags: bv64)

  /** Threefish and the feed-forward: chain value, block and tweak. */
  type Process = (Chain, Bytes, Tweak) -> Chain

  const FIRST: bv64 := 0x4000000000000000
  const FINAL: bv64 := 0x8000000000000000
  const TYPE_MSG: bv64 := 0x3000000000000000
  const TYPE_OUT: bv64 := 0x3f00000000000000

  // The specification.

  /** Blocks of a message of n bytes; the empty message has one. */
  function BlockCount(n: nat): (c: nat)
    ensures c >= 1 && 64 * (c - 1) <= n <= 64 * c && (n > 0 ==> 64 * (c - 1) < n)
  {
    if n == 0 then 1 else (n - 1) / 64 + 1
  }

  /** The message filled up with zeros. */
  function Padded(m: Bytes): (p: Bytes)
    ensures |p| == 64 * BlockCount(|m|)
  {
    m + Zeros(64 * BlockCount(|m|) - |m|)
  }

  function Flags(i: nat, last: bool): bv64 {
    TYPE_MSG | (if i == 0 then FIRST else 0) | (if last then FINAL else 0)
  }

  /** The tweak of block i: the message bytes up to its end, FIRST on the first block and FINAL on the last. */
  function BlockTweak(n: nat, i: nat): Tweak
    requires i < BlockCount(n)
  {
    if i + 1 == BlockCount(n) then Tweak(n, Flags(i, true)) else Tweak(64 * (i + 1), Flags(i, false))
  }

  function ChainAfter(f: Process, iv: Chain, m: Bytes, i: nat): Chain
    requires i <= BlockCount(|m|)
  {
    if i == 0 then iv
    else f(ChainAfter(f, iv, m, i - 1), Padded(m)[64 * (i - 1)..64 * i], BlockTweak(|m|, i - 1))
  }

  /** A number as eight bytes, lowest first. */
  function Le64(i: nat): (b: Bytes)
    ensures |b| == 8
  {
    seq(8, k requires 0 <= k < 8 => i / Pow2(8 * k) % 0x100)
  }

  function CounterBlock(i: nat): (b: Bytes)
    ensures |b| == 64
  {
    Le64(i) + Zeros(56)
  }

  const OUT_TWEAK: Tweak := Tweak(8, TYPE_OUT | FIRST | FINAL)

  /** The first n output bytes: the blocks 0, 1, ... run through the block function under the final chain value. */
  function Output(f: Process, key: Chain, n: nat): (b: Bytes)
    ensures |b| == n
  {
    seq(n, k requires 0 <= k < n => f(key, CounterBlock(k / 64), OUT_TWEAK)[k % 64])
  }

  function Hash(f: Process, iv: Chain, m: Bytes, hashBitLen: nat): (b: Bytes)
    ensures |b| == (hashBitLen + 7) / 8
  {
    Output(f, ChainAfter(f, iv, m, BlockCount(|m|)), (hashBitLen + 7) / 8)
  }

  // What the program has done before the last block: it always keeps the last block back.

  function Blocks(f: Process, iv: Chain, p: Bytes, n: nat): Chain
    requires 64 * n <= |p|
  {
    if n == 0 then iv else f(Blocks(f, iv, p, n - 1), p[64 * (n - 1)..64 * n], Tweak(64 * n, Flags(n - 1, false)))
  }

  lemma {:induction false} BlocksSame(f: Process, iv: Chain, p: Bytes, q: Bytes, n: nat)
    requires 64 * n <= |p| && 64 * n <= |q| && p[..64 * n] == q[..64 * n]
    ensures Blocks(f, iv, p, n) == Blocks(f, iv, q, n)
  {
    hide Flags;
    if n > 0 {
      assert p[..64 * (n - 1)] == p[..64 * n][..64 * (n - 1)] == q[..64 * (n - 1)];
      assert p[64 * (n - 1)..64 * n] == p[..64 * n][64 * (n - 1)..] == q[64 * (n - 1)..64 * n];
      BlocksSame(f, iv, p, q, n - 1);
    }
  }

  lemma {:induction false} AllButLast(f: Process, iv: Chain, m: Bytes, i: nat)
    requires i < BlockCount(|m|)
    ensures 64 * i <= |m| && ChainAfter(f, iv, m, i) == Blocks(f, iv, m, i)
  {
    hide Flags;
    if i > 0 {
      AllButLast(f, iv, m, i - 1);
      assert Padded(m)[64 * (i - 1)..64 * i] == m[64 * (i - 1)..64 * i];
    }
  }

  // The flags as the program sets and clears them.

  lemma FlagSteps(i: nat)
    ensures Flags(0, false) == FIRST | TYPE_MSG
    ensures Flags(i, false) & !FIRST == Flags(i + 1, false)
    ensures Flags(i, false) | FINAL == Flags(i, true)
  {
  }

  class State {
    const f: Process
    const hashBitLen: nat
    var x: Chain
    var t0: nat
    var t1: bv64
    var bCnt: nat
    const b: array<Byte>

    /** The state after the message m: all its blocks but the last have been processed. */
    ghost predicate Holds(iv: Chain, m: Bytes)
      reads this, b
    {
      var n := BlockCount(|m|) - 1;
      && b.Length == 64 && |m| < 0x1_0000_0000_0000_0000
      && x == Blocks(f, iv, m, n)
      && t0 == 64 * n && t1 == Flags(n, false)
      && bCnt == |m| - 64 * n && b[..bCnt] == m[64 * n..]
    }

    constructor (f: Process, iv: Chain, hashBitLen: nat)
      ensures Holds(iv, []) && fresh(b) && this.f == f && this.hashBitLen == hashBitLen
    {
      this.f, this.hashBitLen := f, hashBitLen;
      x := iv;
      t0, t1, bCnt := 0, FIRST | TYPE_MSG, 0;
      b := new Byte[64];
    }

    /** count blocks of p; the position is a 64-bit number and every block clears the FIRST flag for the next. */
    method ProcessBlock(p: Bytes, count: nat, byteCntAdd: nat)
      requires count > 0 && |p| >= 64 * count && t0 + Sum(count, byteCntAdd) < 0x1_0000_0000_0000_0000
      modifies this`x, this`t0, this`t1
      ensures (x, t0, t1) == Processed(f, old(x), old(t0), old(t1), p, count, byteCntAdd)
    {
      hide Processed, Sum;
      ghost var x0, a0, a1 := x, t0, t1;
      var at, left := 0, count;
      ghost var n := 0;
      ProcessedStep(f, x0, a0, a1, p, 0, byteCntAdd);
      SumSteps(0, count, byteCntAdd);
      while left > 0
        invariant n + left == count && at == 64 * n
        invariant (x, t0, t1) == Processed(f, x0, a0, a1, p, n, byteCntAdd)
        invariant t0 == a0 + Sum(n, byteCntAdd)
      {
        SumSteps(n + 1, count, byteCntAdd);
        ProcessedStep(f, x0, a0, a1, p, n + 1, byteCntAdd);
        t0 := (t0 + byteCntAdd) % 0x1_0000_0000_0000_0000;
        x := f(x, p[at..at + 64], Tweak(t0, t1));
        t1 := t1 & !FIRST;
        at, left := at + 64, left - 1;
        n := n + 1;
      }
    }

    /** The state in terms of the bytes already processed and those that wait. */
    ghost predicate Splits(iv: Chain, done: Bytes, waiting: Bytes)
      reads this, b
    {
      && b.Length == 64 && |done| % 64 == 0
      && x == Blocks(f, iv, done, |done| / 64)
      && t0 == |done| && t1 == Flags(|done| / 64, false)
      && bCnt == |waiting| <= 64 && b[..bCnt] == waiting
    }

    method Update(msg: Bytes, ghost iv: Chain, ghost m: Bytes)
      requires Holds(iv, m) && |m| + |msg| + 64 < 0x1_0000_0000_0000_0000
      modifies this`x, this`t0, this`t1, this`bCnt, b
      ensures Holds(iv, m + msg)
    {
      hide Blocks, Flags, Holds, Splits, BlockCount;
      ghost var done, waiting := m[..64 * (BlockCount(|m|) - 1)], m[64 * (BlockCount(|m|) - 1)..];
      SplitsOfHolds(iv, m);
      var from := 0;
      assert done + waiting + msg[0..] == m + msg;
      if |msg| + bCnt > 64 {
        if bCnt > 0 {
          from := FinishBuffer(msg, iv, done, waiting);
          TakeFront(done, waiting, msg, 0, from);
          done, waiting := done + (waiting + msg[..from]), [];
        }
        if |msg| - from > 64 {
          ghost var start := from;
          from := ProcessMany(msg, from, iv, done);
          TakeFront(done, waiting, msg, start, from);
          done := done + msg[start..from];
        }
      }
      Keep(msg, from, iv, done, waiting);
      Regroup(done, waiting, msg[from..]);
      HoldsOfSplits(iv, done, waiting + msg[from..]);
    }

    lemma SplitsOfHolds(iv: Chain, m: Bytes)
      requires Holds(iv, m)
      ensures var n := BlockCount(|m|) - 1; Splits(iv, m[..64 * n], m[64 * n..]) && bCnt == |m| - 64 * n
      ensures bCnt == 0 ==> m == []
    {
      hide Blocks, Flags;
      var n := BlockCount(|m|) - 1;
      BlocksSame(f, iv, m, m[..64 * n], n);
    }

    lemma HoldsOfSplits(iv: Chain, done: Bytes, waiting: Bytes)
      requires Splits(iv, done, waiting) && |done + waiting| < 0x1_0000_0000_0000_0000
      requires waiting == [] ==> done == []
      ensures Holds(iv, done + waiting)
    {
      hide Blocks, Flags;
      var m := done + waiting;
      assert BlockCount(|m|) - 1 == |done| / 64;
      BlocksSame(f, iv, m, done, |done| / 64);
    }

    /** Fills the buffer from the input and processes it. */
    method FinishBuffer(msg: Bytes, ghost iv: Chain, ghost done: Bytes, ghost waiting: Bytes) returns (n: nat)
      requires Splits(iv, done, waiting) && 0 < bCnt && |msg| > 64 - bCnt && |done| + 64 < 0x1_0000_0000_0000_0000
      modifies this`x, this`t0, this`t1, this`bCnt, b
      ensures n == 64 - old(bCnt) && bCnt == 0 && Splits(iv, done + (waiting + msg[..n]), [])
    {
      hide Blocks, Flags, Processed;
      n := 64 - bCnt;
      if n > 0 {
        forall k | 0 <= k < n { b[bCnt + k] := msg[k]; }
        bCnt := bCnt + n;
      }
      assert b[..] == waiting + msg[..n];
      ProcessedMore(f, iv, done, |done| / 64, b[..], 1);
      SumOfOne(64);
      ProcessBlock(b[..], 1, 64);
      bCnt := 0;
      assert b[..][..64] == b[..];
    }

    /** All but the last block of the input, straight from it. */
    method ProcessMany(msg: Bytes, from: nat, ghost iv: Chain, ghost done: Bytes) returns (to: nat)
      requires Splits(iv, done, []) && from <= |msg| && |msg| - from > 64 && |done| + |msg| - from < 0x1_0000_0000_0000_0000
      modifies this`x, this`t0, this`t1
      ensures from <= to < |msg| <= to + 64 && Splits(iv, done + msg[from..to], [])
    {
      hide Blocks, Flags, Processed;
      var n := (|msg| - from - 1) / 64;
      to := from + 64 * n;
      ProcessedMore(f, iv, done, |done| / 64, msg[from..], n);
      assert msg[from..][..64 * n] == msg[from..to];
      SumOf64(n);
      ProcessBlock(msg[from..], n, 64);
    }

    /** The rest of the input joins the bytes that wait. */
    method Keep(msg: Bytes, from: nat, ghost iv: Chain, ghost done: Bytes, ghost waiting: Bytes)
      requires Splits(iv, done, waiting) && from <= |msg| && bCnt + |msg| - from <= 64
      modifies this`bCnt, b
      ensures Splits(iv, done, waiting + msg[from..])
    {
      hide Blocks, Flags;
      if |msg| - from > 0 {
        forall k | 0 <= k < |msg| - from { b[bCnt + k] := msg[from + k]; }
        bCnt := bCnt + |msg| - from;
      }
      assert b[..bCnt] == waiting + msg[from..];
    }

    /** The last block, filled up with zeros and marked as final, and the output blocks. */
    method Final(ghost iv: Chain, ghost m: Bytes) returns (hashVal: Bytes)
      requires Holds(iv, m)
      modifies this`x, this`t0, this`t1, this`bCnt, b
      ensures hashVal == Hash(f, iv, m, hashBitLen)
    {
      hide Blocks, Flags, Processed, Output;
      ghost var n := BlockCount(|m|) - 1;
      AllButLast(f, iv, m, n);
      FlagSteps(n);
      t1 := t1 | FINAL;
      forall k | bCnt <= k < 64 { b[k] := 0; }
      assert b[..] == Padded(m)[64 * n..64 * (n + 1)];
      ProcessedOne(f, x, t0, t1, b[..], bCnt);
      SumOfOne(bCnt);
      ProcessBlock(b[..], 1, bCnt);
      HashIs(f, iv, m, hashBitLen);
      hashVal := RunOutput();
    }

    /** The block function in counter mode; the chain value is put back after each block. */
    method RunOutput() returns (hashVal: Bytes)
      requires b.Length == 64
      modifies this`x, this`t0, this`t1, this`bCnt, b
      ensures hashVal == Output(f, old(x), (hashBitLen + 7) / 8)
    {
      hide Processed, CounterBlock, Output;
      var byteCnt := (hashBitLen + 7) / 8;
      var key := x;
      hashVal := [];
      var i := 0;
      OutputStarts(f, key);
      while i * 64 < byteCnt
        invariant x == key && hashVal == Output(f, key, if i * 64 < byteCnt then i * 64 else byteCnt)
        decreases byteCnt - i * 64
      {
        var block := CounterBlock(i);
        forall k | 0 <= k < 64 { b[k] := block[k]; }
        t0, t1, bCnt := 0, TYPE_OUT | FIRST | FINAL, 0;
        ProcessedOne(f, x, t0, t1, b[..], 8);
        assert b[..] == block;
        SumOfOne(8);
        ProcessBlock(b[..], 1, 8);
        var n := byteCnt - i * 64;
        if n >= 64 { n := 64; }
        OutputGrows(f, key, i, n);
        hashVal := hashVal + x[..n];
        x := key;
        i := i + 1;
      }
    }
  }

  /** n times add, one at a time. */
  function Sum(n: nat, add: nat): nat {
    if n == 0 then 0 else Sum(n - 1, add) + add
  }

  lemma {:induction false} SumSteps(n: nat, m: nat, add: nat)
    requires n <= m
    ensures Sum(n, add) <= Sum(m, add) && (n == 0 ==> Sum(n, add) == 0) && (n > 0 ==> Sum(n, add) == Sum(n - 1, add) + add)
  {
    if n < m { SumSteps(n, m - 1, add); }
  }

  lemma SumOf64(n: nat)
    ensures Sum(n, 64) == 64 * n
  {
  }

  lemma SumOfOne(add: nat)
    ensures Sum(1, add) == add
  {
    assert Sum(0, add) == 0;
  }

  /** What n blocks of p do to chain value, position and flags. */
  function Processed(f: Process, x: Chain, t0: nat, t1: bv64, p: Bytes, n: nat, add: nat): (Chain, nat, bv64)
    requires 64 * n <= |p|
  {
    if n == 0 then (x, t0, t1)
    else
      var (y, u0, u1) := Processed(f, x, t0, t1, p, n - 1, add);
      (f(y, p[64 * (n - 1)..64 * n], Tweak(u0 + add, u1)), u0 + add, u1 & !FIRST)
  }

  lemma ProcessedOne(f: Process, x: Chain, t0: nat, t1: bv64, p: Bytes, add: nat)
    requires |p| == 64
    ensures Processed(f, x, t0, t1, p, 1, add) == (f(x, p, Tweak(t0 + add, t1)), t0 + add, t1 & !FIRST)
  {
    assert p[64 * 0..64 * 1] == p;
  }

  /** Whole blocks after processed ones get the tweaks of their places. */
  lemma {:induction false} ProcessedMore(f: Process, iv: Chain, done: Bytes, k: nat, p: Bytes, n: nat)
    requires |done| == 64 * k && 64 * n <= |p|
    ensures Processed(f, Blocks(f, iv, done, k), 64 * k, Flags(k, false), p, n, 64) ==
            (Blocks(f, iv, done + p[..64 * n], k + n), 64 * (k + n), Flags(k + n, false))
  {
    hide Flags, Blocks, Processed;
    ProcessedStep(f, Blocks(f, iv, done, k), 64 * k, Flags(k, false), p, n, 64);
    var q := done + p[..64 * n];
    if n == 0 {
      assert q == done;
    } else {
      ProcessedMore(f, iv, done, k, p, n - 1);
      FlagSteps(k + n - 1);
      var before := done + p[..64 * (n - 1)];
      LastOfJoined(done, k, p, n);
      BlocksSame(f, iv, before, q, k + n - 1);
      NextBlock(f, iv, q, k + n - 1);
    }
  }

  lemma LastOfJoined(done: Bytes, k: nat, p: Bytes, n: nat)
    requires |done| == 64 * k && 0 < n && 64 * n <= |p|
    ensures var before, q := done + p[..64 * (n - 1)], done + p[..64 * n];
            && |before| == 64 * (k + n - 1) && |q| == 64 * (k + n)
            && q[..64 * (k + n - 1)] == before[..64 * (k + n - 1)]
            && q[64 * (k + n - 1)..64 * (k + n)] == p[64 * (n - 1)..64 * n]
  {
  }

  lemma ProcessedStep(f: Process, x: Chain, t0: nat, t1: bv64, p: Bytes, n: nat, add: nat)
    requires 64 * n <= |p|
    ensures n == 0 ==> Processed(f, x, t0, t1, p, n, add) == (x, t0, t1)
    ensures n > 0 ==>
              var r := Processed(f, x, t0, t1, p, n - 1, add);
              Processed(f, x, t0, t1, p, n, add) == (f(r.0, p[64 * (n - 1)..64 * n], Tweak(r.1 + add, r.2)), r.1 + add, r.2 & !FIRST)
  {
  }

  lemma NextBlock(f: Process, iv: Chain, q: Bytes, n: nat)
    requires 64 * (n + 1) <= |q|
    ensures Blocks(f, iv, q, n + 1) == f(Blocks(f, iv, q, n), q[64 * n..64 * (n + 1)], Tweak(64 * (n + 1), Flags(n, false)))
  {
  }

  lemma HashIs(f: Process, iv: Chain, m: Bytes, hashBitLen: nat)
    ensures var n := BlockCount(|m|) - 1;
            Hash(f, iv, m, hashBitLen) ==
            Output(f, f(ChainAfter(f, iv, m, n), Padded(m)[64 * n..64 * (n + 1)], Tweak(|m|, Flags(n, true))), (hashBitLen + 7) / 8)
  {
    hide Output, Flags;
  }

  lemma OutputStarts(f: Process, key: Chain)
    ensures Output(f, key, 0) == []
  {
  }

  lemma OutputGrows(f: Process, key: Chain, i: nat, n: nat)
    requires n <= 64
    ensures Output(f, key, i * 64 + n) == Output(f, key, i * 64) + f(key, CounterBlock(i), OUT_TWEAK)[..n]
  {
    hide CounterBlock;
  }

  lemma Regroup(x: Bytes, y: Bytes, z: Bytes)
    ensures x + (y + z) == x + y + z
  {
  }

  lemma TakeFront(done: Bytes, waiting: Bytes, msg: Bytes, start: nat, from: nat)
    requires start <= from <= |msg|
    ensures done + (waiting + msg[start..from]) + [] + msg[from..] == done + waiting + msg[start..]
    ensures waiting == [] ==> done + msg[start..from] + waiting + msg[from..] == done + waiting + msg[start..]
    ensures msg[0..from] == msg[..from]
  {
    assert msg[start..] == msg[start..from] + msg[from..];
  }

  method SkeinHash(f: Process, iv: Chain, data: Bytes, hashBitLen: nat) returns (hashVal: Bytes)
    requires |data| + 64 < 0x1_0000_0000_0000_0000
    ensures hashVal == Hash(f, iv, data, hashBitLen)
  {
    hide Blocks, Flags, Hash;
    var s := new State(f, iv, hashBitLen);
    s.Update(data, iv, []);
    assert [] + data == data;
    hashVal := s.Final(iv, data);
  }
}
