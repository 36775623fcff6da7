/** How c_groestl.c feeds a message of bytes, in any pieces, to any compression function (the padding rule of the
    Groestl submission). */
module Groestl {
  import opened MachineWords
  import opened Powers

  type Bytes = seq<Byte>

  /** 64 bytes of chaining value. */
  type Chain = s: Bytes | |s| == 64 witness seq(64, _ => 0)

  type Compress = (Chain, Bytes) -> Chain
  type Output = Chain -> Chain

  // The specification.

  /** A number as eight bytes, highest first, by its two halves. */
  function LengthField(n: nat): (b: Bytes)
    requires n < 0x1_0000_0000_0000_0000
    ensures |b| == 8
  {
    Be32Bytes(n / 0x1_0000_0000) + Be32Bytes(n % 0x1_0000_0000)
  }

  /** Blocks of a padded message of n bytes. */
  function BlockCount(n: nat): nat { if n % 64 < 56 then n / 64 + 1 else n / 64 + 2 }

  function Padded(m: Bytes): (p: Bytes)
    requires BlockCount(|m|) < 0x1_0000_0000_0000_0000
    ensures |p| == 64 * BlockCount(|m|)
  {
    m + [0x80] + Zeros(64 * BlockCount(|m|) - |m| - 9) + LengthField(BlockCount(|m|))
  }

  function Blocks(f: Compress, iv: Chain, p: Bytes, n: nat): Chain
    requires 64 * n <= |p|
  {
    if n == 0 then iv else f(Blocks(f, iv, p, n - 1), p[64 * (n - 1)..64 * n])
  }

  function Hash(f: Compress, g: Output, iv: Chain, m: Bytes): (b: Bytes)
    requires BlockCount(|m|) < 0x1_0000_0000_0000_0000
    ensures |b| == 32
  {
    g(Blocks(f, iv, Padded(m), BlockCount(|m|)))[32..]
  }

  lemma {:induction false} BlocksSame(f: Compress, iv: Chain, p: Bytes, q: Bytes, n: nat)
    requires 64 * n <= |p| && 64 * n <= |q| && p[..64 * n] == q[..64 * n]
    ensures Blocks(f, iv, p, n) == Blocks(f, iv, q, n)
  {
    if n > 0 {
      assert p[..64 * (n - 1)] == p[..64 * n][..64 * (n - 1)] == q[..64 * (n - 1)];
      assert p[64 * (n - 1)..64 * n] == p[..64 * n][64 * (n - 1)..] == q[64 * (n - 1)..64 * n];
      BlocksSame(f, iv, p, q, n - 1);
    }
  }

  // The block counter in two words.

  datatype Counter = Counter(low: Word, high: Word)

  function CounterOf(n: nat): Counter { Counter(n % 0x1_0000_0000, n / 0x1_0000_0000 % 0x1_0000_0000) }

  function Incremented(c: Counter): Counter {
    var low := (c.low + 1) % 0x1_0000_0000;
    Counter(low, if low == 0 then (c.high + 1) % 0x1_0000_0000 else c.high)
  }

  lemma IncrementCounts(n: nat)
    requires n + 1 < 0x1_0000_0000_0000_0000
    ensures Incremented(CounterOf(n)) == CounterOf(n + 1)
  {
    var low, high := n % 0x1_0000_0000, n / 0x1_0000_0000;
    DivMod(n, 0x1_0000_0000);
    if low + 1 == 0x1_0000_0000 {
      QuotientUnique(n + 1, 0x1_0000_0000, high + 1, 0);
    } else {
      QuotientUnique(n + 1, 0x1_0000_0000, high, low + 1);
    }
  }

  class State {
    const f: Compress
    const g: Output
    var chaining: Chain
    var counter: Counter
    const buffer: array<Byte>
    var bufPtr: nat

    /** The state after the message m: its whole blocks are compressed and counted, the rest waits. */
    ghost predicate Holds(iv: Chain, m: Bytes)
      reads this, buffer
    {
      && buffer.Length == 64 && |m| < 0x1_0000_0000_0000_0000
      && chaining == Blocks(f, iv, m, |m| / 64)
      && counter == CounterOf(|m| / 64)
      && bufPtr == |m| % 64
      && buffer[..bufPtr] == m[64 * (|m| / 64)..]
    }

    constructor (f: Compress, g: Output, iv: Chain)
      ensures Holds(iv, []) && fresh(buffer) && this.f == f && this.g == g
    {
      this.f, this.g := f, g;
      chaining, counter, bufPtr := iv, Counter(0, 0), 0;
      buffer := new Byte[64];
    }

    /** The whole blocks of input from at on; before it lies the message m of whole blocks. */
    method Transform(input: Bytes, at: nat, ghost iv: Chain, ghost m: Bytes)
      requires at <= |input| && |m| % 64 == 0 && |m| + |input| - at < 0x1_0000_0000_0000_0000
      requires chaining == Blocks(f, iv, m, |m| / 64) && counter == CounterOf(|m| / 64)
      modifies this`chaining, this`counter
      ensures var p := m + input[at..];
              chaining == Blocks(f, iv, p, |p| / 64) && counter == CounterOf(|p| / 64)
    {
      hide CounterOf, Incremented;
      ghost var p := m + input[at..];
      BlocksSame(f, iv, m, p, |m| / 64);
      var from, msglen := at, |input| - at;
      ghost var n := |m| / 64;
      while msglen >= 64
        invariant 0 <= msglen && from + msglen == |input| && msglen == |p| - 64 * n
        invariant chaining == Blocks(f, iv, p, n) && counter == CounterOf(n)
      {
        assert input[from..from + 64] == p[64 * n..64 * (n + 1)];
        IncrementCounts(n);
        chaining := f(chaining, input[from..from + 64]);
        counter := Incremented(counter);
        n := n + 1;
        from, msglen := from + 64, msglen - 64;
      }
    }

    /** One piece of the message; its length is an int in the program. */
    method Update(input: Bytes, ghost iv: Chain, ghost m: Bytes)
      requires Holds(iv, m) && |input| < 0x8000_0000 && |m| + |input| < 0x1_0000_0000_0000_0000
      modifies this`chaining, this`counter, this`bufPtr, buffer
      ensures Holds(iv, m + input)
    {
      hide Blocks, CounterOf;
      ghost var whole := m[..64 * (|m| / 64)];
      ghost var waiting := buffer[..bufPtr];
      assert m == whole + waiting;
      BlocksSame(f, iv, m, whole, |m| / 64);
      var index := 0;
      if bufPtr > 0 {
        index := FillBuffer(input, waiting);
        if bufPtr < 64 {
          StillWaiting(f, iv, whole, waiting, input);
          return;
        }
        ghost var first := waiting + input[..index];
        ShipFull(iv, whole, first);
        assert m + input == (whole + first) + input[index..];
        whole := whole + first;
      }
      assert input[0..] == input;
      assert m + input == whole + input[index..];
      DigestBulk(input, index, iv, whole);
    }

    /** The buffer is full: its block is compressed. */
    method ShipFull(ghost iv: Chain, ghost whole: Bytes, ghost first: Bytes)
      requires buffer.Length == 64 && bufPtr == 64 && buffer[..bufPtr] == first
      requires |whole| % 64 == 0 && |whole| + 64 < 0x1_0000_0000_0000_0000
      requires chaining == Blocks(f, iv, whole, |whole| / 64) && counter == CounterOf(|whole| / 64)
      modifies this`chaining, this`counter, this`bufPtr
      ensures bufPtr == 0
      ensures var p := whole + first;
              |p| == |whole| + 64 && chaining == Blocks(f, iv, p, |p| / 64) && counter == CounterOf(|p| / 64)
    {
      hide Blocks, CounterOf;
      bufPtr := 0;
      assert buffer[..] == first && first[0..] == first;
      Transform(buffer[..], 0, iv, whole);
    }

    /** What is left of the input, when nothing waits in the buffer. */
    method DigestBulk(input: Bytes, from: nat, ghost iv: Chain, ghost whole: Bytes)
      requires buffer.Length == 64 && bufPtr == 0 && from <= |input| && |whole| % 64 == 0
      requires |whole| + |input| - from < 0x1_0000_0000_0000_0000
      requires chaining == Blocks(f, iv, whole, |whole| / 64) && counter == CounterOf(|whole| / 64)
      modifies this`chaining, this`counter, this`bufPtr, buffer
      ensures Holds(iv, whole + input[from..])
    {
      hide Blocks, CounterOf;
      Transform(input, from, iv, whole);
      var index := from + (|input| - from) / 64 * 64;
      RestOf(whole, input, from);
      KeepRest(input, index);
    }

    /** Padding, the number of blocks and the output transformation. */
    method Final(ghost iv: Chain, ghost m: Bytes) returns (digest: Bytes)
      requires Holds(iv, m) && |m| + 64 < 0x1_0000_0000_0000_0000
      modifies this, buffer
      ensures digest == Hash(f, g, iv, m)
    {
      hide Blocks, CounterOf, Incremented, LengthField, Hash;
      ghost var whole, waiting := m[..64 * (|m| / 64)], buffer[..bufPtr];
      assert m == whole + waiting;
      BlocksSame(f, iv, m, whole, |m| / 64);
      buffer[bufPtr] := 0x80;
      bufPtr := bufPtr + 1;
      if bufPtr > 56 {
        TwoPaddingBlocks(m, waiting);
        ShipFirst(iv, whole, waiting);
        whole := whole + (waiting + [0x80] + Zeros(63 - |waiting|));
        LastBlock(iv, whole, Zeros(56));
      } else {
        OnePaddingBlock(m, waiting);
        ZeroTo(56, waiting + [0x80]);
        LastBlock(iv, whole, waiting + [0x80] + Zeros(55 - |waiting|));
      }
      HashIs(f, g, iv, m);
      digest := g(chaining)[32..];
    }

    /** The rest of the message fills a block of its own; the next one starts with zeros only. */
    method ShipFirst(ghost iv: Chain, ghost whole: Bytes, ghost waiting: Bytes)
      requires buffer.Length == 64 && bufPtr == |waiting| + 1 && 56 < bufPtr <= 64 && buffer[..bufPtr] == waiting + [0x80]
      requires |whole| % 64 == 0 && |whole| + 64 < 0x1_0000_0000_0000_0000
      requires chaining == Blocks(f, iv, whole, |whole| / 64) && counter == CounterOf(|whole| / 64)
      modifies this, buffer
      ensures bufPtr == 56 && buffer[..56] == Zeros(56)
      ensures var p := whole + (waiting + [0x80] + Zeros(63 - |waiting|));
              |p| == |whole| + 64 && chaining == Blocks(f, iv, p, |p| / 64) && counter == CounterOf(|p| / 64)
    {
      hide Blocks, CounterOf;
      ZeroTo(64, waiting + [0x80]);
      ghost var first := waiting + [0x80] + Zeros(63 - |waiting|);
      assert buffer[..] == first && first[0..] == first;
      Transform(buffer[..], 0, iv, whole);
      bufPtr := 0;
      ZeroTo(56, []);
      assert [] + Zeros(56) == Zeros(56);
    }

    method ZeroTo(n: nat, ghost w: Bytes)
      requires buffer.Length == 64 && bufPtr <= n <= 64 && buffer[..bufPtr] == w
      modifies this`bufPtr, buffer
      ensures bufPtr == n && buffer[..n] == w + Zeros(n - |w|)
    {
      while bufPtr < n
        invariant |w| <= bufPtr <= n && buffer[..bufPtr] == w + Zeros(bufPtr - |w|)
      {
        buffer[bufPtr] := 0;
        bufPtr := bufPtr + 1;
        assert buffer[..bufPtr] == buffer[..bufPtr - 1] + [0];
      }
    }

    /** The block counter of the last block goes into its last eight bytes, lowest byte last, and is used up by it. */
    method LastBlock(ghost iv: Chain, ghost whole: Bytes, ghost head: Bytes)
      requires buffer.Length == 64 && bufPtr == 56 && buffer[..56] == head && |whole| % 64 == 0
      requires |whole| / 64 + 1 < 0x1_0000_0000_0000_0000
      requires chaining == Blocks(f, iv, whole, |whole| / 64) && counter == CounterOf(|whole| / 64)
      modifies this, buffer
      ensures var n := |whole| / 64 + 1;
              chaining == Blocks(f, iv, whole + (head + LengthField(n)), n)
    {
      hide Blocks, CounterOf, Incremented, LengthField;
      ghost var n := |whole| / 64 + 1;
      IncrementCounts(n - 1);
      counter := Incremented(counter);
      FieldOfCounter(n);
      bufPtr := 64;
      PutLow();
      PutHigh();
      assert buffer[..] == head + LengthField(n);
      OneMoreBlock(f, iv, whole, buffer[..]);
      chaining := f(chaining, buffer[..]);
      counter := Incremented(counter);
    }

    method PutLow()
      requires buffer.Length == 64 && bufPtr == 64
      modifies this`counter, this`bufPtr, buffer
      ensures bufPtr == 60 && buffer[60..] == Be32Bytes(old(counter.low)) && buffer[..60] == old(buffer[..60])
      ensures counter.high == old(counter.high)
    {
      ghost var n := counter.low;
      while bufPtr > 60
        invariant 60 <= bufPtr <= 64 && counter.high == old(counter.high)
        invariant counter.low == Shifted(n, 64 - bufPtr)
        invariant forall k :: bufPtr <= k < 64 ==> buffer[k] == Shifted(n, 63 - k) % 0x100
        invariant forall k :: 0 <= k < 60 ==> buffer[k] == old(buffer[k])
      {
        bufPtr := bufPtr - 1;
        buffer[bufPtr] := counter.low % 0x100;
        counter := counter.(low := counter.low / 0x100);
      }
      BytesByShifts(n);
    }

    method PutHigh()
      requires buffer.Length == 64 && bufPtr == 60
      modifies this`counter, this`bufPtr, buffer
      ensures bufPtr == 56 && buffer[56..60] == Be32Bytes(old(counter.high))
      ensures buffer[..56] == old(buffer[..56]) && buffer[60..] == old(buffer[60..])
    {
      ghost var n := counter.high;
      while bufPtr > 56
        invariant 56 <= bufPtr <= 60
        invariant counter.high == Shifted(n, 60 - bufPtr)
        invariant forall k :: bufPtr <= k < 60 ==> buffer[k] == Shifted(n, 59 - k) % 0x100
        invariant forall k :: 0 <= k < 56 || 60 <= k < 64 ==> buffer[k] == old(buffer[k])
      {
        bufPtr := bufPtr - 1;
        buffer[bufPtr] := counter.high % 0x100;
        counter := counter.(high := counter.high / 0x100);
      }
      BytesByShifts(n);
    }

    /** Bytes go into the buffer until it is full or there are no more. */
    method FillBuffer(input: Bytes, ghost waiting: Bytes) returns (index: nat)
      requires buffer.Length == 64 && 0 < bufPtr < 64 && buffer[..bufPtr] == waiting
      modifies this`bufPtr, buffer
      ensures index <= |input| && bufPtr == |waiting| + index <= 64 && (bufPtr < 64 ==> index == |input|)
      ensures buffer[..bufPtr] == waiting + input[..index]
      ensures index == |input| ==> input[..index] == input
    {
      index := 0;
      while bufPtr < 64 && index < |input|
        invariant index <= |input| && bufPtr == |waiting| + index <= 64
        invariant buffer[..bufPtr] == waiting + input[..index]
      {
        buffer[bufPtr] := input[index];
        bufPtr := bufPtr + 1;
        index := index + 1;
        assert buffer[..bufPtr] == buffer[..bufPtr - 1] + [input[index - 1]];
      }
    }

    method KeepRest(input: Bytes, at: nat)
      requires buffer.Length == 64 && at <= |input| < at + 64 && bufPtr == 0
      modifies this`bufPtr, buffer
      ensures bufPtr == |input| - at && buffer[..bufPtr] == input[at..]
    {
      var index := at;
      while index < |input|
        invariant at <= index <= |input| && bufPtr == index - at && buffer[..bufPtr] == input[at..index]
      {
        buffer[bufPtr] := input[index];
        bufPtr := bufPtr + 1;
        index := index + 1;
        assert buffer[..bufPtr] == buffer[..bufPtr - 1] + [input[index - 1]];
      }
    }
  }

  lemma StillWaiting(f: Compress, iv: Chain, whole: Bytes, waiting: Bytes, input: Bytes)
    requires |whole| % 64 == 0 && |waiting| + |input| < 64
    ensures var m := whole + waiting + input;
            && |m| / 64 == |whole| / 64 && |m| % 64 == |waiting| + |input| && m[64 * (|m| / 64)..] == waiting + input
            && Blocks(f, iv, m, |m| / 64) == Blocks(f, iv, whole, |whole| / 64)
  {
    hide Blocks;
    BlocksSame(f, iv, whole + waiting + input, whole, |whole| / 64);
  }

  lemma RestOf(whole: Bytes, input: Bytes, from: nat)
    requires |whole| % 64 == 0 && from <= |input|
    ensures var p, at := whole + input[from..], from + (|input| - from) / 64 * 64;
            && at <= |input| < at + 64 && |p| % 64 == |input| - at && p[64 * (|p| / 64)..] == input[at..]
  {
    var p, at := whole + input[from..], from + (|input| - from) / 64 * 64;
    assert |p| / 64 == |whole| / 64 + (|input| - from) / 64;
  }

  /** A word after k right shifts by eight bits. */
  function Shifted(n: Word, k: nat): Word {
    if k == 0 then n else Shifted(n, k - 1) / 0x100
  }

  lemma BytesByShifts(n: Word)
    ensures Be32Bytes(n) == [Shifted(n, 3) % 0x100, Shifted(n, 2) % 0x100, Shifted(n, 1) % 0x100, Shifted(n, 0) % 0x100]
  {
    assert Shifted(n, 1) == n / 0x100 && Shifted(n, 2) == n / 0x100 / 0x100 && Shifted(n, 3) == n / 0x100 / 0x100 / 0x100;
  }

  lemma FieldOfCounter(n: nat)
    requires n < 0x1_0000_0000_0000_0000
    ensures LengthField(n) == Be32Bytes(CounterOf(n).high) + Be32Bytes(CounterOf(n).low)
  {
    hide Be32Bytes;
  }

  lemma OneMoreBlock(f: Compress, iv: Chain, whole: Bytes, block: Bytes)
    requires |whole| % 64 == 0 && |block| == 64
    ensures Blocks(f, iv, whole + block, |whole| / 64 + 1) == f(Blocks(f, iv, whole, |whole| / 64), block)
  {
    var p, n := whole + block, |whole| / 64;
    BlocksSame(f, iv, p, whole, n);
    assert p[64 * n..64 * (n + 1)] == block;
  }

  lemma OnePaddingBlock(m: Bytes, waiting: Bytes)
    requires BlockCount(|m|) < 0x1_0000_0000_0000_0000 && |m| % 64 < 56 && waiting == m[64 * (|m| / 64)..]
    ensures BlockCount(|m|) == |m| / 64 + 1
    ensures Padded(m) == m[..64 * (|m| / 64)] + ((waiting + [0x80] + Zeros(55 - |waiting|)) + LengthField(BlockCount(|m|)))
  {
    hide LengthField;
  }

  lemma TwoPaddingBlocks(m: Bytes, waiting: Bytes)
    requires BlockCount(|m|) < 0x1_0000_0000_0000_0000 && |m| % 64 >= 56 && waiting == m[64 * (|m| / 64)..]
    ensures BlockCount(|m|) == |m| / 64 + 2
    ensures Padded(m) == m[..64 * (|m| / 64)] + (waiting + [0x80] + Zeros(63 - |waiting|)) + (Zeros(56) + LengthField(BlockCount(|m|)))
  {
    hide LengthField;
  }

  lemma HashIs(f: Compress, g: Output, iv: Chain, m: Bytes)
    requires BlockCount(|m|) < 0x1_0000_0000_0000_0000
    ensures Hash(f, g, iv, m) == g(Blocks(f, iv, Padded(m), BlockCount(|m|)))[32..]
  {
  }

  const IV: Chain := Zeros(62) + [1, 0]

  method GroestlHash(f: Compress, g: Output, data: Bytes) returns (digest: Bytes)
    requires |data| < 0x8000_0000
    ensures digest == Hash(f, g, IV, data)
  {
    hide Hash, Blocks, CounterOf, IV;
    var s := new State(f, g, IV);
    s.Update(data, IV, []);
    assert [] + data == data;
    digest := s.Final(IV, data);
  }
}
