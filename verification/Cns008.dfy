/** One step of the memory-hard loop as CNS008 words it, with its 8-byte arithmetic, and the change of variant 1 as a
    table of bits; the plain step of the model is that step. */
module Cns008 {
  import opened Powers
  import opened CryptoNight

  /** The 21 low bits of the block, with the last four cleared: a byte address in the scratchpad. */
  function Address(a: Block): (n: nat)
    ensures n % 16 == 0 && n + 16 <= 2097152
  {
    BlockAligned(a.lo / 2097152, a.lo % 2097152);
    a.lo % 2097152 - a.lo % 16
  }

  lemma BlockAligned(q: nat, m: nat)
    requires m < 2097152
    ensures (2097152 * q + m) % 16 == m % 16 && (m - m % 16) % 16 == 0 && m - m % 16 + 16 <= 2097152
  {
    assert 2097152 * q + m == 16 * (131072 * q + m / 16) + m % 16;
  }

  /** The product of the low halves, with its own halves exchanged. */
  function EightByteMul(x: Block, y: Block): Block {
    ProductHalves(x.lo, y.lo);
    Block(x.lo * y.lo / 0x1_0000_0000_0000_0000, x.lo * y.lo % 0x1_0000_0000_0000_0000)
  }

  function EightByteAdd(x: Block, y: Block): Block {
    Block((x.lo + y.lo) % 0x1_0000_0000_0000_0000, (x.hi + y.hi) % 0x1_0000_0000_0000_0000)
  }

  function Xor(x: Block, y: Block): Block {
    Block(WordXor(x.lo, y.lo), WordXor(x.hi, y.hi))
  }

  function WordXor(x: U64, y: U64): U64 { (x as bv64 ^ y as bv64) as int }

  function Load(mem: Memory, address: nat): Block
    requires address % 16 == 0 && address + 16 <= 2097152
  {
    Block(mem[address / 8], mem[address / 8 + 1])
  }

  function Store(mem: Memory, address: nat, x: Block): Memory
    requires address % 16 == 0 && address + 16 <= 2097152
  {
    mem[..address / 8] + [x.lo, x.hi] + mem[address / 8 + 2..]
  }

  /** What variant 1 adds to a byte with the given bits 5, 4 and 0. */
  const FLIPS: seq<bv8> := [0x10, 0x00, 0x30, 0x00, 0x10, 0x10, 0x30, 0x10]

  function Flipped(x: bv8): bv8 { x ^ FLIPS[4 * Bit(x, 5) + 2 * Bit(x, 4) + Bit(x, 0)] }

  function Bit(x: bv8, k: nat): (b: nat)
    requires k < 8
    ensures b <= 1
  {
    if (x >> k) & 1 == 1 then 1 else 0
  }

  /** Byte 11 of the block, which is byte 3 of its high half, is changed. */
  function Tweaked(x: Block): Block {
    var byte := x.hi / 0x100_0000 % 0x100;
    ByteExchanged(x.hi, Flipped(byte as bv8) as int);
    Block(x.lo, x.hi - byte * 0x100_0000 + (Flipped(byte as bv8) as int) * 0x100_0000)
  }

  lemma ByteExchanged(hi: U64, b: nat)
    requires b < 0x100
    ensures 0 <= hi - hi / 0x100_0000 % 0x100 * 0x100_0000 + b * 0x100_0000 < 0x1_0000_0000_0000_0000
    ensures hi - hi / 0x100_0000 % 0x100 * 0x100_0000 == hi / 0x1_0000_0000 * 0x1_0000_0000 + hi % 0x100_0000
  {
    assert hi / 0x100_0000 / 0x100 == hi / 0x1_0000_0000;
    assert hi == hi / 0x100_0000 * 0x100_0000 + hi % 0x100_0000;
  }

  function StdStep(round: AesRound, variant: bool, tweak: U64, s: State): State {
    var at := Address(s.a);
    var b := round(Load(s.mem, at), s.a);
    var pad := Store(s.mem, at, if variant then Tweaked(Xor(b, s.b)) else Xor(b, s.b));
    var to := Address(b);
    var a := EightByteAdd(s.a, EightByteMul(b, Load(pad, to)));
    State(Xor(Load(pad, to), a), b,
          Store(pad, to, if variant then Block(a.lo, WordXor(a.hi, tweak)) else a))
  }

  lemma FlippedIs(x: bv8)
    ensures Variant1Byte(x) == Flipped(x)
  {
  }

  lemma TweakedIs(x: Block)
    ensures Variant1(x, true) == Tweaked(x)
  {
    hide Variant1Byte, Flipped;
    var byte := x.hi / 0x100_0000 % 0x100;
    FlippedIs(byte as bv8);
    ByteExchanged(x.hi, Flipped(byte as bv8) as int);
  }

  lemma AddressIs(a: Block)
    ensures Address(a) == 16 * E2i(a) && Address(a) / 8 == 2 * E2i(a)
  {
    hide E2i;
    SelectedStart(a);
    var q, m, r := a.lo / 2097152, a.lo % 2097152, a.lo % 16;
    DivMod(a.lo, 2097152);
    BlockAligned(q, m);
    QuotientUnique(a.lo - r, 2097152, q, m - r);
  }

  lemma StoreIs(mem: Memory, e: nat, x: Block)
    requires e < 131072
    ensures Store(mem, 16 * e, x) == Put(mem, e, x) && Load(mem, 16 * e) == BlockAt(mem, e)
  {
  }

  lemma WordXorIs(x: U64, y: U64)
    ensures Xor64(x, y) == WordXor(x, y)
  {
  }

  lemma XorIs(x: Block, y: Block)
    ensures XorBlocks(x, y) == Xor(x, y)
  {
    hide Xor64, WordXor;
    WordXorIs(x.lo, y.lo);
    WordXorIs(x.hi, y.hi);
  }

  /** The plain step of the model is the step of the standard. */
  lemma StepIsStd(round: AesRound, variant: bool, tweak: U64, s: State)
    ensures PlainStep(round, variant, tweak, s) == StdStep(round, variant, tweak, s)
  {
    hide E2i, Address, Put, Store, BlockAt, Load, Xor64, XorBlocks, Xor, Variant1, Tweaked, MulSumXor;
    var e := E2i(s.a);
    AddressIs(s.a);
    StoreIs(s.mem, e, s.b);
    var b := round(BlockAt(s.mem, e), s.a);
    XorIs(b, s.b);
    var x := XorBlocks(b, s.b);
    TweakedIs(x);
    var y := Variant1(x, variant);
    assert y == if variant then Tweaked(x) else x by { NotTweaked(x); }
    StoreIs(s.mem, e, y);
    AddressIs(b);
    MulSumIs(b, s.a, Put(s.mem, e, y), E2i(b), variant, tweak);
  }

  lemma NotTweaked(x: Block)
    ensures Variant1(x, false) == x
  {
  }

  lemma MulSumIs(c: Block, a: Block, mem: Memory, f: nat, variant: bool, tweak: U64)
    requires f < 131072
    ensures var d := Load(mem, 16 * f);
            var sum := EightByteAdd(a, EightByteMul(c, d));
            MulSumXor(c, a, mem, f, variant, tweak) ==
            State(Xor(d, sum), c, Store(mem, 16 * f, if variant then Block(sum.lo, WordXor(sum.hi, tweak)) else sum))
  {
    hide Xor64, WordXor, Store, Put, Load, BlockAt;
    StoreIs(mem, f, c);
    var d := Load(mem, 16 * f);
    var sum := EightByteAdd(a, EightByteMul(c, d));
    WordXorIs(d.lo, sum.lo);
    WordXorIs(d.hi, sum.hi);
    WordXorIs(sum.hi, tweak);
    StoreIs(mem, f, if variant then Block(sum.lo, WordXor(sum.hi, tweak)) else sum);
  }
}
