/** The memory-hard loop of cryptonight.c: its 64-bit arithmetic, its scratchpad accesses, and the unrolled loop
    against plain steps, for any AES round function (section 4 of CNS008). */
module CryptoNight {
  import opened Powers

  /** uint64_t */
  type U64 = x: int | 0 <= x < 0x1_0000_0000_0000_0000

  const TWO32: int := 0x1_0000_0000
  const TWO64: int := 0x1_0000_0000_0000_0000

  function Wrap(x: nat): U64 { x % 0x1_0000_0000_0000_0000 }

  // 64 x 64 -> 128 bit multiplication.

  /** A sum that wraps is smaller than either summand. */
  lemma CarrySeen(x: U64, y: U64)
    ensures x + y == Wrap(x + y) + (if Wrap(x + y) < x then TWO64 else 0)
  {
  }

  lemma HalvesMultiply(a: nat, b: nat, c: nat, d: nat)
    ensures (a * TWO32 + b) * (c * TWO32 + d) == a * c * TWO64 + (a * d + b * c) * TWO32 + b * d
  {
    Distribute(a * TWO32, b, c * TWO32 + d);
    Associate(a, TWO32, c * TWO32 + d);
    assert a * (TWO32 * (c * TWO32 + d)) == a * c * TWO64 + a * d * TWO32 by {
      assert TWO32 * (c * TWO32 + d) == c * TWO64 + d * TWO32;
      DistributeLeft(a, c * TWO64, d * TWO32);
      Associate(a, c, TWO64);
      Associate(a, d, TWO32);
    }
    assert b * (c * TWO32 + d) == b * c * TWO32 + b * d by {
      DistributeLeft(b, c * TWO32, d);
      Associate(b, c, TWO32);
    }
  }

  /** The product of two numbers below 2^32 fits in 64 bits with room for two more such numbers. */
  lemma ProductFits(x: nat, y: nat)
    requires x < TWO32 && y < TWO32
    ensures 0 <= x * y <= TWO64 - 2 * TWO32 + 1
  {
    NonNegative(x, y);
    LessEqTimes(x, 0xffff_ffff, y);
    LessEqTimes(y, 0xffff_ffff, 0xffff_ffff);
  }

  method Mul128(multiplier: U64, multiplicand: U64) returns (lo: U64, hi: U64)
    ensures lo + hi * TWO64 == multiplier * multiplicand
  {
    var a, b := multiplier / TWO32, multiplier % TWO32;
    var c, d := multiplicand / TWO32, multiplicand % TWO32;
    ProductFits(a, c);
    ProductFits(a, d);
    ProductFits(b, c);
    ProductFits(b, d);
    HalvesMultiply(a, b, c, d);
    lo, hi := AddPartialProducts(a * c, a * d, b * c, b * d);
    DivMod(multiplier, TWO32);
    DivMod(multiplicand, TWO32);
  }

  /** The four partial products at their places; both carries are caught. */
  method AddPartialProducts(ac: U64, ad: U64, bc: U64, bd: U64) returns (lo: U64, hi: U64)
    requires ac <= TWO64 - 2 * TWO32 + 1 && ad <= TWO64 - 2 * TWO32 + 1
    requires bc <= TWO64 - 2 * TWO32 + 1 && bd <= TWO64 - 2 * TWO32 + 1
    ensures lo + hi * TWO64 == ac * TWO64 + (ad + bc) * TWO32 + bd
  {
    var adbc := Wrap(ad + bc);
    var adbcCarry := if adbc < ad then 1 else 0;
    CarrySeen(ad, bc);
    var shifted := Wrap(adbc * TWO32);
    ShiftedParts(adbc);
    lo := Wrap(bd + shifted);
    var loCarry := if lo < bd then 1 else 0;
    CarrySeen(bd, shifted);
    var sum := ac + adbc / TWO32 + adbcCarry * TWO32 + loCarry;
    assert lo + sum * TWO64 == ac * TWO64 + (ad + bc) * TWO32 + bd;
    hi := Wrap(sum);
  }

  /** What a left shift by 32 keeps and what it loses. */
  lemma ShiftedParts(x: U64)
    ensures x * TWO32 == x / TWO32 * TWO64 + Wrap(x * TWO32)
  {
  }

  // Blocks of 16 bytes as pairs of 64-bit halves, and the scratchpad of MEMORY bytes as halves.

  datatype Block = Block(lo: U64, hi: U64)

  const MEMORY: nat := 2097152
  const BLOCKS: nat := 131072
  const ITER: nat := 1048576

  type Memory = s: seq<U64> | |s| == 262144 witness seq(262144, _ => 0)

  function Xor64(x: U64, y: U64): U64 { (x as bv64 ^ y as bv64) as int }

  function XorBlocks(x: Block, y: Block): Block { Block(Xor64(x.lo, y.lo), Xor64(x.hi, y.hi)) }

  /** The number of the block that an address block selects. */
  function E2i(a: Block): (e: nat)
    ensures e < BLOCKS && 16 * e + 16 <= MEMORY
  {
    BlockSelected(a.lo);
    And(a.lo / 16, MEMORY / 16 - 1)
  }

  /** The address without its low four bits, taken round the scratchpad, is where that block starts. */
  lemma SelectedStart(a: Block)
    ensures 16 * E2i(a) == (a.lo - a.lo % 16) % MEMORY
  {
    hide And;
    BlockSelected(a.lo);
  }

  /** Masking with MEMORY / 16 - 1 takes the remainder, as MEMORY / 16 is a power of two. */
  lemma BlockSelected(x: nat)
    ensures And(x / 16, MEMORY / 16 - 1) == x / 16 % BLOCKS
    ensures 16 * (x / 16 % BLOCKS) == (x - x % 16) % MEMORY && x / 16 % BLOCKS < BLOCKS
  {
    Pow2Of32();
    Pow2Sum(8, 8);
    assert Pow2(17) == 2 * Pow2(16) == BLOCKS;
    MaskIsRemainder(x / 16, 17);
  }

  function BlockAt(mem: Memory, e: nat): Block
    requires e < 131072
  {
    Block(mem[2 * e], mem[2 * e + 1])
  }

  function Put(mem: Memory, e: nat, b: Block): Memory
    requires e < 131072
  {
    mem[2 * e := b.lo][2 * e + 1 := b.hi]
  }

  /** Variant 1 changes two bits of byte 11 of a block, which is byte 3 of its high half. */
  function Variant1Byte(x: bv8): bv8 {
    var index := (((x >> 3) & 6) | (x & 1)) << 1;
    var table: bv32 := 0x75310;
    x ^ ((table >> index) & 0x30) as bv8
  }

  /** Only bits 4 and 5 change, and which of them depends only on bits 0, 4 and 5. */
  lemma Variant1Bits(x: bv8)
    ensures Variant1Byte(x) & 0xcf == x & 0xcf
  {
  }

  function Variant1High(hi: U64): U64 {
    var byte := hi / 0x100_0000 % 0x100;
    hi / 0x1_0000_0000 * 0x1_0000_0000 + (Variant1Byte(byte as bv8) as int) * 0x100_0000 + hi % 0x100_0000
  }

  function Variant1(b: Block, variant: bool): Block {
    if variant then Block(b.lo, Variant1High(b.hi)) else b
  }

  // One plain step, from the addresses, blocks and memory before it to those after it.

  datatype State = State(a: Block, b: Block, mem: Memory)

  type AesRound = (Block, Block) -> Block

  /** The last part of a step: multiply, add, exchange and add again; dst is block f of memory. */
  function MulSumXor(c: Block, a: Block, mem: Memory, f: nat, variant: bool, tweak: U64): State
    requires f < 131072
  {
    var d := BlockAt(mem, f);
    var sumHi, sumLo := Wrap(ProductHigh(c.lo, d.lo) + a.lo), Wrap(ProductLow(c.lo, d.lo) + a.hi);
    State(Block(Xor64(d.lo, sumHi), Xor64(d.hi, sumLo)), c,
          Put(mem, f, Block(sumHi, if variant then Xor64(sumLo, tweak) else sumLo)))
  }

  function ProductHigh(x: U64, y: U64): U64 {
    ProductHalves(x, y);
    x * y / TWO64
  }

  function ProductLow(x: U64, y: U64): U64 { x * y % TWO64 }

  lemma ProductHalves(x: U64, y: U64)
    ensures 0 <= x * y / TWO64 < TWO64
  {
    NonNegative(x, y);
    LessEqTimes(x, 0xffff_ffff_ffff_ffff, y);
    LessEqTimes(y, 0xffff_ffff_ffff_ffff, 0xffff_ffff_ffff_ffff);
  }

  lemma HalvesOnly(x: U64, y: U64, lo: U64, hi: U64)
    requires lo + hi * TWO64 == x * y
    ensures hi == ProductHigh(x, y) && lo == ProductLow(x, y)
  {
    QuotientUnique(x * y, TWO64, hi, lo);
  }

  function PlainStep(round: AesRound, variant: bool, tweak: U64, s: State): State {
    var e := E2i(s.a);
    var c := round(BlockAt(s.mem, e), s.a);
    MulSumXor(c, s.a, Put(s.mem, e, Variant1(XorBlocks(c, s.b), variant)), E2i(c), variant, tweak)
  }

  function PlainSteps(round: AesRound, variant: bool, tweak: U64, s: State, n: nat): State {
    if n == 0 then s else PlainStep(round, variant, tweak, PlainSteps(round, variant, tweak, s, n - 1))
  }

  // The program's loop, on the buffers of its context.

  ghost function View(x: array<U64>): Block
    requires x.Length == 2
    reads x
  {
    Block(x[0], x[1])
  }

  method XorBlocksDst(a: array<U64>, b: array<U64>, dst: array<U64>, at: nat)
    requires a.Length == 2 && b.Length == 2 && at + 2 <= dst.Length && dst != a && dst != b
    modifies dst
    ensures dst[..] == old(dst[..])[at := Xor64(a[0], b[0])][at + 1 := Xor64(a[1], b[1])]
  {
    hide Xor64;
    dst[at] := Xor64(a[0], b[0]);
    dst[at + 1] := Xor64(a[1], b[1]);
  }

  /** a holds one factor, c the addend and the result, dst the other factor. */
  method MulSumXorDst(a: array<U64>, c: array<U64>, dst: array<U64>, at: nat, variant: bool, tweak: U64)
    requires a.Length == 2 && c.Length == 2 && dst.Length == 262144 && at % 2 == 0 && at + 2 <= dst.Length
    requires a != c && a != dst && c != dst
    modifies c, dst
    ensures State(View(c), View(a), dst[..]) == MulSumXor(View(a), old(View(c)), old(dst[..]), at / 2, variant, tweak)
  {
    hide Xor64, ProductHigh, ProductLow;
    var lo, hi := Mul128(a[0], dst[at]);
    HalvesOnly(a[0], dst[at], lo, hi);
    lo := Wrap(lo as int + c[1] as int);
    hi := Wrap(hi as int + c[0] as int);
    c[0] := Xor64(dst[at], hi);
    c[1] := Xor64(dst[at + 1], lo);
    dst[at] := hi;
    dst[at + 1] := if variant then Xor64(lo, tweak) else lo;
  }

  /** Half of a turn of the loop: b is the block of the step before, c receives the block of this one. */
  method HalfTurn(round: AesRound, variant: bool, tweak: U64, mem: array<U64>, a: array<U64>, b: array<U64>, c: array<U64>)
    requires mem.Length == 262144 && a.Length == 2 && b.Length == 2 && c.Length == 2
    requires a != b && a != c && b != c && mem != a && mem != b && mem != c
    modifies mem, a, c
    ensures State(View(a), View(c), mem[..]) == PlainStep(round, variant, tweak, old(State(View(a), View(b), mem[..])))
  {
    hide Xor64, Variant1High, MulSumXor, E2i;
    var j := 2 * E2i(Block(a[0], a[1]));
    var y := round(Block(mem[j], mem[j + 1]), Block(a[0], a[1]));
    c[0], c[1] := y.lo, y.hi;
    XorBlocksDst(c, b, mem, j);
    if variant { mem[j + 1] := Variant1High(mem[j + 1]); }
    assert mem[..] == Put(old(mem[..]), j / 2, Variant1(XorBlocks(y, View(b)), variant));
    MulSumXorDst(c, a, mem, 2 * E2i(Block(c[0], c[1])), variant, tweak);
  }

  /** ITER / 4 turns of two half turns each, in which the buffers b and c exchange their roles. */
  method MainLoop(round: AesRound, variant: bool, tweak: U64, mem: array<U64>, a: array<U64>, b: array<U64>, c: array<U64>)
    requires mem.Length == 262144 && a.Length == 2 && b.Length == 2 && c.Length == 2
    requires a != b && a != c && b != c && mem != a && mem != b && mem != c
    modifies mem, a, b, c
    ensures State(View(a), View(b), mem[..]) ==
            PlainSteps(round, variant, tweak, old(State(View(a), View(b), mem[..])), ITER / 2)
  {
    hide PlainStep;
    ghost var start := State(View(a), View(b), mem[..]);
    for i := 0 to 262144
      invariant State(View(a), View(b), mem[..]) == PlainSteps(round, variant, tweak, start, 2 * i)
    {
      HalfTurn(round, variant, tweak, mem, a, b, c);
      assert State(View(a), View(c), mem[..]) == PlainSteps(round, variant, tweak, start, 2 * i + 1);
      HalfTurn(round, variant, tweak, mem, a, c, b);
    }
  }
}
