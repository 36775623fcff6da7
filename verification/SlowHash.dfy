/** The whole of cryptonight_hash_ctx around its loop: filling the scratchpad, folding it back, and the choice of the last
    hash; for any sponge, keyed rounds and last hashes. */
module SlowHash {
  import opened Options
  import opened Powers
  import opened CryptoNight
  import Cns008

  type Byte = x: int | 0 <= x < 0x100

  /** The 200 bytes of the Keccak state as 64-bit words. */
  type Lanes = s: seq<U64> | |s| == 25 witness seq(25, _ => 0)

  type Turn = Block -> Block

  /** hash_process, aesb_pseudo_round_mut under an expanded key, aesb_single_round, hash_permutation and extra_hashes. */
  datatype Parts = Parts(absorb: seq<Byte> -> Lanes, keyed: seq<U64> -> Turn, round: AesRound,
                         permute: Lanes -> Lanes, last: (nat, Lanes) -> seq<Byte>)

  function Pair(s: seq<U64>, p: nat): Block
    requires 2 * p + 2 <= |s|
  {
    Block(s[2 * p], s[2 * p + 1])
  }

  // What is computed, block by block.

  function Iterated(turn: Turn, b: Block, n: nat): Block {
    if n == 0 then b else turn(Iterated(turn, b, n - 1))
  }

  /** Block k of the scratchpad is block k % 8 of the text after k / 8 + 1 turns. */
  ghost predicate Filled(mem: Memory, turn: Turn, text: seq<U64>)
    requires |text| == 16
  {
    forall k :: 0 <= k < 131072 ==> BlockAt(mem, k) == Iterated(turn, Pair(text, k % 8), k / 8 + 1)
  }

  /** Block p of the text after n pieces of eight blocks of the scratchpad. */
  function Folded(turn: Turn, b: Block, mem: Memory, p: nat, n: nat): Block
    requires p < 8 && n <= 16384
  {
    if n == 0 then b else turn(XorBlocks(Folded(turn, b, mem, p, n - 1), BlockAt(mem, 8 * (n - 1) + p)))
  }

  ghost predicate AllFolded(after: seq<U64>, turn: Turn, before: seq<U64>, mem: Memory, n: nat)
    requires |after| == 16 && |before| == 16 && n <= 16384
  {
    forall p :: 0 <= p < 8 ==> Pair(after, p) == Folded(turn, Pair(before, p), mem, p, n)
  }

  /** The steps of the standard. */
  function StdSteps(round: AesRound, variant: bool, tweak: U64, s: State, n: nat): State {
    if n == 0 then s else Cns008.StdStep(round, variant, tweak, StdSteps(round, variant, tweak, s, n - 1))
  }

  lemma {:induction false} StepsAreStd(round: AesRound, variant: bool, tweak: U64, s: State, n: nat)
    ensures PlainSteps(round, variant, tweak, s, n) == StdSteps(round, variant, tweak, s, n)
  {
    hide PlainStep, Cns008.StdStep;
    if n > 0 {
      StepsAreStd(round, variant, tweak, s, n - 1);
      Cns008.StepIsStd(round, variant, tweak, StdSteps(round, variant, tweak, s, n - 1));
    }
  }

  /** The little-endian 64-bit number at a place of the input. */
  function WordAt(input: seq<Byte>, at: nat): (w: U64)
    requires at + 8 <= |input|
  {
    FourBelow(input[at], input[at + 1], input[at + 2], input[at + 3]);
    FourBelow(input[at + 4], input[at + 5], input[at + 6], input[at + 7]);
    Four(input[at], input[at + 1], input[at + 2], input[at + 3])
    + 0x1_0000_0000 * Four(input[at + 4], input[at + 5], input[at + 6], input[at + 7])
  }

  function Four(a: Byte, b: Byte, c: Byte, d: Byte): int { a as int + 0x100 * b as int + 0x1_0000 * c as int + 0x100_0000 * d as int }

  lemma FourBelow(a: Byte, b: Byte, c: Byte, d: Byte)
    ensures 0 <= Four(a, b, c, d) < 0x1_0000_0000
  {
  }

  /** Its bytes are those of the input, lowest first. */
  lemma WordIsBytes(input: seq<Byte>, at: nat)
    requires at + 8 <= |input|
    ensures var w := WordAt(input, at);
            [w % 0x100, w / 0x100 % 0x100, w / 0x1_0000 % 0x100, w / 0x100_0000 % 0x100, w / 0x1_0000_0000 % 0x100,
             w / 0x100_0000_0000 % 0x100, w / 0x1_0000_0000_0000 % 0x100, w / 0x100_0000_0000_0000] == input[at..at + 8]
  {
    hide Four;
    var low, high := Four(input[at], input[at + 1], input[at + 2], input[at + 3]), Four(input[at + 4], input[at + 5], input[at + 6], input[at + 7]);
    FourBelow(input[at], input[at + 1], input[at + 2], input[at + 3]);
    FourBelow(input[at + 4], input[at + 5], input[at + 6], input[at + 7]);
    BytesOfFour(input[at], input[at + 1], input[at + 2], input[at + 3], high);
    BytesOfFour(input[at + 4], input[at + 5], input[at + 6], input[at + 7], 0);
    HighWord(low, high);
  }

  lemma BytesOfFour(a: Byte, b: Byte, c: Byte, d: Byte, high: nat)
    ensures var w := Four(a, b, c, d) + 0x1_0000_0000 * high;
            && w % 0x100 == a && w / 0x100 % 0x100 == b && w / 0x1_0000 % 0x100 == c && w / 0x100_0000 % 0x100 == d
            && (high == 0 ==> w / 0x100_0000 == d)
  {
    var w := Four(a, b, c, d) + 0x1_0000_0000 * high;
    QuotientUnique(w, 0x100, b + 0x100 * c + 0x1_0000 * d + 0x100_0000 * high, a);
    QuotientUnique(w / 0x100, 0x100, c + 0x100 * d + 0x1_0000 * high, b);
    QuotientUnique(w, 0x1_0000, c + 0x100 * d + 0x1_0000 * high, a + 0x100 * b);
    QuotientUnique(w / 0x1_0000, 0x100, d + 0x100 * high, c);
    QuotientUnique(w, 0x100_0000, d + 0x100 * high, a + 0x100 * b + 0x1_0000 * c);
    QuotientUnique(w / 0x100_0000, 0x100, high, d);
  }

  lemma HighWord(low: nat, high: nat)
    requires low < 0x1_0000_0000
    ensures var w := low + 0x1_0000_0000 * high;
            && w / 0x1_0000_0000 == high && w / 0x100_0000_0000 == high / 0x100
            && w / 0x1_0000_0000_0000 == high / 0x1_0000 && w / 0x100_0000_0000_0000 == high / 0x100_0000
  {
    var w := low + 0x1_0000_0000 * high;
    QuotientUnique(w, 0x1_0000_0000, high, low);
    QuotientUnique(w, 0x100_0000_0000, high / 0x100, low + 0x1_0000_0000 * (high % 0x100));
    QuotientUnique(w, 0x1_0000_0000_0000, high / 0x1_0000, low + 0x1_0000_0000 * (high % 0x1_0000));
    QuotientUnique(w, 0x100_0000_0000_0000, high / 0x100_0000, low + 0x1_0000_0000 * (high % 0x100_0000));
  }

  function TweakOf(input: seq<Byte>, s: Lanes, variant: bool): U64
    requires variant ==> |input| >= 43
  {
    if variant then Xor64(WordAt(input, 35), s[24]) else 0
  }

  /** The first address and the block before the first. */
  function Start(s: Lanes, mem: Memory): State {
    State(XorBlocks(Pair(s, 0), Pair(s, 2)), XorBlocks(Pair(s, 1), Pair(s, 3)), mem)
  }

  /** The state with a new text between its first 64 and its last 8 bytes. */
  function WithText(s: Lanes, text: seq<U64>): Lanes
    requires |text| == 16
  {
    s[..8] + text + s[24..]
  }

  function TextOf(s: Lanes): (text: seq<U64>)
    ensures |text| == 16
  {
    s[8..24]
  }

  function Worked(h: Parts, input: seq<Byte>, variant: bool, mem: Memory): Memory
    requires variant ==> |input| >= 43
  {
    var s := h.absorb(input);
    StdSteps(h.round, variant, TweakOf(input, s, variant), Start(s, mem), 524288).mem
  }

  function Half(b: Block, k: nat): U64 { if k == 0 then b.lo else b.hi }

  function FilledFrom(turn: Turn, text: seq<U64>): Memory
    requires |text| == 16
  {
    seq(262144, i requires 0 <= i < 262144 => Half(Iterated(turn, Pair(text, i / 2 % 8), i / 16 + 1), i % 2))
  }

  function FoldedFrom(turn: Turn, text: seq<U64>, mem: Memory): (r: seq<U64>)
    requires |text| == 16
    ensures |r| == 16
  {
    seq(16, j requires 0 <= j < 16 => Half(Folded(turn, Pair(text, j / 2), mem, j / 2, 16384), j % 2))
  }

  /** The hash of an input: absorb, fill, work, fold, permute, and hash once more with one of four functions. */
  function SlowHash(h: Parts, input: seq<Byte>, variant: bool): seq<Byte>
    requires variant ==> |input| >= 43
  {
    var s := h.absorb(input);
    var text := FoldedFrom(h.keyed(s[4..8]), TextOf(s), Worked(h, input, variant, FilledFrom(h.keyed(s[..4]), TextOf(s))));
    var t := h.permute(WithText(s, text));
    h.last(t[0] % 4, t)
  }

  lemma FilledUnique(mem: Memory, turn: Turn, text: seq<U64>)
    requires |text| == 16 && Filled(mem, turn, text)
    ensures mem == FilledFrom(turn, text)
  {
    forall i | 0 <= i < 262144 ensures mem[i] == FilledFrom(turn, text)[i] {
      assert BlockAt(mem, i / 2) == Iterated(turn, Pair(text, i / 2 % 8), i / 2 / 8 + 1);
      assert i / 2 / 8 == i / 16 && i == 2 * (i / 2) + i % 2;
    }
  }

  lemma FoldedUnique(after: seq<U64>, turn: Turn, before: seq<U64>, mem: Memory)
    requires |after| == 16 && |before| == 16 && AllFolded(after, turn, before, mem, 16384)
    ensures after == FoldedFrom(turn, before, mem)
  {
    hide Folded;
    forall j | 0 <= j < 16 ensures after[j] == FoldedFrom(turn, before, mem)[j] {
      assert Pair(after, j / 2) == Folded(turn, Pair(before, j / 2), mem, j / 2, 16384);
    }
  }

  lemma FoldedNext(text: seq<U64>, xored: seq<U64>, after: seq<U64>, turn: Turn, before: seq<U64>, mem: Memory, n: nat)
    requires |text| == |xored| == |after| == |before| == 16 && n < 16384
    requires AllFolded(text, turn, before, mem, n)
    requires forall p :: 0 <= p < 8 ==> Pair(xored, p) == XorBlocks(Pair(text, p), BlockAt(mem, 8 * n + p))
    requires forall p :: 0 <= p < 8 ==> Pair(after, p) == turn(Pair(xored, p))
    ensures AllFolded(after, turn, before, mem, n + 1)
  {
    hide Pair, XorBlocks, BlockAt;
  }

  // The program.

  method TurnAll(turn: Turn, text: array<U64>)
    requires text.Length == 16
    modifies text
    ensures forall p :: 0 <= p < 8 ==> Pair(text[..], p) == turn(old(Pair(text[..], p)))
  {
    for p := 0 to 8
      invariant forall q :: 0 <= q < p ==> Pair(text[..], q) == turn(old(Pair(text[..], q)))
      invariant forall q :: p <= q < 8 ==> Pair(text[..], q) == old(Pair(text[..], q))
    {
      var b := turn(Block(text[2 * p], text[2 * p + 1]));
      text[2 * p], text[2 * p + 1] := b.lo, b.hi;
    }
  }

  method Fill(turn: Turn, text: array<U64>, mem: array<U64>)
    requires text.Length == 16 && mem.Length == 262144 && text != mem
    modifies text, mem
    ensures Filled(mem[..], turn, old(text[..]))
  {
    for i := 0 to 16384
      invariant forall p :: 0 <= p < 8 ==> Pair(text[..], p) == Iterated(turn, old(Pair(text[..], p)), i)
      invariant forall k :: 0 <= k < 8 * i ==> Block(mem[2 * k], mem[2 * k + 1]) == Iterated(turn, old(Pair(text[..], k % 8)), k / 8 + 1)
    {
      TurnAll(turn, text);
      forall j | 0 <= j < 16 { mem[16 * i + j] := text[j]; }
    }
  }

  /** Piece n of the scratchpad is added to the text. */
  method XorInto(text: array<U64>, mem: array<U64>, n: nat)
    requires text.Length == 16 && mem.Length == 262144 && n < 16384 && text != mem
    modifies text
    ensures forall p :: 0 <= p < 8 ==> Pair(text[..], p) == XorBlocks(old(Pair(text[..], p)), BlockAt(mem[..], 8 * n + p))
  {
    hide Xor64;
    for j := 0 to 16
      invariant forall k :: 0 <= k < j ==> text[k] == Xor64(old(text[k]), mem[16 * n + k])
      invariant forall k :: j <= k < 16 ==> text[k] == old(text[k])
    {
      text[j] := Xor64(text[j], mem[16 * n + j]);
    }
  }

  method Fold(turn: Turn, text: array<U64>, mem: array<U64>)
    requires text.Length == 16 && mem.Length == 262144 && text != mem
    modifies text
    ensures text[..] == FoldedFrom(turn, old(text[..]), mem[..])
  {
    hide AllFolded, Folded, Pair, XorBlocks, BlockAt, FoldedFrom;
    ghost var before, pad := text[..], mem[..];
    FoldedNone(before, turn, pad);
    for i := 0 to 16384
      invariant mem[..] == pad && AllFolded(text[..], turn, before, pad, i)
    {
      ghost var now := text[..];
      XorInto(text, mem, i);
      ghost var xored := text[..];
      TurnAll(turn, text);
      FoldedNext(now, xored, text[..], turn, before, pad, i);
    }
    FoldedUnique(text[..], turn, before, pad);
  }

  lemma FoldedNone(text: seq<U64>, turn: Turn, mem: Memory)
    requires |text| == 16
    ensures AllFolded(text, turn, text, mem, 0)
  {
  }

  /** The loop between the filled scratchpad and the worked one. */
  method Work(h: Parts, s: Lanes, variant: bool, tweak: U64, mem: array<U64>)
    requires mem.Length == 262144
    modifies mem
    ensures mem[..] == StdSteps(h.round, variant, tweak, Start(s, old(mem[..])), 524288).mem
  {
    hide XorBlocks, PlainSteps, StdSteps;
    ghost var filled := mem[..];
    var a, b, c := new U64[2], new U64[2], new U64[2];
    XorPair(s, 0, 4, a);
    XorPair(s, 2, 6, b);
    assert State(View(a), View(b), mem[..]) == Start(s, filled);
    MainLoop(h.round, variant, tweak, mem, a, b, c);
    StepsAreStd(h.round, variant, tweak, Start(s, filled), 524288);
  }

  /** cryptonight_hash_ctx: nothing for an input of variant 1 that is too short. */
  method CryptonightHash(h: Parts, input: seq<Byte>, variant: bool) returns (output: Option<seq<Byte>>)
    ensures output == if variant && |input| < 43 then None else Some(SlowHash(h, input, variant))
  {
    hide XorBlocks, StdSteps, FilledFrom, FoldedFrom, Filled, Start, WordAt, Xor64;
    var s := h.absorb(input);
    if variant && |input| < 43 { return None; }
    var tweak := if variant then Xor64(WordAt(input, 35), s[24]) else 0;
    var text, mem := new U64[16](j requires 0 <= j < 16 => s[8 + j]), new U64[262144];
    assert text[..] == TextOf(s);
    Fill(h.keyed(s[..4]), text, mem);
    FilledUnique(mem[..], h.keyed(s[..4]), TextOf(s));
    ghost var filled := mem[..];
    Work(h, s, variant, tweak, mem);
    ghost var worked := mem[..];
    assert worked == Worked(h, input, variant, filled);
    forall j | 0 <= j < 16 { text[j] := s[8 + j]; }
    assert text[..] == TextOf(s);
    Fold(h.keyed(s[4..8]), text, mem);
    assert mem[..] == worked;
    var t := h.permute(WithText(s, text[..]));
    output := Some(h.last(t[0] % 4, t));
  }

  /** xor_blocks_dst on two places of the state. */
  method XorPair(s: Lanes, i: nat, j: nat, dst: array<U64>)
    requires i + 2 <= 25 && j + 2 <= 25 && dst.Length == 2
    modifies dst
    ensures View(dst) == XorBlocks(Block(s[i], s[i + 1]), Block(s[j], s[j + 1]))
  {
    hide Xor64;
    dst[0] := Xor64(s[i], s[j]);
    dst[1] := Xor64(s[i + 1], s[j + 1]);
  }
}
