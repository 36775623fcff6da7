/** The double-SHA-256 mining kernel of sha2.c: what depends on the nonce is recomputed, the rest is
    carried over from a midstate, three precomputed rounds and a half-finished schedule, and the last
    hash stops as soon as its word 7 is known.  All of it must agree with plain double SHA-256. */
module MiningKernel {
  import opened MachineWords
  import opened Sha256
  import opened Sha2

  /** The last 64 bytes of an 80-byte header: four header words, then the padding stratum_gen_work sets. */
  predicate HeaderTail(block: seq<Word>) {
    && |block| == 16
    && block[4] == 0x8000_0000
    && (forall i :: 5 <= i < 15 ==> block[i] == 0)
    && block[15] == 0x280
  }

  predicate Header(hdr: seq<Word>) {
    |hdr| == 32 && HeaderTail(hdr[16..])
  }

  /** Words of SHA-256(SHA-256(header)). */
  function DoubleHash(hdr: seq<Word>): (r: seq<Word>)
    requires |hdr| == 32
    ensures |r| == 8
  {
    TableSizes();
    SecondHash(Compress(Compress(H_INIT, hdr[..16]), hdr[16..]))
  }

  /** The schedule words that do not need the nonce, and the nonce-free part of those that do. */
  ghost predicate PreExtended(w: seq<Word>, b: seq<Word>)
    requires |b| == 16
  {
    && |w| == 64
    && w[16] == Extend(b[14], b[9], b[1], b[0])
    && w[17] == Extend(b[15], b[10], b[2], b[1])
    && w[18] == Add(Add(S1(w[16]), b[11]), b[2])
    && w[19] == Add(Add(S1(w[17]), b[12]), S0(b[4]))
    && w[20] == Add(Add(b[13], S0(b[5])), b[4])
    && w[22] == Add(Add(b[15], S0(b[7])), b[6])
    && w[23] == Add(Add(w[16], S0(b[8])), b[7])
    && w[24] == Add(Add(w[17], S0(b[9])), b[8])
    && w[30] == Add(S0(b[15]), b[14])
    && w[31] == Add(S0(w[16]), b[15])
  }

  /** sha256d_preextend */
  method PreExtend(w: array<Word>)
    requires w.Length == 64
    modifies w
    ensures PreExtended(w[..], old(w[..16]))
    ensures w[..16] == old(w[..16])
  {
    hide S0, S1, Add;
    w[16] := Add(Add(Add(S1(w[14]), w[9]), S0(w[1])), w[0]);
    w[17] := Add(Add(Add(S1(w[15]), w[10]), S0(w[2])), w[1]);
    w[18] := Add(Add(S1(w[16]), w[11]), w[2]);
    w[19] := Add(Add(S1(w[17]), w[12]), S0(w[4]));
    w[20] := Add(Add(w[13], S0(w[5])), w[4]);
    w[21] := Add(Add(w[14], S0(w[6])), w[5]);
    w[22] := Add(Add(w[15], S0(w[7])), w[6]);
    w[23] := Add(Add(w[16], S0(w[8])), w[7]);
    w[24] := Add(Add(w[17], S0(w[9])), w[8]);
    w[25] := Add(S0(w[10]), w[9]);
    w[26] := Add(S0(w[11]), w[10]);
    w[27] := Add(S0(w[12]), w[11]);
    w[28] := Add(S0(w[13]), w[12]);
    w[29] := Add(S0(w[14]), w[13]);
    w[30] := Add(S0(w[15]), w[14]);
    w[31] := Add(S0(w[16]), w[15]);
  }

  lemma AddOrders(a: Word, b: Word, c: Word, d: Word)
    ensures Add(Add(Add(b, c), d), a) == Add(Add(Add(a, b), c), d)
    ensures Add(Add(Add(a, b), d), c) == Add(Add(Add(a, b), c), d)
    ensures Add(Add(c, d), Add(a, b)) == Add(Add(Add(a, b), c), d)
    ensures Add(Add(a, 0), 0) == a && Add(Add(Add(a, 0), 0), 0) == a && Add(Add(Add(a, b), 0), 0) == Add(a, b)
  {
    AddGroup(Add(b, c), d, a);
    AddGroup(a, b, c);
    AddGroup(Add(a, b), c, d);
  }

  /** x[t] follows the recurrence of the message schedule. */
  ghost predicate Follows(x: seq<Word>, t: nat)
    requires 16 <= t < |x|
  {
    x[t] == Extend(x[t - 2], x[t - 7], x[t - 15], x[t - 16])
  }

  lemma FollowingIsScheduled(x: seq<Word>, block: seq<Word>, from: nat, to: nat)
    requires |block| == 16 && 16 <= from <= to <= |x|
    requires Scheduled(x, block, from)
    requires forall t :: from <= t < to ==> Follows(x, t)
    ensures Scheduled(x, block, to)
  {
    hide Extend;
    if from < to {
      FollowingIsScheduled(x, block, from, to - 1);
      assert Follows(x, to - 1);
    }
  }

  /** Lines 275 to 283 of sha2.c complete the half-finished words that feed on the nonce block[3]. */
  lemma NonceWordsLow(w: seq<Word>, x: seq<Word>)
    requires |x| >= 64 && HeaderTail(x[..16]) && PreExtended(w, x[..16])
    requires x[16] == w[16] && x[17] == w[17]
    requires x[18] == Add(w[18], S0(x[3]))
    requires x[19] == Add(w[19], x[3])
    requires x[20] == Add(w[20], S1(x[18]))
    requires x[21] == S1(x[19])
    requires x[22] == Add(w[22], S1(x[20]))
    requires x[23] == Add(w[23], S1(x[21]))
    requires x[24] == Add(w[24], S1(x[22]))
    ensures Follows(x, 16) && Follows(x, 17) && Follows(x, 18) && Follows(x, 19) && Follows(x, 20)
    ensures Follows(x, 21) && Follows(x, 22) && Follows(x, 23) && Follows(x, 24)
  {
    hide S0, S1, Add;
    SigmasOfZero();
    AddOrders(S1(x[16]), x[11], S0(x[3]), x[2]);
    AddOrders(S1(x[18]), x[13], S0(x[5]), x[4]);
    AddOrders(S1(x[19]), 0, 0, 0);
    AddOrders(S1(x[20]), x[15], S0(x[7]), x[6]);
    AddOrders(S1(x[21]), x[16], S0(x[8]), x[7]);
    AddOrders(S1(x[22]), x[17], S0(x[9]), x[8]);
  }

  /** Lines 284 to 288: the zero padding words and their sigmas drop out of the recurrence. */
  lemma NonceWordsHigh(w: seq<Word>, x: seq<Word>)
    requires |x| >= 64 && HeaderTail(x[..16]) && PreExtended(w, x[..16]) && x[16] == w[16]
    requires x[25] == Add(S1(x[23]), x[18])
    requires x[26] == Add(S1(x[24]), x[19])
    requires x[27] == Add(S1(x[25]), x[20])
    requires x[28] == Add(S1(x[26]), x[21])
    requires x[29] == Add(S1(x[27]), x[22])
    requires x[30] == Add(w[30], Add(S1(x[28]), x[23]))
    requires x[31] == Add(w[31], Add(S1(x[29]), x[24]))
    ensures Follows(x, 25) && Follows(x, 26) && Follows(x, 27) && Follows(x, 28) && Follows(x, 29)
    ensures Follows(x, 30) && Follows(x, 31)
  {
    hide S0, S1, Add;
    SigmasOfZero();
    AddOrders(S1(x[23]), x[18], 0, 0);
    AddOrders(S1(x[24]), x[19], 0, 0);
    AddOrders(S1(x[25]), x[20], 0, 0);
    AddOrders(S1(x[26]), x[21], 0, 0);
    AddOrders(S1(x[27]), x[22], 0, 0);
    AddOrders(S1(x[28]), x[23], S0(x[15]), x[14]);
    AddOrders(S1(x[29]), x[24], S0(x[16]), x[15]);
  }

  /** Lines 275 to 288 of sha2.c, in place. */
  method CompleteWords(w: array<Word>)
    requires w.Length == 64 && HeaderTail(w[..16]) && PreExtended(w[..], w[..16])
    modifies w
    ensures w[..18] == old(w[..18])
    ensures Scheduled(w[..], old(w[..16]), 32)
  {
    hide S0, S1, Add, Scheduled;
    ghost var before := w[..];
    w[18] := Add(w[18], S0(w[3]));
    w[19] := Add(w[19], w[3]);
    w[20] := Add(w[20], S1(w[18]));
    w[21] := S1(w[19]);
    w[22] := Add(w[22], S1(w[20]));
    w[23] := Add(w[23], S1(w[21]));
    w[24] := Add(w[24], S1(w[22]));
    w[25] := Add(S1(w[23]), w[18]);
    w[26] := Add(S1(w[24]), w[19]);
    w[27] := Add(S1(w[25]), w[20]);
    w[28] := Add(S1(w[26]), w[21]);
    w[29] := Add(S1(w[27]), w[22]);
    w[30] := Add(w[30], Add(S1(w[28]), w[23]));
    w[31] := Add(w[31], Add(S1(w[29]), w[24]));
    NonceWords(before, w[..]);
  }

  lemma NonceWords(w: seq<Word>, x: seq<Word>)
    requires |x| == 64 && |w| == 64 && x[..18] == w[..18] && HeaderTail(w[..16]) && PreExtended(w, w[..16])
    requires x[18] == Add(w[18], S0(w[3])) && x[19] == Add(w[19], w[3])
    requires x[20] == Add(w[20], S1(x[18])) && x[21] == S1(x[19]) && x[22] == Add(w[22], S1(x[20]))
    requires x[23] == Add(w[23], S1(x[21])) && x[24] == Add(w[24], S1(x[22]))
    requires x[25] == Add(S1(x[23]), x[18]) && x[26] == Add(S1(x[24]), x[19])
    requires x[27] == Add(S1(x[25]), x[20]) && x[28] == Add(S1(x[26]), x[21]) && x[29] == Add(S1(x[27]), x[22])
    requires x[30] == Add(w[30], Add(S1(x[28]), x[23])) && x[31] == Add(w[31], Add(S1(x[29]), x[24]))
    ensures Scheduled(x, w[..16], 32)
  {
    hide S0, S1, Add, Scheduled, HeaderTail, PreExtended, Follows;
    assert x[..16] == x[..18][..16] == w[..18][..16] == w[..16];
    assert x[16] == x[..18][16] && x[17] == x[..18][17] && x[3] == x[..18][3];
    assert w[16] == w[..18][16] && w[17] == w[..18][17] && w[3] == w[..18][3];
    NonceWordsLow(w, x);
    NonceWordsHigh(w, x);
    FirstWords(x, w[..16]);
    FollowingIsScheduled(x, w[..16], 16, 32);
  }

  /** The first half of sha256d_ms: W becomes the whole schedule of the block with its nonce. */
  method ExtendNonce(w: array<Word>)
    requires w.Length == 64 && HeaderTail(w[..16]) && PreExtended(w[..], w[..16])
    modifies w
    ensures w[..18] == old(w[..18])
    ensures Scheduled(w[..], w[..16], 64)
  {
    hide Scheduled, HeaderTail, PreExtended;
    ghost var block := w[..16];
    ghost var kept := w[..18];
    CompleteWords(w);
    assert w[..16] == kept[..16] == block;
    ghost var half := w[..32];
    ExtendRest(w, block, 64);
    assert w[..18] == half[..18] == kept;
    assert w[..16] == half[..16] == block;
  }

  /** The schedule loop from word 32 on. */
  method ExtendRest(w: array<Word>, ghost block: seq<Word>, to: nat)
    requires |block| == 16 && to % 2 == 0 && 32 <= to <= w.Length && Scheduled(w[..], block, 32)
    modifies w
    ensures Scheduled(w[..], block, to) && w[..32] == old(w[..32])
  {
    hide Scheduled;
    var i := 32;
    while i < to
      invariant 32 <= i <= to && i % 2 == 0
      invariant Scheduled(w[..], block, i) && w[..32] == old(w[..32])
    {
      ExtendPair(w, i, block);
      i := i + 2;
    }
  }

  // ---- the precomputed rounds and the early exit ----------------------------------------------

  /** Rounds see only the schedule words they have used: block words 0..n when n <= 16. */
  lemma RoundsAgree(r: Regs, b: seq<Word>, c: seq<Word>, n: nat)
    requires |b| == |c| == 16 && n <= 16 && b[..n] == c[..n]
    ensures |K| == 64 && RoundsFrom(r, b, n) == RoundsFrom(r, c, n)
  {
    hide Round, K;
    TableSizes();
    if n > 0 {
      assert b[..n][..n - 1] == b[..n - 1] && c[..n][..n - 1] == c[..n - 1];
      RoundsAgree(r, b, c, n - 1);
      assert b[n - 1] == b[..n][n - 1] == c[..n][n - 1] == c[n - 1];
    }
  }

  /** sha256d_prehash: three rounds that use words 0, 1 and 2 of the block and not its nonce. */
  method Prehash(s: array<Word>, w: seq<Word>)
    requires s.Length == 8 && |w| == 16
    modifies s
    ensures |K| == 64 && View(s[..], 3) == RoundsFrom(ToRegs(old(s[..])), w, 3)
  {
    hide View, RoundsFrom, ToRegs, ScheduleWord;
    TableSizes();
    var a := new Word[16](i requires 0 <= i < 16 => w[i]);
    FirstWords(a[..], w);
    ViewAtStart(s[..], ToRegs(s[..]), w);
    ScheduledLess(a[..], w, 16, 3);
    Mix(s, a, 0, 3, ToRegs(s[..]), w);
  }

  lemma ScheduledLess(x: seq<Word>, block: seq<Word>, n: nat, m: nat)
    requires |block| == 16 && Scheduled(x, block, n) && m <= n
    ensures Scheduled(x, block, m)
  {
  }

  /** Registers e..h of a round are d..g of the one before, so h of round 64 is e of round 61. */
  lemma LastRegister(r: Regs, b: seq<Word>)
    requires |b| == 16
    ensures |K| == 64 && RoundsFrom(r, b, 64).h == RoundsFrom(r, b, 61).e
  {
    hide Temp1, Temp2, Add, K, ScheduleWord;
    TableSizes();
    assert RoundsFrom(r, b, 64).h == RoundsFrom(r, b, 63).g;
    assert RoundsFrom(r, b, 63).g == RoundsFrom(r, b, 62).f;
    assert RoundsFrom(r, b, 62).f == RoundsFrom(r, b, 61).e;
  }

  /** The sum a partial round adds to slot d. */
  function PartialSum(e: Word, f: Word, g: Word, h: Word, w: Word, k: Word): Word {
    Add(Add(Add(Add(h, BigS1(e)), Ch(e, f, g)), w), k)
  }

  /** Lines 453 to 461: from the registers of round 57, four updates of slot d give word 7 of the hash. */
  lemma FourUpdates(r: Regs, b: seq<Word>, v: Regs, e58: Word, e59: Word, e60: Word, last: Word)
    requires |b| == 16 && |K| == 64 && |H_INIT| == 8 && v == RoundsFrom(r, b, 57)
    requires e58 == Add(v.d, PartialSum(v.e, v.f, v.g, v.h, ScheduleWord(b, 57), K[57]))
    requires e59 == Add(v.c, PartialSum(e58, v.e, v.f, v.g, ScheduleWord(b, 58), K[58]))
    requires e60 == Add(v.b, PartialSum(e59, e58, v.e, v.f, ScheduleWord(b, 59), K[59]))
    requires last == Add(v.a, Add(PartialSum(e60, e59, e58, v.e, ScheduleWord(b, 60), K[60]), H_INIT[7]))
    requires r == ToRegs(H_INIT)
    ensures last == Compress(H_INIT, b)[7]
  {
    hide Add, K, H_INIT, ScheduleWord, BigS1, Ch, Temp1, Temp2, ToRegs, PartialSum;
    var v58, v59, v60, v61 := RoundsFrom(r, b, 58), RoundsFrom(r, b, 59), RoundsFrom(r, b, 60), RoundsFrom(r, b, 61);
    PartialIsRound(v, ScheduleWord(b, 57), K[57]);
    assert v58.e == e58 && v58.d == v.c && v58.f == v.e && v58.g == v.f && v58.h == v.g && v58.c == v.b && v58.b == v.a;
    PartialIsRound(v58, ScheduleWord(b, 58), K[58]);
    assert v59.e == e59 && v59.d == v.b && v59.f == e58 && v59.g == v.e && v59.h == v.f && v59.c == v.a;
    PartialIsRound(v59, ScheduleWord(b, 59), K[59]);
    assert v60.e == e60 && v60.d == v.a && v60.f == e59 && v60.g == e58 && v60.h == v.e;
    PartialIsRound(v60, ScheduleWord(b, 60), K[60]);
    var sum := PartialSum(e60, e59, e58, v.e, ScheduleWord(b, 60), K[60]);
    assert v61.e == Add(v.a, sum);
    AddGroup(v.a, sum, H_INIT[7]);
    AddGroup(Add(v.a, sum), H_INIT[7], 0);
    LastRegister(r, b);
  }

  lemma PartialIsRound(v: Regs, w: Word, k: Word)
    ensures Round(v, Add(w, k)).e == Add(v.d, PartialSum(v.e, v.f, v.g, v.h, w, k))
  {
    AddGroup(Add(Add(v.h, BigS1(v.e)), Ch(v.e, v.f, v.g)), w, k);
  }

  /** The second half of sha256d_ms once its schedule is ready: 57 rounds and four updates. */
  method LastWord(hash: array<Word>, s: array<Word>, ghost b: seq<Word>)
    requires hash.Length == 8 && s.Length == 64 && hash != s && |b| == 16
    requires Scheduled(s[..], b, 61)
    modifies hash
    ensures |H_INIT| == 8 && hash[7] == Compress(H_INIT, b)[7]
  {
    hide Add, K, H_INIT, Compress, BigS1, Ch, RoundsFrom, View, Scheduled, PartialSum;
    TableSizes();
    Init(hash);
    assert hash[..] == hash[..8];
    ViewAtStart(hash[..], ToRegs(H_INIT), b);
    ScheduledLess(s[..], b, 61, 57);
    Mix(hash, s, 0, 57, ToRegs(H_INIT), b);
    ghost var v := RoundsFrom(ToRegs(H_INIT), b, 57);
    ViewAt57(hash[..]);
    ScheduledAt(s[..], b, 61);
    hash[2] := Add(hash[2], PartialSum(hash[3], hash[4], hash[5], hash[6], s[57], K[57]));
    hash[1] := Add(hash[1], PartialSum(hash[2], hash[3], hash[4], hash[5], s[58], K[58]));
    hash[0] := Add(hash[0], PartialSum(hash[1], hash[2], hash[3], hash[4], s[59], K[59]));
    hash[7] := Add(hash[7], Add(PartialSum(hash[0], hash[1], hash[2], hash[3], s[60], K[60]), H_INIT[7]));
    FourUpdates(ToRegs(H_INIT), b, v, hash[2], hash[1], hash[0], hash[7]);
  }

  lemma ViewAt57(s: seq<Word>)
    requires |s| == 8
    ensures View(s, 57) == Regs(s[7], s[0], s[1], s[2], s[3], s[4], s[5], s[6])
  {
  }

  lemma ScheduledAt(x: seq<Word>, block: seq<Word>, n: nat)
    requires |block| == 16 && Scheduled(x, block, n)
    ensures n <= |x| && forall t :: 0 <= t < n ==> x[t] == ScheduleWord(block, t)
  {
  }

  /** Lines 370 to 391: the schedule of the second hash, up to the word round 60 needs. */
  method SecondSchedule(s: array<Word>)
    requires s.Length == 64 && |HASH1| == 16
    modifies s
    ensures Scheduled(s[..], old(s[..8]) + HASH1[8..], 61)
  {
    hide Add, S0, S1, Scheduled, HASH1;
    ghost var b := s[..8] + HASH1[8..];
    forall k | 8 <= k < 16 { s[k] := HASH1[k]; }
    FirstWords(s[..], b);
    var i := 16;
    while i < 60
      invariant 16 <= i <= 60 && i % 2 == 0 && Scheduled(s[..], b, i)
    {
      ExtendPair(s, i, b);
      i := i + 2;
    }
    ScheduledAt(s[..], b, 60);
    s[60] := Extend(s[58], s[53], s[45], s[44]);
    ScheduledOne(s[..], b, 60);
  }

  lemma ScheduledOne(x: seq<Word>, b: seq<Word>, n: nat)
    requires |b| == 16 && 16 <= n < |x| && Follows(x, n)
    requires forall t :: 0 <= t < n ==> x[t] == ScheduleWord(b, t)
    ensures Scheduled(x, b, n + 1)
  {
    hide Extend;
  }

  /** Lines 358 to 368: the feed-forward of the first hash. */
  method AddMidstate(s: array<Word>, midstate: seq<Word>, ghost block: seq<Word>)
    requires s.Length == 64 && |midstate| == 8 && |block| == 16
    requires View(s[..], 64) == RoundsFrom(ToRegs(midstate), block, 64)
    modifies s
    ensures s[..8] == Compress(midstate, block)
    ensures s[8..] == old(s[8..])
  {
    hide View, RoundsFrom, Add;
    ViewAtEnd(s[..]);
    ghost var v := s[..8];
    for i := 0 to 8
      invariant forall j :: 0 <= j < i ==> s[j] == Add(midstate[j], v[j])
      invariant forall j :: i <= j < 64 ==> s[j] == old(s[j])
    {
      s[i] := Add(s[i], midstate[i]);
      AddGroup(v[i], midstate[i], 0);
    }
    FeedForward(midstate, block, v, s[..8]);
  }

  /** sha256d_ms: word 7 of the double hash of the header whose last block is in W, with its nonce in
      W[3]; W is left ready for the next nonce. */
  method Sha256dMs(hash: array<Word>, w: array<Word>, midstate: seq<Word>, prehash: seq<Word>)
    requires hash.Length == 8 && w.Length == 64 && hash != w && |midstate| == 8 && |prehash| == 8
    requires HeaderTail(w[..16]) && PreExtended(w[..], w[..16])
    requires |K| == 64 && View(prehash, 3) == RoundsFrom(ToRegs(midstate), w[..16], 3)
    modifies hash, w
    ensures hash[7] == SecondHash(Compress(midstate, old(w[..16])))[7]
    ensures w[..18] == old(w[..18])
    ensures PreExtended(w[..], old(w[..16]))
  {
    hide View, RoundsFrom, Compress, PreExtended, HeaderTail, Scheduled, HASH1, H_INIT, K, ToRegs;
    Hash1Length();
    TableSizes();
    ghost var block := w[..16];
    ghost var before := w[..];
    var s := new Word[64];
    s[18], s[19], s[20], s[22] := w[18], w[19], w[20], w[22];
    s[23], s[24], s[30], s[31] := w[23], w[24], w[30], w[31];
    ghost var saved := s[8..];
    ExtendNonce(w);
    ghost var schedule := w[..];
    assert w[..16] == w[..18][..16] == before[..18][..16] == block;
    forall k | 0 <= k < 8 { s[k] := prehash[k]; }
    assert s[8..] == saved && w[..] == schedule;
    ViewOfPrefix(s[..], prehash);
    Mix(s, w, 3, 64, ToRegs(midstate), block);
    assert s[8..] == saved;
    AddMidstate(s, midstate, block);
    assert s[8..][10] == saved[10] && s[8..][11] == saved[11] && s[8..][12] == saved[12] && s[8..][14] == saved[14];
    assert s[8..][15] == saved[15] && s[8..][16] == saved[16] && s[8..][22] == saved[22] && s[8..][23] == saved[23];
    RestoreWords(w, s, before);
    ghost var first := s[..8];
    SecondSchedule(s);
    LastWord(hash, s, first + HASH1[8..]);
  }

  lemma ViewOfPrefix(s: seq<Word>, p: seq<Word>)
    requires |s| >= 8 && |p| == 8 && s[..8] == p
    ensures View(s, 3) == View(p, 3)
  {
    assert forall k :: 0 <= k < 8 ==> s[k] == s[..8][k];
  }

  /** Lines 361 to 368. */
  method RestoreWords(w: array<Word>, s: array<Word>, ghost before: seq<Word>)
    requires w != s && w.Length == 64 && s.Length == 64 && |before| == 64
    requires w[..18] == before[..18]
    requires s[18] == before[18] && s[19] == before[19] && s[20] == before[20] && s[22] == before[22]
    requires s[23] == before[23] && s[24] == before[24] && s[30] == before[30] && s[31] == before[31]
    modifies w
    ensures w[..18] == before[..18]
    ensures PreExtended(before, before[..16]) ==> PreExtended(w[..], before[..16])
  {
    hide Extend, Add, S0, S1;
    w[18], w[19], w[20], w[22] := s[18], s[19], s[20], s[22];
    w[23], w[24], w[30], w[31] := s[23], s[24], s[30], s[31];
    assert w[16] == w[..18][16] == before[16] && w[17] == w[..18][17] == before[17];
  }
}
