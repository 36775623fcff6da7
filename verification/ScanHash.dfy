/** scanhash_sha256d of sha2.c and fulltest of util.c: the search for a nonce. */
module ScanHash {
  import opened MachineWords
  import opened Limbs
  import opened Sha256
  import opened Sha2
  import opened MiningKernel

  /** fulltest: the 256-bit comparison, most significant word first. */
  method FullTest(hash: array<Word>, target: seq<Word>) returns (rc: bool)
    requires hash.Length == 8 && |target| == 8
    ensures rc <==> Value(hash[..]) <= Value(target)
  {
    hide Value;
    rc := true;
    var i := 7;
    while i >= 0
      invariant -1 <= i <= 7 && rc
      invariant forall k :: i < k < 8 ==> hash[k] == target[k]
    {
      if hash[i] > target[i] {
        TopLimbDecides(target, hash[..], i);
        return false;
      }
      if hash[i] < target[i] {
        TopLimbDecides(hash[..], target, i);
        return true;
      }
      i := i - 1;
    }
    assert hash[..] == target;
  }

  /** sha256d_80_swap */
  method Sha256d80Swap(hash: array<Word>, data: seq<Word>)
    requires hash.Length == 8 && |data| == 32
    modifies hash
    ensures hash[..] == SwabAll(DoubleHash(data))
  {
    hide Compress, HASH1, H_INIT, Swab32;
    Hash1Length();
    TableSizes();
    var s := new Word[16];
    Init(s);
    Transform(s, data[..16], false);
    Transform(s, data[16..], false);
    ghost var first := s[..8];
    forall k | 8 <= k < 16 { s[k] := HASH1[k]; }
    assert s[..] == first + HASH1[8..];
    Init(hash);
    Transform(hash, s[..], false);
    ghost var double := hash[..];
    assert hash[..8] == double;
    for i := 0 to 8
      invariant forall j :: 0 <= j < i ==> hash[j] == Swab32(double[j])
      invariant forall j :: i <= j < 8 ==> hash[j] == double[j]
    {
      hash[i] := Swab32(hash[i]);
    }
  }

  /** The padding words make DoubleHash plain double SHA-256 of the 80 header bytes. */
  lemma DoubleHashOfBytes(hdr: seq<Word>)
    requires Header(hdr)
    ensures Hash(Hash(BytesOf(hdr[..20]))) == BytesOf(DoubleHash(hdr))
  {
    hide Compress, H_INIT, HASH1, Padded, BytesOf, Absorb;
    TableSizes();
    var msg := BytesOf(hdr[..20]);
    forall i | 0 <= i < 32
      ensures |Padded(msg)| == 32 && Padded(msg)[i] == hdr[i]
    {
      HeaderPadded(hdr, i);
    }
    HeaderPadded(hdr, 0);
    assert Padded(msg) == hdr;
    AbsorbNext(H_INIT, hdr, 0);
    AbsorbNext(H_INIT, hdr, 1);
    AbsorbNothing(H_INIT, hdr);
    assert hdr[..32] == hdr && hdr[0..16] == hdr[..16] && hdr[16..32] == hdr[16..];
    SecondHashIsHash(Absorb(H_INIT, hdr));
  }

  lemma HeaderPadded(hdr: seq<Word>, i: nat)
    requires Header(hdr) && i < 32
    ensures |Padded(BytesOf(hdr[..20]))| == 32
    ensures Padded(BytesOf(hdr[..20]))[i] == hdr[i]
  {
    hide Padded, BytesOf, PadWord, Be32;
    var w := hdr[..20];
    var msg := BytesOf(w);
    PaddedAt(msg, 0);
    PaddedAt(msg, i);
    if i < 20 {
      WordOfBytes(w, i);
    } else {
      assert hdr[i] == hdr[16..][i - 16];
      if i < 30 {
        HeaderPadWord(msg, i);
      }
    }
  }

  lemma HeaderPadWord(msg: seq<Byte>, i: nat)
    requires |msg| == 80 && 20 <= i
    ensures PadWord(msg, i) == if i == 20 then 0x8000_0000 else 0
  {
  }

  /** The double hash of the header with nonce n, as the 256-bit number that is compared. */
  ghost function HashValue(hdr: seq<Word>, n: Word): nat
    requires |hdr| == 32
  {
    Value(SwabAll(DoubleHash(hdr[19 := n])))
  }

  ghost predicate Qualifies(hdr: seq<Word>, target: seq<Word>, n: Word)
    requires |hdr| == 32
  {
    HashValue(hdr, n) <= Value(target)
  }

  /** What the loop needs of the work data, the midstate and the precomputed rounds. */
  ghost predicate Ready(data: seq<Word>, mid: seq<Word>, pre: seq<Word>, hdr: seq<Word>)
  {
    && |hdr| == 32 && |data| == 64 && |mid| == 8 && |pre| == 8
    && HeaderTail(hdr[16..])
    && data[..16] == hdr[16..][3 := data[3]]
    && PreExtended(data, data[..16])
    && |H_INIT| == 8 && mid == Compress(H_INIT, hdr[..16])
    && |K| == 64 && View(pre, 3) == RoundsFrom(ToRegs(mid), data[..16], 3)
  }

  /** Storing another nonce keeps everything ready: nothing precomputed has seen word 3. */
  lemma ReadyForNonce(data: seq<Word>, mid: seq<Word>, pre: seq<Word>, hdr: seq<Word>, n: Word)
    requires Ready(data, mid, pre, hdr)
    ensures Ready(data[3 := n], mid, pre, hdr)
    ensures HeaderTail(data[3 := n][..16])
    ensures data[3 := n][..16] == hdr[19 := n][16..]
  {
    hide View, RoundsFrom, Compress, H_INIT, K, Extend, Add, S0, S1;
    TableSizes();
    var next := data[3 := n];
    assert next[..16] == data[..16][3 := n];
    assert next[..16] == hdr[16..][3 := n];
    assert data[..16][..3] == next[..16][..3];
    RoundsAgree(ToRegs(mid), data[..16], next[..16], 3);
    forall i | 4 <= i < 16 ensures next[..16][i] == hdr[16..][i] {}
  }

  /** The word 7 test is passed by every hash that meets the target. */
  lemma PrefilterKeeps(double: seq<Word>, target: seq<Word>)
    requires |double| == 8 && |target| == 8 && Swab32(double[7]) > target[7]
    ensures Value(SwabAll(double)) > Value(target)
  {
    hide Swab32;
    TopLimbDecides(target, SwabAll(double), 7);
  }

  /** The body of the scan loop, for nonce n. */
  method TryNonce(pdata: array<Word>, data: array<Word>, hash: array<Word>, mid: seq<Word>, pre: seq<Word>,
                  target: seq<Word>, n: Word, ghost hdr: seq<Word>) returns (found: bool)
    requires pdata.Length == 32 && data.Length == 64 && hash.Length == 8 && |target| == 8
    requires pdata != data && pdata != hash && data != hash
    requires Ready(data[..], mid, pre, hdr)
    requires pdata[..] == hdr[19 := pdata[19]]
    modifies pdata, data, hash
    ensures found <==> Qualifies(hdr, target, n)
    ensures Ready(data[..], mid, pre, hdr)
    ensures pdata[..] == hdr[19 := pdata[19]]
    ensures found ==> pdata[19] == n
  {
    hide View, RoundsFrom, Compress, H_INIT, K, Add, Value, PreExtended, HeaderTail, HASH1, Swab32, ToRegs;
    ReadyForNonce(data[..], mid, pre, hdr, n);
    ghost var ready := data[..][3 := n];
    data[3] := n;
    assert data[..] == ready;
    Sha256dMs(hash, data, mid, pre);
    ghost var double := DoubleHash(hdr[19 := n]);
    assert hdr[19 := n][..16] == hdr[..16];
    assert data[..16] == data[..18][..16] == ready[..18][..16] == ready[..16];
    assert data[3] == data[..16][3] == ready[..16][3] == n;
    if Swab32(hash[7]) <= target[7] {
      pdata[19] := data[3];
      assert pdata[..] == hdr[19 := n];
      Sha256d80Swap(hash, pdata[..]);
      found := FullTest(hash, target);
    } else {
      PrefilterKeeps(double, target);
      found := false;
    }
  }

  /** Lines 606 to 612: the work done once per header. */
  method Prepare(pdata: array<Word>, data: array<Word>) returns (mid: seq<Word>, pre: seq<Word>)
    requires pdata.Length == 32 && data.Length == 64 && pdata != data && Header(pdata[..])
    modifies data
    ensures Ready(data[..], mid, pre, pdata[..])
  {
    hide View, RoundsFrom, Compress, H_INIT, K, Add, PreExtended, HeaderTail, ToRegs;
    TableSizes();
    ghost var tail := pdata[16..];
    forall k | 0 <= k < 16 { data[k] := pdata[16 + k]; }
    assert data[..16] == tail;
    PreExtend(data);
    ghost var ready := data[..];
    assert ready[..16] == tail;
    var midstate := new Word[8];
    Init(midstate);
    assert midstate[..] == midstate[..8];
    Transform(midstate, pdata[..16], false);
    mid := midstate[..];
    assert mid == midstate[..8];
    var prehash := new Word[8](k requires 0 <= k < 8 && |mid| == 8 => mid[k]);
    assert prehash[..] == mid;
    Prehash(prehash, pdata[16..]);
    pre := prehash[..];
    assert data[..] == ready && pdata[16..] == tail;
    assert data[3] == ready[..16][3] && tail == tail[3 := tail[3]];
  }

  /** The scan from first stops with nonce last: every nonce before it is tried, misses the target and is
      followed by no restart, and at last there is a reason to stop. */
  ghost predicate LastTried(hdr: seq<Word>, target: seq<Word>, first: Word, maxNonce: Word, restart: nat -> bool, last: Word)
    requires |hdr| == 32
  {
    && first <= last && (last <= maxNonce || last == first)
    && (forall m: Word :: first <= m < last ==> !Qualifies(hdr, target, m))
    && (forall i: nat :: i < last - first ==> !restart(i))
    && (Qualifies(hdr, target, last) || last >= maxNonce || restart(last - first))
  }

  /** The number of nonces tried, not cut to 32 bits. */
  function Tried(first: Word, last: Word): int {
    last - first + 1
  }

  /** What a caller can tell beforehand: the range leaves out a nonce, or one before the last of it ends the scan. */
  ghost predicate CountFits(hdr: seq<Word>, target: seq<Word>, first: Word, maxNonce: Word, restart: nat -> bool)
    requires |hdr| == 32
  {
    || first != 0
    || maxNonce != WORDS - 1
    || exists i: Word :: i < WORDS - 1 && (restart(i) || Qualifies(hdr, target, i))
  }

  /** There is only one place to stop, so LastTried says exactly where the scan ends. */
  lemma LastUnique(hdr: seq<Word>, target: seq<Word>, first: Word, maxNonce: Word, restart: nat -> bool, last: Word, other: Word)
    requires |hdr| == 32
    requires LastTried(hdr, target, first, maxNonce, restart, last)
    requires LastTried(hdr, target, first, maxNonce, restart, other)
    ensures last == other
  {
    hide Qualifies;
  }

  /** hashes_done is exact unless all 2^32 nonces are tried, when it is 0; and that happens exactly when the whole
      range is asked for and nothing ends the scan before its last nonce. */
  lemma CountExactly(hdr: seq<Word>, target: seq<Word>, first: Word, maxNonce: Word, restart: nat -> bool, last: Word)
    requires |hdr| == 32
    requires LastTried(hdr, target, first, maxNonce, restart, last)
    ensures Tried(first, last) % WORDS == Tried(first, last) <==> CountFits(hdr, target, first, maxNonce, restart)
    ensures !CountFits(hdr, target, first, maxNonce, restart) ==> Tried(first, last) == WORDS
  {
    hide Qualifies;
    if Tried(first, last) == WORDS {
      assert first == 0 && last == maxNonce == WORDS - 1;
      forall i: Word | i < WORDS - 1 ensures !restart(i) && !Qualifies(hdr, target, i) {}
    } else if first == 0 && maxNonce == WORDS - 1 {
      assert restart(last) || Qualifies(hdr, target, last);
    }
  }

  /** The inputs on which the count fails: the whole range, a target that no nonce meets, and no restart. */
  lemma WholeRangeCountsZero(hdr: seq<Word>, target: seq<Word>, restart: nat -> bool)
    requires |hdr| == 32
    requires forall m: Word :: !Qualifies(hdr, target, m)
    requires forall i: nat :: !restart(i)
    ensures LastTried(hdr, target, 0, WORDS - 1, restart, WORDS - 1)
    ensures Tried(0, WORDS - 1) == WORDS && Tried(0, WORDS - 1) % WORDS == 0
  {
    hide Qualifies;
  }

  /** scanhash_sha256d.  restart(i) is what the work_restart flag shows after i + 1 nonces.

      The nonces first..last are tried in order and last is left in pdata[19]: none before last meets
      the target and no restart comes before last; 1 is returned exactly if last meets the target, and
      0 is returned only at max_nonce or on a restart.  hashes_done is the number of nonces tried, in
      32 bits: see CountExactly for when it is exact. */
  method Scan(pdata: array<Word>, target: seq<Word>, maxNonce: Word, restart: nat -> bool) returns (rc: int, hashesDone: Word)
    requires pdata.Length == 32 && |target| == 8 && Header(pdata[..])
    modifies pdata
    ensures pdata[..] == old(pdata[..])[19 := pdata[19]]
    ensures rc == (if Qualifies(old(pdata[..]), target, pdata[19]) then 1 else 0)
    ensures LastTried(old(pdata[..]), target, old(pdata[19]), maxNonce, restart, pdata[19])
    ensures hashesDone == Tried(old(pdata[19]), pdata[19]) % WORDS
    ensures hashesDone == Tried(old(pdata[19]), pdata[19]) <==>
            CountFits(old(pdata[..]), target, old(pdata[19]), maxNonce, restart)
  {
    hide Ready, Value, HashValue, Qualifies, HeaderTail;
    ghost var hdr := pdata[..];
    var data := new Word[64];
    var hash := new Word[8];
    var first := pdata[19];
    var n: Word := if first == 0 then WORDS - 1 else first - 1;
    var mid, pre := Prepare(pdata, data);
    assert pdata[..] == hdr[19 := pdata[19]];
    var count: nat := 0;
    var again := true;
    while again
      invariant pdata[..] == hdr[19 := pdata[19]]
      invariant Ready(data[..], mid, pre, hdr)
      invariant if count == 0 then again && n == (if first == 0 then WORDS - 1 else first - 1) else n == first + count - 1
      invariant count > 1 ==> n <= maxNonce
      invariant again && count > 0 ==> n < maxNonce
      invariant !again ==> count > 0 && (n >= maxNonce || restart(count - 1))
      invariant forall m: Word :: first <= m < first + count ==> !Qualifies(hdr, target, m)
      invariant forall i: nat :: i + 1 < count || (again && i < count) ==> !restart(i)
      decreases again, WORDS - first - count
    {
      n := if n == WORDS - 1 then 0 else n + 1;
      var found := TryNonce(pdata, data, hash, mid, pre, target, n, hdr);
      if found {
        hashesDone := (n - first + 1) % WORDS;
        CountExactly(hdr, target, first, maxNonce, restart, n);
        return 1, hashesDone;
      }
      again := n < maxNonce && !restart(count);
      count := count + 1;
    }
    hashesDone := (n - first + 1) % WORDS;
    pdata[19] := n;
    CountExactly(hdr, target, first, maxNonce, restart, n);
    return 0, hashesDone;
  }
}
