/** What the limb-by-limb shifts of base_uint mean for the whole number. */
module Shifts {
  import opened MachineWords
  import opened Limbs
  import opened Powers

  // Left: limb j of the result is put together from limbs j - k and j - k - 1 of a.

  /** What limb n - k of a, shifted left by s, passes on to limb n of the result. */
  function Top(a: seq<Word>, k: nat, s: nat, n: nat): Word
    requires s < 32 && n <= k + |a|
  {
    if n > k && s != 0 then ShiftRight(a[n - k - 1], 32 - s) else 0
  }

  /** Limb j after the first i limbs of a have been shifted into place. */
  function LeftLimb(a: seq<Word>, k: nat, s: nat, i: nat, j: nat): Word
    requires s < 32 && i <= |a|
  {
    if j < k || j > k + i then 0
    else if j == k + i then Top(a, k, s, j)
    else BitOr(Top(a, k, s, j), ShiftLeft(a[j - k], s))
  }

  lemma LimbParts(x: Word, s: nat, below: Word)
    requires s < 32
    requires if s == 0 then below == 0 else below < Pow2(s)
    ensures BitOr(below, ShiftLeft(x, s)) == below + ShiftLeft(x, s)
    ensures x * Pow2(s) == ShiftLeft(x, s) + (if s == 0 then 0 else ShiftRight(x, 32 - s)) * WORDS
  {
    hide Or;
    if s == 0 {
      Pow2Of32();
      OrZero(x);
    } else {
      Halves(x, s);
      OrDisjoint(ShiftLeft(x, s), below, s);
      OrCommutes(below, ShiftLeft(x, s));
    }
  }

  lemma TopSmall(a: seq<Word>, k: nat, s: nat, n: nat)
    requires s < 32 && n <= k + |a|
    ensures if s == 0 then Top(a, k, s, n) == 0 else Top(a, k, s, n) < Pow2(s)
  {
    if n > k && s != 0 { Halves(a[n - k - 1], s); }
  }

  /** The first n limbs of the result, with what they pass on, are the first n - k limbs of a times the power of two. */
  lemma {:induction false} LeftPrefix(a: seq<Word>, r: seq<Word>, k: nat, s: nat, n: nat)
    requires s < 32 && |r| == |a| && k <= n <= |a|
    requires forall j :: 0 <= j < |a| ==> r[j] == LeftLimb(a, k, s, |a|, j)
    ensures Value(r[..n]) + Top(a, k, s, n) * Worth(n) == Value(a[..n - k]) * (Pow2(s) * Worth(k))
  {
    hide Worth, Value, Pow2, BitOr, ShiftLeft, ShiftRight;
    ValueOfZeros([]);
    if n == k {
      ValueOfZeros(r[..k]);
      assert a[..0] == [];
    } else {
      var m := n - 1;
      var x := a[m - k];
      LeftPrefix(a, r, k, s, m);
      TopSmall(a, k, s, m);
      LimbParts(x, s, Top(a, k, s, m));
      assert r[..n] == r[..m] + [r[m]] && a[..n - k] == a[..m - k] + [x];
      ValueSnoc(r[..m], r[m]);
      ValueSnoc(a[..m - k], x);
      WorthNext(m);
      WorthSum(m - k, k);
      LeftMoves(Value(r[..m]), Value(a[..m - k]), x, Top(a, k, s, m), Top(a, k, s, n), ShiftLeft(x, s), Pow2(s), Worth(m - k), Worth(k));
    }
  }

  lemma WorthSum(m: nat, n: nat)
    ensures Worth(m + n) == Worth(m) * Worth(n)
  {
    Pow2Sum(32 * m, 32 * n);
  }

  lemma LeftMoves(r: nat, a: nat, x: nat, below: nat, above: nat, low: nat, p: nat, w: nat, wk: nat)
    requires r + below * (w * wk) == a * (p * wk)
    requires x * p == low + above * WORDS
    ensures r + (below + low) * (w * wk) + above * (WORDS * (w * wk)) == (a + x * w) * (p * wk)
  {
    var ww := w * wk;
    Distribute(below, low, ww);
    Associate(above, WORDS, ww);
    Distribute(low, above * WORDS, ww);
    Distribute(a, x * w, p * wk);
    Regroup(x, w, p, wk);
  }

  lemma Regroup(x: int, w: int, p: int, wk: int)
    ensures x * w * (p * wk) == x * p * (w * wk)
  {
    Associate(x, w, p * wk);
    Associate(w, p, wk);
    Commute(w, p);
    Associate(p, w, wk);
    Associate(x, p, w * wk);
  }

  lemma LeftShifts(a: seq<Word>, r: seq<Word>, shift: nat)
    requires |r| == |a|
    requires forall j :: 0 <= j < |a| ==> r[j] == LeftLimb(a, shift / 32, shift % 32, |a|, j)
    ensures Value(r) == Value(a) * Pow2(shift) % Worth(|a|)
  {
    hide Worth, Value, Pow2, BitOr, ShiftLeft, ShiftRight;
    var k, s, n := shift / 32, shift % 32, |a|;
    ShiftParts(shift);
    if k >= n {
      ValueOfZeros(r);
      WorthSum(n, k - n);
      AllLost(Value(a), Pow2(s), Worth(n), Worth(k - n));
    } else {
      LeftShiftsSome(a, r, k, s);
    }
  }

  lemma LeftShiftsSome(a: seq<Word>, r: seq<Word>, k: nat, s: nat)
    requires |r| == |a| && s < 32 && k < |a|
    requires forall j :: 0 <= j < |a| ==> r[j] == LeftLimb(a, k, s, |a|, j)
    ensures Value(r) == Value(a) * (Pow2(s) * Worth(k)) % Worth(|a|)
  {
    hide Worth, Value, Pow2, LeftLimb, Top;
    var n := |a|;
    LeftPrefix(a, r, k, s, n);
    assert r[..n] == r && a == a[..n - k] + a[n - k..];
    ValueBound(r);
    ValueAppend(a[..n - k], a[n - k..]);
    WorthSum(n - k, k);
    SomeLost(Value(r), Value(a[..n - k]), Value(a[n - k..]), Top(a, k, s, n), Pow2(s), Worth(n - k), Worth(k));
  }

  lemma ShiftParts(shift: nat)
    ensures Pow2(shift) == Pow2(shift % 32) * Worth(shift / 32)
  {
    Pow2Sum(shift % 32, 32 * (shift / 32));
  }

  lemma AllLost(a: nat, p: nat, m: nat, rest: nat)
    requires m > 0
    ensures a * (p * (m * rest)) % m == 0
  {
    Commute(m, rest);
    Associate(p, rest, m);
    Associate(a, p * rest, m);
    QuotientUnique(a * (p * (m * rest)), m, a * (p * rest), 0);
  }

  lemma SomeLost(r: nat, low: nat, high: nat, top: nat, p: nat, w: nat, wk: nat)
    requires r < w * wk && r + top * (w * wk) == low * (p * wk)
    ensures (low + w * high) * (p * wk) % (w * wk) == r
  {
    var m := w * wk;
    Distribute(low, w * high, p * wk);
    Commute(w, high);
    Regroup(high, w, p, wk);
    Distribute(top, high * p, m);
    QuotientUnique((low + w * high) * (p * wk), m, top + high * p, r);
  }

  // Right: limb j of the result is put together from limbs j + k and j + k + 1 of a.

  function RightLimb(a: seq<Word>, k: nat, s: nat, i: nat, j: nat): Word
    requires s < 32 && i <= |a|
  {
    if j + k >= i then 0
    else if j + k + 1 >= i || s == 0 then ShiftRight(a[j + k], s)
    else BitOr(ShiftRight(a[j + k], s), ShiftLeft(a[j + k + 1], 32 - s))
  }

  /** Shifting a word left by 32 - s keeps its low s bits, and puts them above what a right shift by s leaves. */
  lemma LowHalf(x: Word, y: Word, s: nat)
    requires 0 < s < 32
    ensures ShiftLeft(x, 32 - s) * Pow2(s) == x % Pow2(s) * WORDS
    ensures BitOr(ShiftRight(y, s), ShiftLeft(x, 32 - s)) == ShiftRight(y, s) + ShiftLeft(x, 32 - s)
  {
    hide Pow2, Or;
    Pow2Of32();
    Pow2Sum(s, 32 - s);
    HalvesOf(x, Pow2(32 - s), Pow2(s));
    HalvesOf(y, Pow2(32 - s), Pow2(s));
    LowHalfOf(x, Pow2(s), Pow2(32 - s));
    OrDisjoint(ShiftLeft(x, 32 - s), ShiftRight(y, s), 32 - s);
    OrCommutes(ShiftRight(y, s), ShiftLeft(x, 32 - s));
  }

  lemma LowHalfOf(x: Word, p: nat, h: nat)
    requires p >= 1 && h >= 1 && p * h == WORDS && h * p == WORDS
    requires x * h == x * h % WORDS + x / p * WORDS
    ensures x * h % WORDS * p == x % p * WORDS
  {
    var low, q := x * h % WORDS, x / p;
    DivMod(x, p);
    // x h = low + q 2^32 and x = q p + x % p, so low = (x % p) h
    Distribute(q * p, x % p, h);
    Associate(q, p, h);
    Associate(x % p, h, p);
  }

  lemma {:induction false} RightNumber(b: seq<Word>, r: seq<Word>, s: nat)
    requires s < 32 && |r| == |b| > 0
    requires forall j :: 0 <= j < |b| ==> r[j] == RightLimb(b, 0, s, |b|, j)
    ensures Value(r) * Pow2(s) + b[0] % Pow2(s) == Value(b)
  {
    hide Pow2, BitOr, ShiftLeft, ShiftRight;
    DivMod(b[0], Pow2(s));
    ShiftRightIs(b[0], s);
    if |b| == 1 {
      ValueOne(r[0]);
      ValueOne(b[0]);
      assert r == [r[0]] && b == [b[0]];
    } else {
      RightNumber(b[1..], r[1..], s);
      if s == 0 {
        Pow2Of32();
        assert r == b by { forall j | 0 <= j < |b| ensures r[j] == b[j] { ShiftRightIs(b[j], 0); } }
      } else {
        LowHalf(b[1], b[0], s);
        RightMoves(b[0], b[0] / Pow2(s), ShiftLeft(b[1], 32 - s), b[1] % Pow2(s), Value(r[1..]), Value(b[1..]), Pow2(s));
      }
    }
  }

  lemma ShiftRightIs(x: Word, s: nat)
    requires s <= 32
    ensures ShiftRight(x, s) == x / Pow2(s)
    ensures s == 0 ==> ShiftRight(x, s) == x
  {
  }

  lemma RightMoves(x: nat, q: nat, low: nat, m: nat, r: nat, b: nat, p: nat)
    requires p >= 1 && x == q * p + x % p && low * p == m * WORDS && r * p + m == b
    ensures (q + low + WORDS * r) * p + x % p == x + WORDS * b
  {
    Distribute(q + low, WORDS * r, p);
    Distribute(q, low, p);
    Associate(WORDS, r, p);
  }

  lemma RightShifts(a: seq<Word>, r: seq<Word>, shift: nat)
    requires |r| == |a|
    requires forall j :: 0 <= j < |a| ==> r[j] == RightLimb(a, shift / 32, shift % 32, |a|, j)
    ensures Value(r) == Value(a) / Pow2(shift)
  {
    hide Worth, Value, Pow2, BitOr, ShiftLeft, ShiftRight;
    var k, s, n := shift / 32, shift % 32, |a|;
    ShiftParts(shift);
    if k >= n {
      ValueOfZeros(r);
      ValueBound(a);
      WorthSum(n, k - n);
      TooSmall(Value(a), Pow2(s), Worth(n), Worth(k - n));
    } else {
      RightShiftsSome(a, r, k, s);
    }
  }

  lemma TooSmall(a: nat, p: nat, w: nat, rest: nat)
    requires a < w && p >= 1 && rest >= 1
    ensures p * (w * rest) > 0 && a / (p * (w * rest)) == 0
  {
    Commute(w, rest);
    Larger(rest, w);
    Larger(p, w * rest);
    QuotientUnique(a, p * (w * rest), 0, a);
  }

  lemma RightShiftsSome(a: seq<Word>, r: seq<Word>, k: nat, s: nat)
    requires |r| == |a| && s < 32 && k < |a|
    requires forall j :: 0 <= j < |a| ==> r[j] == RightLimb(a, k, s, |a|, j)
    ensures Pow2(s) * Worth(k) > 0 && Value(r) == Value(a) / (Pow2(s) * Worth(k))
  {
    hide Worth, Value, Pow2, BitOr, ShiftLeft, ShiftRight;
    var n, b := |a|, a[k..];
    RightNumber(b, r[..n - k], s);
    assert a == a[..k] + b && r == r[..n - k] + r[n - k..];
    ValueAppend(a[..k], b);
    ValueAppend(r[..n - k], r[n - k..]);
    ValueOfZeros(r[n - k..]);
    ValueBound(a[..k]);
    DivMod(b[0], Pow2(s));
    DividedTwice(Value(a), Value(a[..k]), Value(b), Value(r), b[0] % Pow2(s), Pow2(s), Worth(k));
  }

  lemma DividedTwice(a: nat, low: nat, b: nat, r: nat, m: nat, p: nat, w: nat)
    requires low < w && m < p && a == low + w * b && b == r * p + m
    ensures p * w > 0 && a / (p * w) == r
  {
    // a = r (p w) + (m w + low), and m w + low < p w
    Commute(w, b);
    Distribute(r * p, m, w);
    Associate(r, p, w);
    Larger(p - m, w);
    Distribute(p, 0 - m, w);
    assert m * w >= 0;
    QuotientUnique(a, p * w, r, m * w + low);
  }
}
