/** The choice between the user's pool and the donation pool in xmrMiner.c. The ratio is a real number here. */
module Donation {
  /** For which pool each counted share was mined, oldest first. */
  type Shares = seq<bool>

  function DevShares(s: Shares): (n: nat)
    ensures n <= |s|
  {
    if s == [] then 0 else DevShares(s[..|s| - 1]) + if s[|s| - 1] then 1 else 0
  }

  /** How far the donated shares lag behind their due part. */
  function Lag(w: real, s: Shares): real { w * |s| as real - DevShares(s) as real }

  /** The pool chosen after the shares s: the donation pool if the ratio is below the weight, but nothing is
      decided before the second share. */
  predicate MineForDev(w: real, s: Shares) {
    |s| > 1 && DevShares(s) as real / |s| as real < w
  }

  lemma ChoiceBySign(w: real, s: Shares)
    ensures MineForDev(w, s) <==> |s| > 1 && Lag(w, s) > 0.0
  {
    if |s| > 1 { Quotient(DevShares(s) as real, |s| as real, w); }
  }

  lemma Quotient(c: real, n: real, w: real)
    requires n > 0.0
    ensures c / n < w <==> c < w * n
  {
    assert c == c / n * n;
    if c / n < w { assert (w - c / n) * n > 0.0; }
    if c < w * n { assert (w - c / n) * n > 0.0; }
  }

  /** Share i was mined for the pool chosen at most k shares before it was counted. */
  ghost predicate ChosenWithin(w: real, s: Shares, k: nat, i: nat)
    requires i < |s|
  {
    exists m :: 0 <= m <= i && i - k <= m && s[i] == MineForDev(w, s[..m])
  }

  /** A whole run of the scheduler. */
  ghost predicate Run(w: real, s: Shares, k: nat) {
    forall i :: 0 <= i < |s| ==> ChosenWithin(w, s, k, i)
  }

  /** n times x. */
  function Times(n: nat, x: real): real { n as real * x }

  lemma TimesLaws(n: nat, k: nat, x: real)
    requires n <= k && x >= 0.0
    ensures Times(0, x) == 0.0 && Times(1, x) == x && Times(n + 1, x) == Times(n, x) + x && Times(n + 2, x) == Times(n, x) + 2.0 * x
    ensures 0.0 <= Times(n, x) <= Times(k, x)
  {
    assert (k - n) as real * x >= 0.0;
  }

  lemma OneShare(w: real, s: Shares)
    requires s != []
    ensures Lag(w, s) == Lag(w, s[..|s| - 1]) + w - if s[|s| - 1] then 1.0 else 0.0
  {
  }

  /** In n - m shares the lag rises by at most w each, and falls by at most 1 - w each. */
  lemma {:induction false} LagMoves(w: real, s: Shares, m: nat)
    requires 0.0 <= w <= 1.0 && m <= |s|
    ensures Lag(w, s) <= Lag(w, s[..m]) + Times(|s| - m, w)
    ensures Lag(w, s) >= Lag(w, s[..m]) - Times(|s| - m, 1.0 - w)
  {
    hide Lag, Times;
    TimesLaws(0, 0, w);
    TimesLaws(0, 0, 1.0 - w);
    if m == |s| {
      assert s[..m] == s;
    } else {
      var n := |s| - 1;
      var before := s[..n];
      assert before[..m] == s[..m];
      LagMoves(w, before, m);
      OneShare(w, s);
      TimesLaws(n - m, n - m, w);
      TimesLaws(n - m, n - m, 1.0 - w);
    }
  }

  lemma RunOfPrefix(w: real, s: Shares, k: nat, n: nat)
    requires Run(w, s, k) && n <= |s|
    ensures Run(w, s[..n], k)
  {
    forall i | 0 <= i < n ensures ChosenWithin(w, s[..n], k, i) {
      assert ChosenWithin(w, s, k, i);
      var m :| 0 <= m <= i && i - k <= m && s[i] == MineForDev(w, s[..m]);
      assert s[..n][..m] == s[..m];
    }
  }

  /** The lag never leaves a band whose width depends only on the weight and on how old a choice can be. */
  lemma {:induction false} LagBounded(w: real, s: Shares, k: nat)
    requires 0.0 < w <= 1.0 && Run(w, s, k)
    ensures -Times(k + 1, 1.0 - w) <= Lag(w, s) <= Times(k + 2, w)
  {
    hide Lag, MineForDev, DevShares, Times;
    TimesLaws(k, k, w);
    TimesLaws(k, k, 1.0 - w);
    if s == [] {
      NoShares(w);
    } else {
      var n := |s| - 1;
      var before := s[..n];
      RunOfPrefix(w, s, k, n);
      LagBounded(w, before, k);
      OneShare(w, s);
      assert ChosenWithin(w, s, k, n);
      var m :| 0 <= m <= n && n - k <= m && s[n] == MineForDev(w, s[..m]);
      assert before[..m] == s[..m];
      ChoiceNearby(w, before, m, k);
      StaysInBand(Lag(w, s), Lag(w, before), w, Times(k, w), Times(k, 1.0 - w), s[n]);
    }
  }

  lemma NoShares(w: real)
    ensures Lag(w, []) == 0.0
  {
  }

  /** Near the upper edge a share is donated, near the lower edge it is not. */
  lemma StaysInBand(now: real, before: real, w: real, high: real, low: real, dev: bool)
    requires 0.0 < w <= 1.0 && now == before + w - (if dev then 1.0 else 0.0)
    requires -low - (1.0 - w) <= before <= high + 2.0 * w
    requires before > high + w ==> dev
    requires before < -low ==> !dev
    ensures -low - (1.0 - w) <= now <= high + 2.0 * w
  {
  }

  /** A choice at most k shares old donates when the lag is now well above zero, and does not when it is well below. */
  lemma ChoiceNearby(w: real, s: Shares, m: nat, k: nat)
    requires 0.0 < w <= 1.0 && m <= |s| && |s| - k <= m
    ensures Lag(w, s) > Times(k, w) + w ==> MineForDev(w, s[..m])
    ensures Lag(w, s) < -Times(k, 1.0 - w) ==> !MineForDev(w, s[..m])
  {
    hide Lag, MineForDev, DevShares, Times;
    LagMoves(w, s, m);
    ChoiceBySign(w, s[..m]);
    TimesLaws(|s| - m, k, w);
    TimesLaws(|s| - m, k, 1.0 - w);
    if m <= 1 { LagStartsSmall(w, s[..m]); }
    NearbySigns(Lag(w, s), Lag(w, s[..m]), w, Times(|s| - m, w), Times(|s| - m, 1.0 - w), Times(k, w), Times(k, 1.0 - w));
  }

  lemma NearbySigns(now: real, chosen: real, w: real, up: real, down: real, high: real, low: real)
    requires w > 0.0 && chosen - down <= now <= chosen + up && up <= high && down <= low
    ensures now > high + w ==> chosen > w
    ensures now < -low ==> chosen < 0.0
  {
  }

  lemma LagStartsSmall(w: real, s: Shares)
    requires 0.0 < w <= 1.0 && |s| <= 1
    ensures Lag(w, s) <= w
  {
  }

  /** A weight above one cannot be met: the lag then grows without bound, whatever is chosen. */
  lemma OverweightLags(w: real, s: Shares)
    requires w > 1.0
    ensures Lag(w, s) >= |s| as real * (w - 1.0)
  {
    assert |s| as real * (w - 1.0) == w * |s| as real - |s| as real;
  }

  /** The donated shares follow the weight to within so many shares. */
  ghost predicate InBand(w: real, shareCount: nat, countDev: nat, k: nat) {
    -Times(k + 1, 1.0 - w) <= w * shareCount as real - countDev as real <= Times(k + 2, w)
  }

  lemma CountersInBand(w: real, s: Shares)
    requires w > 0.0
    ensures forall k: nat :: w <= 1.0 && Run(w, s, k) ==> InBand(w, |s|, DevShares(s), k)
  {
    hide Run, Times, DevShares;
    forall k: nat | w <= 1.0 && Run(w, s, k) ensures InBand(w, |s|, DevShares(s), k) { LagBounded(w, s, k); }
  }

  class Scheduler {
    var shareCount: nat
    var countDev: nat
    var mineForDev: bool
    const weightedDonate: real
    ghost var shares: Shares

    ghost predicate Valid()
      reads this
    {
      && shareCount == |shares| && countDev == DevShares(shares)
      && mineForDev == MineForDev(weightedDonate, shares)
    }

    constructor (weight: real)
      ensures Valid() && shares == [] && weightedDonate == weight
    {
      shareCount, countDev, mineForDev, shares := 0, 0, false, [];
      weightedDonate := weight;
    }

    /** The pool that new work is fetched from. */
    method GetWork() returns (dev: bool)
      requires Valid()
      ensures dev == MineForDev(weightedDonate, shares)
    {
      dev := mineForDev;
    }

    /** A share is counted and the pool for the next work is chosen; restart says whether the miners must change pools. */
    method Submit(dev: bool) returns (restart: bool)
      requires Valid() && weightedDonate > 0.0
      modifies this
      ensures Valid() && shares == old(shares) + [dev]
      ensures restart == (dev != MineForDev(weightedDonate, shares))
      ensures forall k: nat :: weightedDonate <= 1.0 && Run(weightedDonate, shares, k) ==> InBand(weightedDonate, shareCount, countDev, k)
    {
      hide Run, InBand;
      shares := shares + [dev];
      assert shares[..|shares| - 1] == old(shares);
      shareCount := shareCount + 1;
      if dev { countDev := countDev + 1; }
      if shareCount > 1 {
        var ratio := countDev as real / shareCount as real;
        mineForDev := ratio < weightedDonate;
      }
      restart := dev != mineForDev;
      CountersInBand(weightedDonate, shares);
    }
  }
}
