/** Powers of two, numbers in limbs, and the shifts and bitwise or of the C code as arithmetic on numbers. */
module Powers {
  import opened MachineWords
  import opened Limbs

  function Pow2(n: nat): (p: nat)
    ensures p >= 1
  {
    if n == 0 then 1 else 2 * Pow2(n - 1)
  }

  lemma {:induction false} Pow2Sum(m: nat, n: nat)
    ensures Pow2(m + n) == Pow2(m) * Pow2(n)
  {
    if m > 0 {
      Pow2Sum(m - 1, n);
      Associate(2, Pow2(m - 1), Pow2(n));
    }
  }

  lemma Pow2Of32()
    ensures Pow2(32) == WORDS && Pow2(0) == 1 && Pow2(4) == 16 && Pow2(8) == 256
  {
    assert Pow2(8) == 256;
    assert Pow2(16) == 65536 by { Pow2Sum(8, 8); }
    Pow2Sum(16, 16);
  }

  // Products, one step at a time.

  lemma Associate(x: int, y: int, z: int)
    ensures x * y * z == x * (y * z)
  {
  }

  lemma Distribute(x: int, y: int, z: int)
    ensures (x + y) * z == x * z + y * z
  {
  }

  lemma DistributeLeft(x: int, y: int, z: int)
    ensures x * (y + z) == x * y + x * z
  {
  }

  lemma NonNegative(x: nat, y: nat)
    ensures 0 <= x * y
  {
  }

  lemma Commute(x: int, y: int)
    ensures x * y == y * x
  {
  }

  lemma DivMod(x: int, d: int)
    requires d > 0
    ensures x == x / d * d + x % d && 0 <= x % d < d
  {
  }

  /** Quotient and remainder are the only ones. */
  lemma QuotientUnique(x: int, d: int, q: int, r: int)
    requires d > 0 && x == q * d + r && 0 <= r < d
    ensures x / d == q && x % d == r
  {
    DivMod(x, d);
    Distribute(q, -(x / d), d);
    if q > x / d { Larger(q - x / d, d); } else if q < x / d { Larger(x / d - q, d); }
  }

  lemma Larger(k: int, d: int)
    requires k >= 1 && d > 0
    ensures k * d >= d
  {
    Distribute(k - 1, 1, d);
    assert (k - 1) * d >= 0;
  }

  // Limbs.

  /** What a limb at position n is worth. */
  function Worth(n: nat): (p: nat)
    ensures p >= 1
  {
    Pow2(32 * n)
  }

  lemma WorthNext(n: nat)
    ensures Worth(0) == 1 && Worth(n + 1) == WORDS * Worth(n)
  {
    Pow2Of32();
    Pow2Sum(32, 32 * n);
  }

  lemma {:induction false} ValueAppend(a: seq<Word>, b: seq<Word>)
    ensures Value(a + b) == Value(a) + Worth(|a|) * Value(b)
  {
    hide Worth;
    WorthNext(0);
    if a == [] {
      assert a + b == b;
    } else {
      assert (a + b)[1..] == a[1..] + b;
      ValueAppend(a[1..], b);
      WorthNext(|a| - 1);
      Associate(WORDS, Worth(|a| - 1), Value(b));
    }
  }

  lemma ValueOne(x: Word)
    ensures Value([x]) == x
  {
    assert [x][1..] == [];
    assert Value([]) == 0;
  }

  lemma ValueSnoc(a: seq<Word>, x: Word)
    ensures Value(a + [x]) == Value(a) + x * Worth(|a|)
  {
    hide Worth, Value;
    ValueAppend(a, [x]);
    ValueOne(x);
    Commute(Worth(|a|), x);
  }

  lemma {:induction false} ValueBound(a: seq<Word>)
    ensures Value(a) < Worth(|a|)
  {
    hide Worth;
    WorthNext(0);
    if a != [] {
      ValueBound(a[1..]);
      WorthNext(|a| - 1);
    }
  }

  /** Equal numbers have equal limbs. */
  lemma {:induction false} ValueInjective(a: seq<Word>, b: seq<Word>)
    requires |a| == |b| && Value(a) == Value(b)
    ensures a == b
  {
    if a != [] {
      ValueInjective(a[1..], b[1..]);
      assert a == [a[0]] + a[1..] && b == [b[0]] + b[1..];
    }
  }

  lemma {:induction false} ValueOfZeros(a: seq<Word>)
    requires forall k :: 0 <= k < |a| ==> a[k] == 0
    ensures Value(a) == 0
  {
    if a != [] { ValueOfZeros(a[1..]); }
  }

  // Bitwise or, and, and shifts of 32-bit words.

  function Or(x: nat, y: nat): nat
    decreases x + y
  {
    if x == 0 && y == 0 then 0
    else 2 * Or(x / 2, y / 2) + if x % 2 == 1 || y % 2 == 1 then 1 else 0
  }

  /** Numbers whose bits do not meet are added. */
  lemma {:induction false} OrDisjoint(x: nat, y: nat, s: nat)
    requires x % Pow2(s) == 0 && y < Pow2(s)
    ensures Or(x, y) == x + y
  {
    if s == 0 {
      OrZero(x);
    } else {
      var q, p := x / Pow2(s), Pow2(s - 1);
      DivMod(x, Pow2(s));
      assert x == q * (2 * p);
      Associate(q, 2, p);
      assert q * 2 == 2 * q;
      Associate(2, q, p);
      QuotientUnique(x / 2, p, q, 0);
      OrDisjoint(x / 2, y / 2, s - 1);
    }
  }

  lemma {:induction false} OrCommutes(x: nat, y: nat)
    ensures Or(x, y) == Or(y, x)
    decreases x + y
  {
    if x > 0 || y > 0 { OrCommutes(x / 2, y / 2); }
  }

  lemma {:induction false} OrBound(x: nat, y: nat, n: nat)
    requires x < Pow2(n) && y < Pow2(n)
    ensures Or(x, y) < Pow2(n)
  {
    if n > 0 { OrBound(x / 2, y / 2, n - 1); }
  }

  function BitOr(x: Word, y: Word): Word {
    Pow2Of32();
    OrBound(x, y, 32);
    Or(x, y)
  }

  lemma {:induction false} OrZero(x: nat)
    ensures Or(x, 0) == x && Or(0, x) == x
  {
    if x > 0 { OrZero(x / 2); }
  }

  function And(x: nat, y: nat): (z: nat)
    decreases x + y
  {
    if x == 0 || y == 0 then 0
    else 2 * And(x / 2, y / 2) + if x % 2 == 1 && y % 2 == 1 then 1 else 0
  }

  /** The low k bits are the remainder by 2^k. */
  lemma {:induction false} MaskIsRemainder(x: nat, k: nat)
    ensures And(x, Pow2(k) - 1) == x % Pow2(k)
  {
    if k > 0 {
      hide And;
      MaskIsRemainder(x / 2, k - 1);
      AndNext(x, Pow2(k - 1));
      RemainderByTwice(x, Pow2(k - 1));
    }
  }

  lemma AndNext(x: nat, p: nat)
    requires p >= 1
    ensures And(x, 2 * p - 1) == 2 * And(x / 2, p - 1) + x % 2
  {
  }

  lemma RemainderByTwice(x: nat, p: nat)
    requires p >= 1
    ensures x % (2 * p) == 2 * (x / 2 % p) + x % 2
  {
    var q, r := x / 2 / p, x / 2 % p;
    DivMod(x / 2, p);
    assert x == 2 * (q * p) + 2 * r + x % 2;
    Associate(2, q, p);
    Commute(2, q);
    Associate(q, 2, p);
    QuotientUnique(x, 2 * p, q, 2 * r + x % 2);
  }

  /** A word shifted left: what leaves at the top is lost. */
  function ShiftLeft(x: Word, s: nat): Word
    requires s < 32
  {
    x * Pow2(s) % 0x1_0000_0000
  }

  function ShiftRight(x: Word, s: nat): (y: Word)
    requires s <= 32
    ensures y <= x
  {
    DivisionShrinks(x, Pow2(s));
    x / Pow2(s)
  }

  lemma DivisionShrinks(x: nat, d: nat)
    requires d >= 1
    ensures 0 <= x / d <= x
  {
    DivMod(x, d);
    var q := x / d;
    if q < 0 { Larger(0 - q, d); }
    if q > 0 {
      LessEqTimes(1, d, q);
      Commute(d, q);
    }
  }

  /** The two halves of a word that is shifted left by s: what stays, and what goes into the next word. */
  lemma Halves(x: Word, s: nat)
    requires 0 < s < 32
    ensures x * Pow2(s) == ShiftLeft(x, s) + ShiftRight(x, 32 - s) * WORDS
    ensures ShiftLeft(x, s) % Pow2(s) == 0 && ShiftRight(x, 32 - s) < Pow2(s)
  {
    hide Pow2;
    Pow2Of32();
    Pow2Sum(s, 32 - s);
    HalvesOf(x, Pow2(s), Pow2(32 - s));
  }

  lemma HalvesOf(x: Word, p: nat, h: nat)
    requires p >= 1 && h >= 1 && p * h == WORDS
    ensures x * p == x * p % WORDS + x / h * WORDS
    ensures x * p % WORDS % p == 0 && x / h < p
  {
    var q, r := x / h, x % h;
    DivMod(x, h);
    // x = q h + r, so x p = q 2^32 + r p with r p < 2^32
    assert x * p == q * WORDS + r * p by {
      Distribute(q * h, r, p);
      Associate(q, h, p);
      Commute(h, p);
    }
    assert r * p < WORDS by {
      LessTimes(r, h, p);
      Commute(h, p);
    }
    assert r * p >= 0;
    QuotientUnique(x * p, WORDS, q, r * p);
    QuotientUnique(r * p, p, r, 0);
    if q >= p { LessEqTimes(p, q, h); }
  }

  lemma LessTimes(r: nat, h: nat, p: nat)
    requires r < h && p > 0
    ensures r * p < h * p
  {
    Larger(h - r, p);
    Distribute(h, 0 - r, p);
  }

  lemma LessEqTimes(p: nat, q: nat, h: nat)
    requires p <= q
    ensures p * h <= q * h
  {
    Distribute(q - p, p, h);
    assert (q - p) * h >= 0;
  }
}
