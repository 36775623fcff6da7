/** gcd and permute_args of compat/getopt/getopt_long.c: two adjacent blocks are exchanged in place by
    following gcd(|A|, |B|) cycles of positions. */
module PermuteArgs {
  import opened Powers

  /** gcd.  The ghost results witness that it divides both arguments (ka, kb) and is a combination of
      them (x, y), so every common divisor divides it. */
  method Gcd(a0: nat, b0: nat) returns (g: nat, ghost ka: nat, ghost kb: nat, ghost x: int, ghost y: int)
    requires a0 > 0 && b0 > 0
    ensures g > 0 && a0 == ka * g && b0 == kb * g
    ensures x * a0 + y * b0 == g
  {
    hide Combines;
    var a, b := a0, b0;
    var c := a % b;
    // a0 == p*a + q*b, b0 == r*a + s*b;  a == x0*a0 + y0*b0, b == x*a0 + y*b0
    ghost var p, q, r, s := 1, 0, 0, 1;
    ghost var x0, y0 := 1, 0;
    x, y := 0, 1;
    CombinesAlone(a0, b0);
    while c != 0
      invariant a > 0 && b > 0 && c == a % b
      invariant p >= 0 && q >= 0 && r >= 0 && s >= 0
      invariant Combines(a0, p, a, q, b) && Combines(b0, r, a, s, b)
      invariant Combines(a, x0, a0, y0, b0) && Combines(b, x, a0, y, b0)
      decreases b
    {
      ghost var k := a / b;
      DivMod(a, b);
      Step(a0, b0, p, q, r, s, x0, y0, x, y, a, b, k, c);
      p, q, r, s := p * k + q, p, r * k + s, r;
      x0, y0, x, y := x, y, x0 - k * x, y0 - k * y;
      a := b;
      b := c;
      c := a % b;
    }
    g := b;
    DivMod(a, b);
    Step(a0, b0, p, q, r, s, x0, y0, x, y, a, b, a / b, 0);
    ka, kb := p * (a / b) + q, r * (a / b) + s;
    CombinesEnds(a0, ka, g, p, b0, kb, r, x, y);
  }

  /** n is the combination of a and b with the coefficients p and q. */
  ghost predicate Combines(n: int, p: int, a: int, q: int, b: int) { n == p * a + q * b }

  lemma CombinesAlone(a: int, b: int)
    ensures Combines(a, 1, a, 0, b) && Combines(b, 0, a, 1, b)
  {
  }

  lemma CombinesEnds(m: int, km: int, g: int, p: int, n: int, kn: int, r: int, x: int, y: int)
    requires Combines(m, km, g, p, 0) && Combines(n, kn, g, r, 0) && Combines(g, x, m, y, n)
    ensures m == km * g && n == kn * g && x * m + y * n == g
  {
  }

  /** One division of a by b, with quotient k and remainder c. */
  lemma Step(m: int, n: int, p: int, q: int, r: int, s: int, x0: int, y0: int, x: int, y: int, a: int, b: int, k: int, c: int)
    requires p >= 0 && q >= 0 && r >= 0 && s >= 0 && a > 0 && b > 0 && a == k * b + c && 0 <= c < b
    requires Combines(m, p, a, q, b) && Combines(n, r, a, s, b)
    requires Combines(a, x0, m, y0, n) && Combines(b, x, m, y, n)
    ensures k >= 0 && p * k + q >= 0 && r * k + s >= 0
    ensures Combines(m, p * k + q, b, p, c) && Combines(n, r * k + s, b, r, c)
    ensures Combines(c, x0 - k * x, m, y0 - k * y, n)
  {
    hide Combines;
    QuotientUnique(a, b, k, c);
    DivisionShrinks(a, b);
    NonNegative(p, k);
    NonNegative(r, k);
    EuclidStep(m, p, q, a, b, k, c);
    EuclidStep(n, r, s, a, b, k, c);
    BezoutStep(m, n, x0, y0, x, y, a, b, k, c);
  }

  lemma EuclidStep(n: int, p: int, q: int, a: int, b: int, k: int, c: int)
    requires Combines(n, p, a, q, b) && a == k * b + c
    ensures Combines(n, p * k + q, b, p, c)
  {
    DistributeLeft(p, k * b, c);
    Associate(p, k, b);
    Distribute(p * k, q, b);
  }

  lemma BezoutStep(m: int, n: int, x0: int, y0: int, x: int, y: int, a: int, b: int, k: int, c: int)
    requires Combines(a, x0, m, y0, n) && Combines(b, x, m, y, n) && a == k * b + c
    ensures Combines(c, x0 - k * x, m, y0 - k * y, n)
  {
    DistributeLeft(k, x * m, y * n);
    Associate(k, x, m);
    Associate(k, y, n);
    Distribute(x0 - k * x, k * x, m);
    Distribute(y0 - k * y, k * y, n);
  }

  // ---- one cycle -------------------------------------------------------------------------------

  /** The sizes of a rotation: blocks of a*g and b*g elements, a and b without a common divisor.
      u inverts b modulo a + b. */
  datatype Sizes = Sizes(g: nat, a: nat, b: nat, u: int)
  {
    ghost predicate Valid() {
      g > 0 && a > 0 && b > 0 && (u * b) % (a + b) == 1
    }

    ghost function A(): int { a * g }
    ghost function B(): int { b * g }
    ghost function L(): int { a + b }
    ghost function N(): int { (a + b) * g }

    /** Where the element at p belongs, and which element belongs at p. */
    ghost function Next(p: int): int { if p >= A() then p - A() else p + B() }
    ghost function Prev(p: int): int { if p < B() then p + A() else p - B() }

    /** How many steps along its cycle position q*g + r is from the cycle's start a*g + r. */
    ghost function Index(q: int): int
      requires Valid()
    {
      ((q - a) * u) % L()
    }
  }

  /** A multiple of n that is smaller than n is zero. */
  lemma SmallMultiple(d: int, n: int)
    requires n > 0 && -n < d * n < n
    ensures d == 0
  {
    if d > 0 {
      Distribute(d - 1, 1, n);
    } else if d < 0 {
      Distribute(-d - 1, 1, n);
    }
  }

  lemma ModMultiple(x: int, k: int, n: int)
    requires n > 0
    ensures (x + k * n) % n == x % n
  {
    var m := x / n;
    assert x == m * n + x % n;
    Distribute(m, k, n);
    QuotientUnique(x + k * n, n, m + k, x % n);
  }

  lemma ModPlusOne(x: int, n: int)
    requires n > 1
    ensures (x + 1) % n == (x % n + 1) % n
  {
    var m := x / n;
    assert x + 1 == (x % n + 1) + m * n;
    ModMultiple(x % n + 1, m, n);
  }

  lemma CancelFactor(s: int, g: int)
    requires g > 0 && s * g == g
    ensures s == 1
  {
    Distribute(s, 1, g);
    SmallMultiple(s - 1, g);
  }

  lemma CancelBezout(a: int, b: int, g: int, x: int, y: int)
    requires g > 0 && x * (a * g) + y * (b * g) == g
    ensures x * a + y * b == 1
  {
    Associate(x, a, g);
    Associate(y, b, g);
    Distribute(x * a, y * b, g);
    CancelFactor(x * a + y * b, g);
  }

  lemma InverseFromBezout(a: int, b: int, x: int, y: int)
    requires a + b > 1 && x * a + y * b == 1
    ensures ((y - x) * b) % (a + b) == 1
  {
    Distribute(y, x, b);
    Distribute(a, b, x);
    var xl := x * (a + b);
    assert (y - x) * b == 1 - xl;
    assert (-x) * (a + b) == -xl;
    ModMultiple(1, -x, a + b);
  }

  lemma MakeSizes(A: nat, B: nat, g: nat, a: nat, b: nat, x: int, y: int) returns (z: Sizes)
    requires A > 0 && B > 0 && g > 0 && A == a * g && B == b * g && x * A + y * B == g
    ensures z.Valid() && z.g == g && z.a == a && z.b == b
  {
    assert a > 0;
    assert b > 0;
    CancelBezout(a, b, g, x, y);
    InverseFromBezout(a, b, x, y);
    z := Sizes(g, a, b, y - x);
  }

  lemma IndexStart(z: Sizes)
    requires z.Valid()
    ensures z.Index(z.a) == 0
  {
    assert (z.a - z.a) * z.u == 0;
  }

  lemma IndexNext(z: Sizes, q: int)
    requires z.Valid() && 0 <= q < z.L()
    ensures z.Index(if q >= z.a then q - z.a else q + z.b) == (z.Index(q) + 1) % z.L()
  {
    IndexForward(q, z.a, z.b, z.u, z.u * z.b / (z.a + z.b));
  }

  lemma ModShift(x: int, y: int, k: int, n: int)
    requires n > 1 && y == x + 1 + k * n
    ensures y % n == (x % n + 1) % n
  {
    ModMultiple(x + 1, k, n);
    ModPlusOne(x, n);
  }

  lemma StepUp(d: int, b: int, u: int, m: int, L: int)
    requires u * b == m * L + 1
    ensures (d + b) * u == d * u + 1 + m * L
  {
    Distribute(d, b, u);
    Associate(u, b, 1);
  }

  lemma StepDown(d: int, b: int, u: int, m: int, L: int)
    requires (d + b) * u == d * u + 1 + m * L
    ensures (d + b - L) * u == d * u + 1 + (m - u) * L
  {
    Distribute(d + b, L, u);
    Distribute(m, u, L);
    Associate(L, u, 1);
  }

  lemma IndexForward(q: int, a: int, b: int, u: int, m: int)
    requires a + b > 1 && u * b == m * (a + b) + 1
    ensures ((q + b - a) * u) % (a + b) == (((q - a) * u) % (a + b) + 1) % (a + b)
    ensures ((q - a - a) * u) % (a + b) == (((q - a) * u) % (a + b) + 1) % (a + b)
  {
    var L, d := a + b, q - a;
    StepUp(d, b, u, m, L);
    ModShift(d * u, (d + b) * u, m, L);
    StepDown(d, b, u, m, L);
    ModShift(d * u, (d + b - L) * u, m - u, L);
    assert q + b - a == d + b && q - a - a == d + b - L;
  }

  lemma IndexInjective(z: Sizes, q: int, q': int)
    requires z.Valid() && 0 <= q < z.L() && 0 <= q' < z.L() && z.Index(q) == z.Index(q')
    ensures q == q'
  {
    var L, u := z.a + z.b, z.u;
    SameRemainder((q - z.a) * u, (q' - z.a) * u, L);
    var k := ((q - z.a) * u) / L - ((q' - z.a) * u) / L;
    Distribute(q - z.a, q' - z.a, u);
    DivMod(u * z.b, L);
    Cancel(q - q', u, z.b, k, (u * z.b) / L, L);
  }

  lemma SameRemainder(x: int, y: int, n: int)
    requires n > 0 && x % n == y % n
    ensures x - y == (x / n - y / n) * n
  {
    DivMod(x, n);
    DivMod(y, n);
    Distribute(x / n, y / n, n);
  }

  /** d*u is a multiple of L and u is invertible, so d is a multiple of L. */
  lemma Cancel(d: int, u: int, b: int, k: int, m: int, L: int)
    requires L > 0 && d * u == k * L && u * b == m * L + 1 && -L < d < L
    ensures d == 0
  {
    Associate(d, u, b);
    Distribute(m * L, 1, d);
    Associate(d, m, L);
    Associate(k, L, b);
    Associate(k, b, L);
    Distribute(k * b, d * m, L);
    SmallMultiple(k * b - d * m, L);
  }

  // ---- positions -------------------------------------------------------------------------------

  /** Position q*g + r is in class r; its place along the cycle of the class depends on q. */
  ghost function StepOf(z: Sizes, p: nat): int
    requires z.Valid()
  {
    z.Index(p / z.g)
  }

  lemma MultipleAdded(p: int, k: int, g: int)
    requires g > 0
    ensures (p + k * g) / g == p / g + k && (p + k * g) % g == p % g
    ensures (p - k * g) / g == p / g - k && (p - k * g) % g == p % g
  {
    DivMod(p, g);
    Distribute(p / g, k, g);
    QuotientUnique(p + k * g, g, p / g + k, p % g);
    Distribute(p / g - k, k, g);
    QuotientUnique(p - k * g, g, p / g - k, p % g);
  }

  /** One step along a cycle, in terms of quotients. */
  lemma NextQuotient(z: Sizes, p: nat)
    requires z.Valid() && p < z.N()
    ensures var q := p / z.g;
            && 0 <= q < z.L() && (p >= z.A() <==> q >= z.a)
            && z.Next(p) / z.g == (if q >= z.a then q - z.a else q + z.b) && z.Next(p) % z.g == p % z.g
  {
    hide Sizes.Index;
    QuotientRange(p, z.a + z.b, z.g);
    DivMod(p, z.g);
    QuotientBelow(p / z.g, p % z.g, z.a, z.g);
    if p >= z.A() { MultipleAdded(p, z.a, z.g); } else { MultipleAdded(p, z.b, z.g); }
  }

  lemma NextFacts(z: Sizes, p: nat)
    requires z.Valid() && p < z.N()
    ensures 0 <= z.Next(p) < z.N() && z.Next(p) % z.g == p % z.g
    ensures StepOf(z, z.Next(p)) == (StepOf(z, p) + 1) % z.L()
    ensures z.Prev(z.Next(p)) == p
  {
    hide Sizes.Index;
    Distribute(z.a, z.b, z.g);
    NonNegative(z.a, z.g);
    NonNegative(z.b, z.g);
    NextQuotient(z, p);
    IndexNext(z, p / z.g);
  }

  lemma QuotientBelow(q: int, r: int, n: int, g: int)
    requires 0 <= r < g
    ensures q * g + r < n * g <==> q < n
  {
    Distribute(q, n, g);
    if q < n {
      Distribute(n - q - 1, 1, g);
      NonNegative(n - q - 1, g);
    } else {
      NonNegative(q - n, g);
    }
  }

  lemma QuotientRange(p: int, n: int, g: int)
    requires g > 0 && 0 <= p < n * g
    ensures 0 <= p / g < n
  {
    DivMod(p, g);
    QuotientBelow(p / g, p % g, n, g);
  }

  lemma SamePosition(p: int, p': int, g: int)
    requires g > 0 && p % g == p' % g && p / g == p' / g
    ensures p == p'
  {
    DivMod(p, g);
    DivMod(p', g);
  }

  lemma StepInjective(z: Sizes, p: nat, p': nat)
    requires z.Valid() && p < z.N() && p' < z.N()
    requires p % z.g == p' % z.g && StepOf(z, p) == StepOf(z, p')
    ensures p == p'
  {
    hide Sizes.Index;
    QuotientRange(p, z.a + z.b, z.g);
    QuotientRange(p', z.a + z.b, z.g);
    IndexInjective(z, p / z.g, p' / z.g);
    SamePosition(p, p', z.g);
  }

  lemma StartFacts(z: Sizes, i: nat)
    requires z.Valid() && i < z.g
    ensures 0 <= z.A() + i < z.N() && (z.A() + i) % z.g == i && StepOf(z, z.A() + i) == 0
  {
    QuotientUnique(z.A() + i, z.g, z.a, i);
    QuotientBelow(z.a, i, z.a + z.b, z.g);
    NonNegative(z.a, z.g);
    IndexStart(z);
  }

  lemma PrevFacts(z: Sizes, p: nat)
    requires z.Valid() && p < z.N()
    ensures 0 <= z.Prev(p) < z.N() && z.Next(z.Prev(p)) == p
  {
    Distribute(z.a, z.b, z.g);
    NonNegative(z.a, z.g);
    NonNegative(z.b, z.g);
  }

  // ---- the block between the loops -------------------------------------------------------------

  /** What stands at p when the cycles of classes 0..i-1 are done and j steps of cycle i are taken;
      cur is the position those steps have reached. */
  ghost function At<T>(before: seq<T>, z: Sizes, i: nat, j: nat, cur: nat, p: nat): T
    requires z.Valid() && |before| == z.N() && i < z.g && cur < z.N() && p < z.N()
  {
    PrevFacts(z, p);
    if p % z.g < i then before[z.Prev(p)]
    else if p % z.g > i then before[p]
    else if StepOf(z, p) == 0 then before[cur]
    else if StepOf(z, p) <= j then before[z.Prev(p)]
    else before[p]
  }

  ghost predicate Cycling<T>(v: seq<T>, before: seq<T>, z: Sizes, i: nat, j: nat, cur: nat)
    requires z.Valid() && |before| == z.N() && i < z.g && cur < z.N()
  {
    |v| == z.N() && forall p :: 0 <= p < |v| ==> v[p] == At(before, z, i, j, cur, p)
  }

  /** The cycles of classes 0..i-1 are done: every element of these classes has moved to its place. */
  ghost predicate Rotated<T>(v: seq<T>, before: seq<T>, z: Sizes, i: nat)
    requires z.Valid() && |before| == z.N()
  {
    && |v| == z.N()
    && forall p :: 0 <= p < |v| ==>
         0 <= z.Prev(p) < |v| && v[p] == if p % z.g < i then before[z.Prev(p)] else before[p]
  }

  lemma CycleBegins<T>(v: seq<T>, before: seq<T>, z: Sizes, i: nat)
    requires z.Valid() && |before| == z.N() && i < z.g && Rotated(v, before, z, i)
    ensures 0 <= z.A() + i < z.N() && Cycling(v, before, z, i, 0, z.A() + i)
  {
    hide StepOf;
    StartFacts(z, i);
    forall p | 0 <= p < |v|
      ensures v[p] == At(before, z, i, 0, z.A() + i, p)
    {
      StepRange(z, p);
      if p % z.g == i && StepOf(z, p) == 0 {
        StepInjective(z, p, z.A() + i);
      }
    }
  }

  lemma StepRange(z: Sizes, p: nat)
    requires z.Valid()
    ensures 0 <= StepOf(z, p) < z.L()
  {
  }

  /** One swap of the inner loop carries the element in hand one step along the cycle. */
  lemma CycleStep<T>(v: seq<T>, before: seq<T>, z: Sizes, i: nat, j: nat, cur: nat)
    requires z.Valid() && |before| == z.N() && i < z.g && cur < z.N()
    requires Cycling(v, before, z, i, j, cur) && cur % z.g == i && StepOf(z, cur) == j && j + 1 < z.L()
    ensures var c, next := z.A() + i, z.Next(cur);
            0 <= c < |v| && 0 <= next < |v| && next % z.g == i && StepOf(z, next) == j + 1
            && Cycling(v[next := v[c]][c := v[next]], before, z, i, j + 1, next)
  {
    hide StepOf, Sizes.Next, Sizes.Prev, Sizes.A, Sizes.B, Sizes.N, Sizes.L, Sizes.Valid;
    StartFacts(z, i);
    NextFacts(z, cur);
    ModSmall(j + 1, z.L());
    var c, next := z.A() + i, z.Next(cur);
    var w := v[next := v[c]][c := v[next]];
    forall p | 0 <= p < |w|
      ensures w[p] == At(before, z, i, j + 1, next, p)
    {
      StepRange(z, p);
      if p % z.g == i {
        if StepOf(z, p) == 0 {
          StepInjective(z, p, c);
        } else if StepOf(z, p) == j + 1 {
          StepInjective(z, p, next);
        }
      }
    }
  }

  lemma ModSmall(x: int, n: int)
    requires 0 <= x < n
    ensures x % n == x
  {
  }

  lemma ModWraps(n: int)
    requires n > 0
    ensures n % n == 0 && (n - 1 + 1) % n == 0
  {
  }

  /** The last swap of a cycle is of the start with itself, and by then the whole class has moved. */
  lemma CycleEnds<T>(v: seq<T>, before: seq<T>, z: Sizes, i: nat, cur: nat)
    requires z.Valid() && |before| == z.N() && i < z.g && cur < z.N()
    requires Cycling(v, before, z, i, z.L() - 1, cur) && cur % z.g == i && StepOf(z, cur) == z.L() - 1
    ensures z.Next(cur) == z.A() + i
    ensures Rotated(v, before, z, i + 1)
  {
    hide StepOf, Sizes.Next, Sizes.Prev, Sizes.A, Sizes.B, Sizes.N, Sizes.Valid;
    StartFacts(z, i);
    NextFacts(z, cur);
    StepRange(z, cur);
    ModWraps(z.L());
    StepInjective(z, z.Next(cur), z.A() + i);
    forall p | 0 <= p < |v|
      ensures 0 <= z.Prev(p) < |v|
      ensures v[p] == if p % z.g < i + 1 then before[z.Prev(p)] else before[p]
    {
      PrevFacts(z, p);
      StepRange(z, p);
      if p % z.g == i && StepOf(z, p) == 0 {
        StepInjective(z, p, z.A() + i);
      }
    }
  }

  lemma RotationBegins<T>(v: seq<T>, z: Sizes)
    requires z.Valid() && |v| == z.N()
    ensures Rotated(v, v, z, 0)
  {
    forall p | 0 <= p < |v|
      ensures 0 <= z.Prev(p) < |v|
    {
      PrevFacts(z, p);
    }
  }

  lemma RotationEnds<T>(v: seq<T>, before: seq<T>, z: Sizes)
    requires z.Valid() && |before| == z.N() && Rotated(v, before, z, z.g)
    ensures 0 <= z.A() <= |before| && v == before[z.A()..] + before[..z.A()]
  {
    Distribute(z.a, z.b, z.g);
    NonNegative(z.a, z.g);
    NonNegative(z.b, z.g);
    forall p | 0 <= p < |v|
      ensures v[p] == (before[z.A()..] + before[..z.A()])[p]
    {
      assert p % z.g < z.g;
    }
  }

  // ---- permute_args ----------------------------------------------------------------------------

  /** permute_args: the block start..end and the block end..optEnd change places. */
  method Permute<T>(start: nat, end: nat, optEnd: nat, nargv: array<T>)
    requires start < end < optEnd <= nargv.Length
    modifies nargv
    ensures nargv[..] == old(nargv[..start] + nargv[end..optEnd] + nargv[start..end] + nargv[optEnd..])
  {
    hide Rotated, Cycling, StepOf, Sizes.Next, Sizes.Prev, Sizes.A, Sizes.B, Sizes.N, Sizes.L, Sizes.Valid, Sizes.Index;
    var nnonopts := end - start;
    var nopts := optEnd - end;
    var ncycle, ka, kb, x, y := Gcd(nnonopts, nopts);
    var cyclelen := (optEnd - start) / ncycle;
    ghost var z := MakeSizes(nnonopts, nopts, ncycle, ka, kb, x, y);
    SizesOf(z, nnonopts, nopts, cyclelen);
    ghost var block := nargv[start..optEnd];
    ghost var before := nargv[..];
    RotationBegins(block, z);
    var i := 0;
    while i < ncycle
      invariant 0 <= i <= ncycle
      invariant nargv[..start] == before[..start] && nargv[optEnd..] == before[optEnd..]
      invariant Rotated(nargv[start..optEnd], block, z, i)
    {
      Cycle(start, end, optEnd, nargv, i, nnonopts, nopts, cyclelen, block, z);
      i := i + 1;
    }
    RotationEnds(nargv[start..optEnd], block, z);
    Assemble(before, nargv[..], start, end, optEnd);
  }

  lemma Assemble<T>(before: seq<T>, v: seq<T>, start: nat, end: nat, optEnd: nat)
    requires start < end < optEnd <= |before| == |v|
    requires v[..start] == before[..start] && v[optEnd..] == before[optEnd..]
    requires var block := before[start..optEnd]; v[start..optEnd] == block[end - start..] + block[..end - start]
    ensures v == before[..start] + before[end..optEnd] + before[start..end] + before[optEnd..]
  {
    var block := before[start..optEnd];
    assert block[end - start..] == before[end..optEnd] && block[..end - start] == before[start..end];
    assert v == v[..start] + v[start..optEnd] + v[optEnd..];
  }

  lemma SizesOf(z: Sizes, A: nat, B: nat, cyclelen: nat)
    requires z.Valid() && A == z.a * z.g && B == z.b * z.g && cyclelen == (A + B) / z.g
    ensures z.A() == A && z.B() == B && z.N() == A + B && z.L() == cyclelen && cyclelen > 1
  {
    Distribute(z.a, z.b, z.g);
    QuotientUnique(A + B, z.g, z.a + z.b, 0);
  }

  /** The inner loop: one cycle, started at the i-th element of the second block. */
  method Cycle<T>(start: nat, end: nat, optEnd: nat, nargv: array<T>, i: nat, nnonopts: nat, nopts: nat, cyclelen: nat,
                  ghost block: seq<T>, ghost z: Sizes)
    requires start < end < optEnd <= nargv.Length && nnonopts == end - start && nopts == optEnd - end
    requires z.Valid() && z.A() == nnonopts && z.B() == nopts && z.N() == optEnd - start && z.L() == cyclelen > 1
    requires |block| == z.N() && i < z.g && Rotated(nargv[start..optEnd], block, z, i)
    modifies nargv
    ensures nargv[..start] == old(nargv[..start]) && nargv[optEnd..] == old(nargv[optEnd..])
    ensures Rotated(nargv[start..optEnd], block, z, i + 1)
  {
    hide Rotated, Cycling, StepOf, Sizes.A, Sizes.B, Sizes.N, Sizes.L, Sizes.Valid, Sizes.Index;
    CycleBegins(nargv[start..optEnd], block, z, i);
    StartFacts(z, i);
    var cstart := end + i;
    var pos := cstart;
    var j := 0;
    while j < cyclelen
      invariant 0 <= j <= cyclelen
      invariant nargv[..start] == old(nargv[..start]) && nargv[optEnd..] == old(nargv[optEnd..])
      invariant start <= pos < optEnd
      invariant j < cyclelen ==> (pos - start) % z.g == i && StepOf(z, pos - start) == j
      invariant j < cyclelen ==> Cycling(nargv[start..optEnd], block, z, i, j, pos - start)
      invariant j == cyclelen ==> Rotated(nargv[start..optEnd], block, z, i + 1)
    {
      ghost var v := nargv[start..optEnd];
      if j + 1 < cyclelen {
        CycleStep(v, block, z, i, j, pos - start);
      } else {
        CycleEnds(v, block, z, i, pos - start);
      }
      if pos >= end {
        pos := pos - nnonopts;
      } else {
        pos := pos + nopts;
      }
      SwapWithStart(start, optEnd, nargv, pos, cstart);
      assert j + 1 == cyclelen ==> nargv[start..optEnd] == v;
      j := j + 1;
    }
  }

  method SwapWithStart<T>(start: nat, optEnd: nat, nargv: array<T>, pos: nat, cstart: nat)
    requires start <= pos < optEnd <= nargv.Length && start <= cstart < optEnd
    modifies nargv
    ensures nargv[..start] == old(nargv[..start]) && nargv[optEnd..] == old(nargv[optEnd..])
    ensures var v := old(nargv[start..optEnd]);
            nargv[start..optEnd] == v[pos - start := v[cstart - start]][cstart - start := v[pos - start]]
  {
    var swap := nargv[pos];
    nargv[pos] := nargv[cstart];
    nargv[cstart] := swap;
  }
}
