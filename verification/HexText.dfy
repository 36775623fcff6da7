/** Numbers as hexadecimal text, most significant digit first, and how base_uint reads and writes single bytes. */
module HexText {
  import opened MachineWords
  import opened Limbs
  import opened Powers

  function HexDigit(n: nat): char
    requires n < 16
  {
    "0123456789abcdef"[n]
  }

  /** The program's digit table: 0 for every character that is not a hexadecimal digit. */
  function DigitValue(c: char): (n: nat)
    ensures n < 16
  {
    if '0' <= c <= '9' then c as int - '0' as int
    else if 'a' <= c <= 'f' then c as int - 'a' as int + 10
    else if 'A' <= c <= 'F' then c as int - 'A' as int + 10
    else 0
  }

  /** How the program recognises a digit. */
  predicate IsHex(c: char) { DigitValue(c) != 0 || c == '0' }

  predicate IsSpace(c: char) { c == ' ' || 9 <= c as int <= 13 }

  function HexNumber(s: string): nat {
    if s == "" then 0 else 16 * HexNumber(s[..|s| - 1]) + DigitValue(s[|s| - 1])
  }

  /** The last d digits of v. */
  function HexOf(v: nat, d: nat): (s: string)
    ensures |s| == d
  {
    if d == 0 then "" else HexOf(v / 16, d - 1) + [HexDigit(v % 16)]
  }

  lemma {:induction false} HexNumberOfHexOf(v: nat, d: nat)
    requires v < Pow2(4 * d)
    ensures HexNumber(HexOf(v, d)) == v
  {
    Pow2Of32();
    if d > 0 {
      hide HexNumber, Pow2, HexDigit, DigitValue, IsHex;
      Pow2Sum(4, 4 * (d - 1));
      Sixteenth(v, Pow2(4 * (d - 1)));
      HexNumberOfHexOf(v / 16, d - 1);
      DigitReadBack(v % 16);
      HexNumberSnoc(HexOf(v / 16, d - 1), HexDigit(v % 16));
    }
  }

  lemma Sixteenth(v: nat, p: nat)
    requires v < 16 * p
    ensures v / 16 < p && v == 16 * (v / 16) + v % 16
  {
  }

  lemma HexNumberSnoc(s: string, c: char)
    ensures HexNumber(s + [c]) == 16 * HexNumber(s) + DigitValue(c)
  {
    hide DigitValue;
    assert (s + [c])[..|s|] == s;
  }

  lemma DigitReadBack(n: nat)
    requires n < 16
    ensures DigitValue(HexDigit(n)) == n && IsHex(HexDigit(n)) && HexDigit(n) != 'x' && !IsSpace(HexDigit(n))
  {
  }

  lemma {:induction false} HexOfIsHex(v: nat, d: nat)
    ensures forall k :: 0 <= k < d ==> IsHex(HexOf(v, d)[k]) && HexOf(v, d)[k] != 'x' && HexOf(v, d)[k] != 'X' && !IsSpace(HexOf(v, d)[k])
  {
    if d > 0 {
      HexOfIsHex(v / 16, d - 1);
      DigitReadBack(v % 16);
    }
  }

  // Which part of a text SetHex reads.

  /** The position of the first character from i on that is not white space. */
  function SkipSpaces(s: string, i: nat): (j: nat)
    requires i <= |s|
    ensures i <= j <= |s|
    decreases |s| - i
  {
    if i < |s| && IsSpace(s[i]) then SkipSpaces(s, i + 1) else i
  }

  function SkipPrefix(s: string, i: nat): (j: nat)
    requires i <= |s|
    ensures i <= j <= |s|
  {
    if i + 1 < |s| && s[i] == '0' && (s[i + 1] == 'x' || s[i + 1] == 'X') then i + 2 else i
  }

  /** The end of the run of digits that starts at i. */
  function DigitsEnd(s: string, i: nat): (j: nat)
    requires i <= |s|
    ensures i <= j <= |s|
    decreases |s| - i
  {
    if i < |s| && IsHex(s[i]) then DigitsEnd(s, i + 1) else i
  }

  function DigitsOf(s: string): string {
    var start := SkipPrefix(s, SkipSpaces(s, 0));
    s[start..DigitsEnd(s, start)]
  }

  // The digits, and which part of a text holds them, said on their own.

  /** The sixteen digits in both cases. */
  lemma DigitTable(k: nat)
    requires k < 16
    ensures DigitValue("0123456789abcdef"[k]) == DigitValue("0123456789ABCDEF"[k]) == k
    ensures HexDigit(k) == "0123456789abcdef"[k]
  {
  }

  const DIGITS := "0123456789abcdefABCDEF"

  /** No other character is a digit. */
  lemma HexExactly(c: char)
    ensures IsHex(c) <==> c in DIGITS
  {
    if IsHex(c) {
      DigitListed(c);
    } else if c in DIGITS {
      ListedDigit(c);
    }
  }

  lemma DigitListed(c: char)
    requires IsHex(c)
    ensures c in DIGITS
  {
    var k := c as int - (if c <= '9' then '0' as int else if c <= 'F' then 'A' as int - 16 else 'a' as int - 10);
    assert DIGITS[k] == c;
  }

  lemma ListedDigit(c: char)
    requires c in DIGITS
    ensures IsHex(c)
  {
    var k :| 0 <= k < |DIGITS| && DIGITS[k] == c;
  }

  /** The same letter, in either case. */
  predicate SameButCase(a: char, b: char) {
    a == b || ('A' <= a <= 'Z' && b as int == a as int + 32) || ('A' <= b <= 'Z' && a as int == b as int + 32)
  }

  lemma {:induction false} CaseDoesNotMatter(s: string, t: string)
    requires |s| == |t| && forall k :: 0 <= k < |s| ==> SameButCase(s[k], t[k])
    ensures HexNumber(s) == HexNumber(t) && forall k :: 0 <= k < |s| ==> IsHex(s[k]) == IsHex(t[k])
  {
    if s != "" {
      var n := |s| - 1;
      CaseDoesNotMatter(s[..n], t[..n]);
      assert forall k :: 0 <= k < n ==> s[k] == s[..n][k] && t[k] == t[..n][k];
    }
  }

  /** White space, perhaps 0x, digits, and a rest that does not go on with a digit: a text as SetHex takes it apart. */
  ghost predicate TakenApart(white: string, prefix: string, digits: string, rest: string) {
    && (forall k :: 0 <= k < |white| ==> white[k] in " \t\n\r" || white[k] as int == 11 || white[k] as int == 12)
    && (prefix == "" || prefix == "0x" || prefix == "0X")
    && (forall k :: 0 <= k < |digits| ==> digits[k] in DIGITS)
    && (rest != "" ==> rest[0] !in DIGITS)
    && (prefix == "" && digits == "0" && rest != "" ==> rest[0] != 'x' && rest[0] != 'X')
    && (prefix == "" && digits == "" && rest != "" ==> rest[0] !in " \t\n\r" && rest[0] as int != 11 && rest[0] as int != 12)
  }

  /** SetHex takes the digits, however the text can be taken apart; and every text can. */
  lemma DigitsOfExactly(text: string, digits: string)
    ensures DigitsOf(text) == digits <==>
            exists white, prefix, rest :: TakenApart(white, prefix, digits, rest) && text == white + prefix + digits + rest
  {
    hide IsHex, IsSpace, TakenApart, SkipSpaces, SkipPrefix, DigitsEnd;
    if DigitsOf(text) == digits {
      var i := SkipSpaces(text, 0);
      var j := SkipPrefix(text, i);
      var k := DigitsEnd(text, j);
      AnyTaken(text);
      assert text == text[..i] + text[i..j] + digits + text[k..];
    }
    if white, prefix, rest :| TakenApart(white, prefix, digits, rest) && text == white + prefix + digits + rest {
      TakenDigits(white, prefix, digits, rest);
    }
  }

  lemma SpaceIs(c: char)
    ensures IsSpace(c) <==> c in " \t\n\r" || c as int == 11 || c as int == 12
  {
  }

  lemma {:induction false} SpacesSkipped(s: string, i: nat)
    requires i <= |s|
    ensures forall k :: i <= k < SkipSpaces(s, i) ==> IsSpace(s[k])
    ensures SkipSpaces(s, i) < |s| ==> !IsSpace(s[SkipSpaces(s, i)])
    decreases |s| - i
  {
    hide IsSpace;
    if i < |s| && IsSpace(s[i]) { SpacesSkipped(s, i + 1); }
  }

  lemma {:induction false} DigitsTaken(s: string, i: nat)
    requires i <= |s|
    ensures forall k :: i <= k < DigitsEnd(s, i) ==> IsHex(s[k])
    ensures DigitsEnd(s, i) < |s| ==> !IsHex(s[DigitsEnd(s, i)])
    decreases |s| - i
  {
    hide IsHex;
    if i < |s| && IsHex(s[i]) { DigitsTaken(s, i + 1); }
  }

  lemma AnyTaken(s: string)
    ensures var i := SkipSpaces(s, 0);
            var j := SkipPrefix(s, i);
            var k := DigitsEnd(s, j);
            TakenApart(s[..i], s[i..j], s[j..k], s[k..])
  {
    hide IsHex, IsSpace, DigitsEnd, SkipSpaces;
    var i := SkipSpaces(s, 0);
    var j := SkipPrefix(s, i);
    var k := DigitsEnd(s, j);
    SpacesSkipped(s, 0);
    DigitsTaken(s, j);
    forall n | 0 <= n < i ensures s[n] in " \t\n\r" || s[n] as int == 11 || s[n] as int == 12 { SpaceIs(s[n]); }
    forall n | j <= n < k ensures s[n] in DIGITS { HexExactly(s[n]); }
    if k < |s| {
      HexExactly(s[k]);
      SpaceIs(s[k]);
    }
    if j == i + 2 { assert s[i..j] == [s[i], s[i + 1]]; }
  }

  lemma {:induction false} AllSpacesSkipped(s: string, i: nat, n: nat)
    requires i <= n <= |s| && (forall k :: i <= k < n ==> IsSpace(s[k])) && (n < |s| ==> !IsSpace(s[n]))
    ensures SkipSpaces(s, i) == n
    decreases |s| - i
  {
    hide IsSpace;
    if i < n { AllSpacesSkipped(s, i + 1, n); }
  }

  lemma {:induction false} AllDigitsTaken(s: string, i: nat, n: nat)
    requires i <= n <= |s| && (forall k :: i <= k < n ==> IsHex(s[k])) && (n < |s| ==> !IsHex(s[n]))
    ensures DigitsEnd(s, i) == n
    decreases |s| - i
  {
    hide IsHex;
    if i < n { AllDigitsTaken(s, i + 1, n); }
  }

  lemma TakenDigits(white: string, prefix: string, digits: string, rest: string)
    requires TakenApart(white, prefix, digits, rest)
    ensures DigitsOf(white + prefix + digits + rest) == digits
  {
    hide IsHex, IsSpace, DigitsEnd, SkipSpaces;
    var s := white + prefix + digits + rest;
    var i, j, k := |white|, |white| + |prefix|, |white| + |prefix| + |digits|;
    forall n | 0 <= n < i ensures IsSpace(s[n]) { SpaceIs(white[n]); }
    forall n | j <= n < k ensures IsHex(s[n]) { HexExactly(digits[n - j]); }
    if k < |s| {
      assert s[k] == rest[0];
      HexExactly(rest[0]);
      SpaceIs(rest[0]);
    }
    if j < k { DigitNoSpace(digits[0]); }
    if i < |s| { SpaceIs(s[i]); }
    AllSpacesSkipped(s, 0, i);
    PrefixTaken(s, i, prefix, digits, rest);
    AllDigitsTaken(s, j, k);
    assert s[j..k] == digits;
  }

  lemma DigitNoSpace(c: char)
    requires c in DIGITS
    ensures !IsSpace(c) && c != 'x' && c != 'X'
  {
    HexExactly(c);
  }

  lemma PrefixTaken(s: string, i: nat, prefix: string, digits: string, rest: string)
    requires i <= |s| && s[i..] == prefix + digits + rest && TakenApart("", prefix, digits, rest)
    ensures SkipPrefix(s, i) == i + |prefix|
  {
    hide IsHex, IsSpace;
    assert forall n :: i <= n < |s| ==> s[n] == s[i..][n - i];
    if prefix == "" && |digits| > 1 { DigitNoSpace(digits[1]); }
  }

  lemma {:induction false} DigitsToTheEnd(s: string, i: nat)
    requires i <= |s| && forall k :: i <= k < |s| ==> IsHex(s[k])
    ensures DigitsEnd(s, i) == |s|
    decreases |s| - i
  {
    if i < |s| { DigitsToTheEnd(s, i + 1); }
  }

  lemma DigitsOfHexOf(v: nat, d: nat)
    ensures DigitsOf(HexOf(v, d)) == HexOf(v, d)
  {
    HexOfIsHex(v, d);
    DigitsToTheEnd(HexOf(v, d), 0);
  }

  lemma {:induction false} HexNumberAppend(s: string, t: string)
    ensures HexNumber(s + t) == HexNumber(s) * Pow2(4 * |t|) + HexNumber(t)
  {
    if t == "" {
      Pow2Of32();
      assert s + t == s;
    } else {
      var n := |t| - 1;
      HexNumberAppend(s, t[..n]);
      assert (s + t)[..|s + t| - 1] == s + t[..n];
      Pow2Of32();
      Pow2Sum(4, 4 * n);
      Commute(16, Pow2(4 * n));
      Associate(HexNumber(s), Pow2(4 * n), 16);
    }
  }

  lemma {:induction false} HexNumberBound(s: string)
    ensures HexNumber(s) < Pow2(4 * |s|)
  {
    Pow2Of32();
    if s != "" {
      HexNumberBound(s[..|s| - 1]);
      Pow2Sum(4, 4 * (|s| - 1));
    }
  }

  /** The last n digits are the number modulo 16^n. */
  lemma LastDigits(s: string, n: nat)
    requires n <= |s|
    ensures HexNumber(s[|s| - n..]) == HexNumber(s) % Pow2(4 * n)
  {
    hide HexNumber, Pow2;
    var low := s[|s| - n..];
    assert s == s[..|s| - n] + low;
    HexNumberAppend(s[..|s| - n], low);
    HexNumberBound(low);
    QuotientUnique(HexNumber(s), Pow2(4 * n), HexNumber(s[..|s| - n]), HexNumber(low));
  }

  // Bytes of a limb, in the byte order of memory.

  function ByteOf(w: Word, k: nat): (b: Byte)
    requires k < 4
  {
    w / Pow2(8 * k) % 0x100
  }

  /** The limb with byte k replaced. */
  function WithByte(w: Word, k: nat, b: Byte): Word
    requires k < 4
  {
    BytePowers();
    Pow2Sum(8 * k, 24 - 8 * k);
    ReplacedFits(w, Pow2(8 * k), Pow2(24 - 8 * k), b);
    w - ByteOf(w, k) * Pow2(8 * k) + b * Pow2(8 * k)
  }

  lemma BytePowers()
    ensures Pow2(0) == 1 && Pow2(8) == 0x100 && Pow2(16) == 0x1_0000 && Pow2(24) == 0x100_0000
  {
    Pow2Of32();
    Pow2Sum(8, 8);
    Pow2Sum(16, 8);
  }

  lemma ReplacedFits(w: Word, p: nat, m: nat, b: Byte)
    requires p >= 1 && m >= 1 && p * m == 0x100_0000
    ensures 0 <= w - w / p % 0x100 * p + b * p < 0x1_0000_0000
  {
    DivMod(w, p);
    DivisionShrinks(w, p);
    ReplacedIn(w, w / p, w % p, p, m, b);
  }

  lemma ReplacedIn(w: Word, q: nat, low: nat, p: nat, m: nat, b: Byte)
    requires p * m == 0x100_0000 && w == q * p + low && low < p
    ensures 0 <= w - q % 0x100 * p + b * p < 0x1_0000_0000
  {
    var hi, byte := q / 0x100, q % 0x100;
    Distribute(0x100 * hi, byte, p);
    Associate(0x100, hi, p);
    assert hi * p >= 0 && byte * p >= 0 && b * p >= 0;
    NotAbove(hi, m, p);
    LessEqTimes(b, 0xff, p);
  }

  /** Below m multiples of p, a number is at least p short of m p. */
  lemma NotAbove(hi: nat, m: nat, p: nat)
    requires p >= 1 && p * m == 0x100_0000 && 0x100 * (hi * p) < 0x1_0000_0000
    ensures hi * p <= 0x100_0000 - p
  {
    Commute(m, p);
    if hi >= m {
      LessEqTimes(m, hi, p);
    } else {
      LessEqTimes(hi + 1, m, p);
      Distribute(hi, 1, p);
    }
  }

  // Reading bytes: byte j of the limbs is byte j of the number.

  lemma ByteOfNumber(a: seq<Word>, j: nat)
    requires j < 4 * |a|
    ensures ByteOf(a[j / 4], j % 4) == Value(a) / Pow2(8 * j) % 0x100
  {
    hide Value, Pow2, Worth, ByteOf;
    var k, r := j / 4, j % 4;
    LimbInNumber(a, k);
    WorthOfByte(k, r);
    DivideInTwo(Value(a), Value(a[..k]), a[k] + WORDS * Value(a[k + 1..]), Worth(k), Pow2(8 * r));
    ByteDoesNotSeeRest(a[k], Value(a[k + 1..]), r);
  }

  lemma LimbInNumber(a: seq<Word>, k: nat)
    requires k < |a|
    ensures Value(a[..k]) < Worth(k) && Value(a) == Value(a[..k]) + Worth(k) * (a[k] + WORDS * Value(a[k + 1..]))
  {
    hide Worth, Value;
    ValueBound(a[..k]);
    assert a == a[..k] + a[k..];
    ValueAppend(a[..k], a[k..]);
    LowLimb(a, k);
  }

  lemma LowLimb(a: seq<Word>, k: nat)
    requires k < |a|
    ensures Value(a[k..]) == a[k] + WORDS * Value(a[k + 1..])
  {
    assert a[k..][1..] == a[k + 1..];
  }

  lemma WorthOfByte(k: nat, r: nat)
    ensures Pow2(8 * (4 * k + r)) == Worth(k) * Pow2(8 * r)
  {
    Pow2Sum(32 * k, 8 * r);
  }

  lemma DivideInTwo(v: nat, low: nat, high: nat, w: nat, p: nat)
    requires low < w && v == low + w * high && p >= 1
    ensures w * p > 0 && v / (w * p) == high / p
  {
    var q, r := high / p, high % p;
    DivMod(high, p);
    // v = q (w p) + (r w + low)
    Commute(w, high);
    Distribute(q * p, r, w);
    Associate(q, p, w);
    Commute(p, w);
    Larger(p - r, w);
    Distribute(p, 0 - r, w);
    assert r * w >= 0;
    QuotientUnique(v, w * p, q, r * w + low);
  }

  lemma ByteDoesNotSeeRest(x: Word, rest: nat, r: nat)
    requires r < 4
    ensures (x + WORDS * rest) / Pow2(8 * r) % 0x100 == ByteOf(x, r)
  {
    hide Pow2;
    BytePowers();
    Pow2Sum(8 * r, 24 - 8 * r);
    RestGone(x, rest, Pow2(8 * r), Pow2(24 - 8 * r));
  }

  lemma RestGone(x: nat, rest: nat, p: nat, m: nat)
    requires p >= 1 && p * m == 0x100_0000
    ensures (x + WORDS * rest) / p % 0x100 == x / p % 0x100
  {
    var q, y := x / p, 0x100 * (m * rest);
    // 2^32 rest = (0x100 (m rest)) p
    assert WORDS * rest == y * p by {
      Associate(0x100, p * m, rest);
      Associate(p, m, rest);
      Commute(p, m * rest);
      Associate(0x100, m * rest, p);
    }
    DivMod(x, p);
    Distribute(q, y, p);
    QuotientUnique(x + WORDS * rest, p, q + y, x % p);
    assert m * rest >= 0;
  }

  // Writing bytes, from the lowest up.

  /** All bytes from number at on are zero. */
  ghost predicate ZeroFrom(a: seq<Word>, at: nat) {
    && (at < 4 * |a| ==> a[at / 4] < Pow2(8 * (at % 4)))
    && forall k :: at / 4 < k < |a| ==> a[k] == 0
  }

  lemma ByteWritten(w: Word, r: nat, b: Byte, c: Byte)
    requires r < 4 && w < Pow2(8 * r)
    ensures WithByte(w, r, b) == w + b * Pow2(8 * r) && ByteOf(WithByte(w, r, b), r) == b
    ensures WithByte(WithByte(w, r, b), r, c) == WithByte(w, r, c)
    ensures WithByte(w, r, b) < Pow2(8 * (r + 1))
  {
    hide Pow2;
    var p := Pow2(8 * r);
    QuotientUnique(w, p, 0, w);
    QuotientUnique(w + b * p, p, b, w);
    BytePowers();
    Pow2Sum(8, 8 * r);
    Distribute(0xff, -(b as int), p);
    assert (0xff - b) * p >= 0;
  }

  lemma {:induction false} ValueUpdate(a: seq<Word>, k: nat, x: Word)
    requires k < |a|
    ensures Value(a[k := x]) == Value(a) + (x as int - a[k] as int) * Worth(k)
  {
    hide Worth, Value;
    assert a == a[..k] + [a[k]] + a[k + 1..] && a[k := x] == a[..k] + [x] + a[k + 1..];
    ValueAppend(a[..k] + [x], a[k + 1..]);
    ValueAppend(a[..k] + [a[k]], a[k + 1..]);
    ValueSnoc(a[..k], x);
    ValueSnoc(a[..k], a[k]);
    Distribute(x, -(a[k] as int), Worth(k));
    Distribute(a[k], -(a[k] as int), Worth(k));
  }

  /** Writing byte number at of a number that has nothing there adds it at its place. */
  lemma ByteAdded(a: seq<Word>, at: nat, b: Byte)
    requires at < 4 * |a| && ZeroFrom(a, at)
    ensures var r := a[at / 4 := WithByte(a[at / 4], at % 4, b)];
            Value(r) == Value(a) + b * Pow2(8 * at) && ZeroFrom(r, at + 1)
  {
    hide Worth, Value, Pow2, WithByte;
    var k, r := at / 4, at % 4;
    ByteWritten(a[k], r, b, b);
    ValueUpdate(a, k, WithByte(a[k], r, b));
    WorthOfByte(k, r);
    Associate(b, Pow2(8 * r), Worth(k));
    Commute(Pow2(8 * r), Worth(k));
    if r == 3 && k + 1 < |a| { BytePowers(); }
  }

  /** Two digits make a byte, and take their places in the number. */
  lemma DigitsAdded(at: nat, low: nat, high: nat)
    requires low < 16 && high < 16
    ensures BitOr(low, high * 16) == low + 16 * high
    ensures (low + 16 * high) * Pow2(8 * at) == low * Pow2(8 * at) + high * Pow2(8 * at + 4)
  {
    hide Or;
    Pow2Of32();
    OrDisjoint(high * 16, low, 4);
    OrCommutes(low, high * 16);
    Pow2Sum(4, 8 * at);
    Distribute(low, 16 * high, Pow2(8 * at));
    Commute(16, high);
    Associate(high, 16, Pow2(8 * at));
  }

  lemma DigitInFront(s: string, k: nat)
    requires k < |s|
    ensures HexNumber(s[k..]) == DigitValue(s[k]) * Pow2(4 * (|s| - k - 1)) + HexNumber(s[k + 1..])
  {
    assert s[k..] == [s[k]] + s[k + 1..];
    HexNumberAppend([s[k]], s[k + 1..]);
    assert HexNumber([s[k]]) == DigitValue(s[k]);
  }

  // Printing, from the top byte down.

  lemma TwoMoreDigits(v: nat, n: nat, i: nat, x: nat)
    requires i < n && x == v / Pow2(8 * (n - i - 1))
    ensures HexOf(x, 2 * (i + 1)) ==
            HexOf(TopPart(v, 8 * (n - i)), 2 * i) + [HexDigit(x % 0x100 / 16), HexDigit(x % 0x100 % 16)]
  {
    hide Pow2, HexDigit;
    BytePowers();
    Pow2Sum(8 * (n - i - 1), 8);
    DivMod(v, Pow2(8 * (n - i - 1)));
    Commute(x, Pow2(8 * (n - i - 1)));
    DivideInTwo(v, v % Pow2(8 * (n - i - 1)), x, Pow2(8 * (n - i - 1)), 0x100);
    LastTwoDigits(x, 2 * i);
  }

  lemma LastTwoDigits(x: nat, d: nat)
    ensures HexOf(x, d + 2) == HexOf(x / 0x100, d) + [HexDigit(x % 0x100 / 16), HexDigit(x % 0x100 % 16)]
  {
    hide HexDigit;
    DivMod(x, 16);
    DivMod(x / 16, 16);
    QuotientUnique(x, 0x100, x / 16 / 16, x / 16 % 16 * 16 + x % 16);
    QuotientUnique(x % 0x100, 16, x / 16 % 16, x % 16);
    assert HexOf(x, d + 2) == HexOf(x / 16, d + 1) + [HexDigit(x % 16)];
    assert HexOf(x / 16, d + 1) == HexOf(x / 16 / 16, d) + [HexDigit(x / 16 % 16)];
  }

  /** The text after the top i of n bytes of v. */
  function Shown(v: nat, n: nat, i: nat): string
    requires i <= n
  {
    HexOf(TopPart(v, 8 * (n - i)), 2 * i)
  }

  /** v without its lowest n bits. */
  function TopPart(v: nat, n: nat): nat {
    DivisionShrinks(v, Pow2(n));
    v / Pow2(n)
  }

  lemma ByteShown(a: seq<Word>, i: nat)
    requires i < 4 * |a|
    ensures var n, b := 4 * |a|, ByteOf(a[(4 * |a| - i - 1) / 4], (4 * |a| - i - 1) % 4);
            Shown(Value(a), n, i + 1) == Shown(Value(a), n, i) + [HexDigit(b / 16), HexDigit(b % 16)]
  {
    hide Value, Pow2, HexOf, ByteOf, HexDigit;
    var n := 4 * |a|;
    ByteOfNumber(a, n - i - 1);
    TwoMoreDigits(Value(a), n, i, TopPart(Value(a), 8 * (n - i - 1)));
  }

  lemma ShownEnds(v: nat, n: nat)
    requires v < Pow2(8 * n)
    ensures Shown(v, n, 0) == "" && Shown(v, n, n) == HexOf(v, 2 * n)
  {
    hide Pow2;
    Pow2Of32();
    QuotientUnique(v, Pow2(8 * n), 0, v);
  }
}
