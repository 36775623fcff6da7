/** The text that json_dumps prints, described flag by flag without the printer; exactly that text is printed. */
module JsonLayout {
  import opened MachineWords
  import opened Powers
  import opened Options
  import opened Utf8
  import opened JsonStrings
  import opened JsonTokens
  import opened JsonParser
  import opened JsonDump
  import opened JsonGrammar
  import opened JsonParsed
  import JsonExact

  // The description.

  /** The end of a line and the indentation of the next one; nothing without indentation. */
  function NewLine(f: DumpFlags, depth: nat): Bytes {
    if f.indent == 0 then [] else seq(1 + f.indent * depth, k => if k == 0 then 0x0A else 0x20)
  }

  function Comma(f: DumpFlags, depth: nat): Bytes {
    if f.indent == 0 && !f.compact then [0x2C, 0x20] else [0x2C] + NewLine(f, depth)
  }

  function Colon(f: DumpFlags): Bytes {
    if f.compact then [0x3A] else [0x3A, 0x20]
  }

  function Join(texts: seq<Bytes>, between: Bytes): Bytes {
    if texts == [] then [] else if |texts| == 1 then texts[0] else texts[0] + between + Join(texts[1..], between)
  }

  predicate LowerCase(t: Bytes) { forall k :: 0 <= k < |t| ==> !(0x41 <= t[k] <= 0x46) }

  /** The escapes of the two halves of cp. */
  predicate PairText(t: Bytes, cp: nat) {
    |t| == 12 &&
    match (UnicodeValue(t), UnicodeValue(t[6..]))
    case (Some(high), Some(low)) =>
      0xD800 <= high <= 0xDBFF && 0xDC00 <= low <= 0xDFFF && cp == 0x1_0000 + (high - 0xD800) * 0x400 + (low - 0xDC00)
    case _ => false
  }

  /** One character of a string: itself, a letter behind a backslash, or one or two numeric escapes. */
  predicate CharText(t: Bytes, cp: nat, f: DumpFlags)
    requires Scalar(cp)
  {
    if cp == 0x22 || cp == 0x5C || cp == 0x08 || cp == 0x09 || cp == 0x0A || cp == 0x0C || cp == 0x0D || (cp == 0x2F && f.escapeSlash) then
      |t| == 2 && t[0] == 0x5C && LetterValue(t[1]) == Some(cp)
    else if cp < 0x20 || (cp >= 0x80 && f.ensureAscii) then
      LowerCase(t) && if cp < 0x1_0000 then |t| == 6 && UnicodeValue(t) == Some(cp) else PairText(t, cp)
    else
      t == Encode(cp)
  }

  /** The characters of s between quotes. */
  ghost predicate Quoted(t: Bytes, s: Bytes, f: DumpFlags) { exists cps: seq<nat>, texts: seq<Bytes> :: QuotedAs(t, cps, texts, s, f) }

  ghost predicate QuotedAs(t: Bytes, cps: seq<nat>, texts: seq<Bytes>, s: Bytes, f: DumpFlags) {
    && (forall k :: 0 <= k < |cps| ==> Scalar(cps[k])) && s == EncodeAll(cps)
    && |texts| == |cps| && (forall k :: 0 <= k < |cps| ==> CharText(texts[k], cps[k], f))
    && t == [0x22] + Join(texts, []) + [0x22]
  }

  /** A key that is not UTF-8 is printed as far as JsonStrings.LostExactly says. */
  ghost predicate KeyText(t: Bytes, key: Bytes, f: DumpFlags) { if Valid(key) then Quoted(t, key, f) else t == Dumped(key, f).0 }

  ghost predicate Text(t: Bytes, v: Json, f: DumpFlags, depth: nat)
    decreases v, 1
  {
    match v
    case JNull => t == Ascii("null")
    case JTrue => t == Ascii("true")
    case JFalse => t == Ascii("false")
    case JInteger(i) => WholeNumber(t) && WholeValue(t) == i && (i == 0 ==> t == [0x30])
    case JReal(digits) => t == digits
    case JString(s) => Quoted(t, s, f)
    case JArray(elems) => if elems == [] then t == [0x5B, 0x5D] else IsArray(t, elems, f, depth)
    case JObject(ms) => if ms == [] then t == [0x7B, 0x7D] else IsObject(t, ms, f, depth)
  }

  ghost predicate IsArray(t: Bytes, elems: seq<Json>, f: DumpFlags, depth: nat)
    decreases elems, 1
  {
    exists texts: seq<Bytes> :: ArrayText(t, texts, elems, f, depth)
  }

  ghost predicate IsObject(t: Bytes, ms: seq<Member>, f: DumpFlags, depth: nat)
    decreases ms, 1
  {
    exists ps: seq<Member>, keys: seq<Bytes>, texts: seq<Bytes> :: ObjectText(t, ps, keys, texts, ms, f, depth)
  }

  /** The elements in their order, each indented once more. */
  ghost predicate ArrayText(t: Bytes, texts: seq<Bytes>, elems: seq<Json>, f: DumpFlags, depth: nat)
    decreases elems, 0
  {
    && |texts| == |elems| && (forall k :: 0 <= k < |elems| ==> Text(texts[k], elems[k], f, depth + 1))
    && t == [0x5B] + NewLine(f, depth + 1) + Join(texts, Comma(f, depth + 1)) + NewLine(f, depth) + [0x5D]
  }

  /** The pairs in the order that the flags ask for, each as its key, a colon and its value. */
  ghost predicate ObjectText(t: Bytes, ps: seq<Member>, keys: seq<Bytes>, texts: seq<Bytes>, ms: seq<Member>, f: DumpFlags, depth: nat)
    decreases ms, 0
  {
    && multiset(ps) == multiset(ms)
    && (f.sortKeys ==> InOrder(ps, true))
    && (!f.sortKeys && f.preserveOrder ==> InOrder(ps, false))
    && (!f.sortKeys && !f.preserveOrder ==> ps == ms)
    && |keys| == |texts| == |ps|
    && (forall k :: 0 <= k < |ps| ==> KeyText(keys[k], ps[k].key, f))
    && (forall k :: 0 <= k < |ps| ==> ps[k] in ms && Text(texts[k], ps[k].value, f, depth + 1))
    && t == [0x7B] + NewLine(f, depth + 1) + Join(Pairs(keys, texts, f), Comma(f, depth + 1)) + NewLine(f, depth) + [0x7D]
  }

  function Pairs(keys: seq<Bytes>, texts: seq<Bytes>, f: DumpFlags): seq<Bytes>
    requires |keys| == |texts|
  {
    seq(|keys|, k requires 0 <= k < |keys| => keys[k] + Colon(f) + texts[k])
  }

  // White space.

  lemma {:induction false} RepeatedIs(n: nat, depth: nat)
    ensures Repeated(Spaces(n), depth) == seq(n * depth, _ => 0x20)
  {
    if depth > 0 {
      RepeatedIs(n, depth - 1);
      Distribute(depth, -1, n);
      Commute(n, depth);
      Commute(n, depth - 1);
    }
  }

  lemma WhiteSpace(f: DumpFlags, depth: nat)
    ensures Indent(f, depth, false) == NewLine(f, depth)
    ensures [0x2C] + Indent(f, depth, true) == Comma(f, depth)
    ensures Separator(f) == Colon(f)
    ensures After(f, depth, true) == NewLine(f, depth) && After(f, depth, false) == Comma(f, depth + 1)
  {
    IndentIs(f, depth, false);
    IndentIs(f, depth, true);
    IndentIs(f, depth + 1, true);
  }

  lemma IndentIs(f: DumpFlags, depth: nat, space: bool)
    ensures [0x2C] + Indent(f, depth, space) == if space then Comma(f, depth) else [0x2C] + NewLine(f, depth)
    ensures Indent(f, depth, false) == NewLine(f, depth)
  {
    RepeatedIs(f.indent, depth);
  }

  // Characters.

  /** The four digits of a numeric escape are the only lower-case ones with its value. */
  lemma UnicodeEscapeIs(t: Bytes, v: nat)
    requires v < 0x1_0000
    ensures t == UnicodeEscape(v) <==> |t| == 6 && UnicodeValue(t) == Some(v) && LowerCase(t)
  {
    hide HexByte, Nibble;
    if t == UnicodeEscape(v) { EscapeHasValue(v); }
    if |t| == 6 && UnicodeValue(t) == Some(v) && LowerCase(t) {
      NibbleIs(t[2]);
      NibbleIs(t[3]);
      NibbleIs(t[4]);
      NibbleIs(t[5]);
      FourDigits(Nibble(t[2]).value, Nibble(t[3]).value, Nibble(t[4]).value, Nibble(t[5]).value);
      assert t == [t[0], t[1], t[2], t[3], t[4], t[5]];
    }
  }

  lemma FourDigits(a: nat, b: nat, c: nat, d: nat)
    requires a < 16 && b < 16 && c < 16 && d < 16
    ensures var v := 0x1000 * a + 0x100 * b + 0x10 * c + d;
            v / 0x1000 == a && v / 0x100 % 16 == b && v / 0x10 % 16 == c && v % 16 == d
  {
    var v := 0x1000 * a + 0x100 * b + 0x10 * c + d;
    SplitOff(v, 0x10, 0x100 * a + 0x10 * b + c, d);
    SplitOff(v, 0x100, 0x10 * a + b, 0x10 * c + d);
    SplitOff(v, 0x1000, a, 0x100 * b + 0x10 * c + d);
    SplitOff(0x100 * a + 0x10 * b + c, 16, 0x10 * a + b, c);
    SplitOff(0x10 * a + b, 16, a, b);
  }

  lemma SplitOff(v: nat, m: nat, q: nat, r: nat)
    requires r < m && v == q * m + r
    ensures v / m == q && v % m == r
  {
    QuotientUnique(v, m, q, r);
  }

  lemma DigitsOfFour(v: nat)
    requires v < 0x1_0000
    ensures v == 0x1000 * (v / 0x1000) + 0x100 * (v / 0x100 % 16) + 0x10 * (v / 0x10 % 16) + v % 16
  {
    assert v / 0x10 / 16 == v / 0x100;
    assert v / 0x100 / 16 == v / 0x1000;
  }

  lemma EscapeHasValue(v: nat)
    requires v < 0x1_0000
    ensures UnicodeValue(UnicodeEscape(v)) == Some(v) && LowerCase(UnicodeEscape(v))
  {
    hide HexByte, Nibble;
    NibbleBack(v / 0x1000);
    NibbleBack(v / 0x100 % 16);
    NibbleBack(v / 0x10 % 16);
    NibbleBack(v % 16);
    DigitsOfFour(v);
  }

  lemma NibbleBack(n: nat)
    requires n < 16
    ensures Nibble(HexByte(n)) == Some(n) && !(0x41 <= HexByte(n) <= 0x46)
  {
  }

  lemma NibbleIs(b: Byte)
    requires Nibble(b).Some? && !(0x41 <= b <= 0x46)
    ensures Nibble(b).value < 16 && b == HexByte(Nibble(b).value)
  {
  }

  lemma PairIs(t: Bytes, cp: nat)
    requires 0x1_0000 <= cp < 0x11_0000
    ensures t == EscapeText(cp) <==> LowerCase(t) && PairText(t, cp)
  {
    hide UnicodeEscape, UnicodeValue, LowerCase;
    var high, low := 0xD800 + (cp - 0x1_0000) / 0x400, 0xDC00 + (cp - 0x1_0000) % 0x400;
    UnicodeEscapeIs(UnicodeEscape(high), high);
    UnicodeEscapeIs(UnicodeEscape(low), low);
    ValueInFront(UnicodeEscape(high), UnicodeEscape(low));
    if LowerCase(t) && PairText(t, cp) {
      HalvesUnique(cp, UnicodeValue(t).value, UnicodeValue(t[6..]).value);
      LowerHalves(t);
      UnicodeEscapeIs(t[..6], high);
      UnicodeEscapeIs(t[6..], low);
      ValueInFront(t[..6], t[6..]);
      assert t == t[..6] + t[6..];
    }
    if t == EscapeText(cp) {
      assert t == UnicodeEscape(high) + UnicodeEscape(low);
      assert t[6..] == UnicodeEscape(low) && t[..6] == UnicodeEscape(high);
      LowerHalves(t);
    }
  }

  lemma HalvesUnique(cp: nat, high: nat, low: nat)
    requires cp >= 0x1_0000 && 0xD800 <= high <= 0xDBFF && 0xDC00 <= low <= 0xDFFF
    requires cp == 0x1_0000 + (high - 0xD800) * 0x400 + (low - 0xDC00)
    ensures high == 0xD800 + (cp - 0x1_0000) / 0x400 && low == 0xDC00 + (cp - 0x1_0000) % 0x400
  {
  }

  lemma ValueInFront(a: Bytes, b: Bytes)
    requires |a| == 6
    ensures UnicodeValue(a + b) == UnicodeValue(a)
  {
    hide Nibble;
  }

  lemma LowerHalves(t: Bytes)
    requires |t| >= 6
    ensures LowerCase(t) <==> LowerCase(t[..6]) && LowerCase(t[6..])
  {
    if LowerCase(t[..6]) && LowerCase(t[6..]) {
      forall k | 0 <= k < |t| ensures !(0x41 <= t[k] <= 0x46) { assert k < 6 ==> t[..6][k] == t[k]; assert k >= 6 ==> t[6..][k - 6] == t[k]; }
    }
  }

  lemma ShortIs(t: Bytes, cp: nat)
    requires cp < 0x11_0000 && ShortEscape(cp) != 0
    ensures t == EscapeText(cp) <==> |t| == 2 && t[0] == 0x5C && LetterValue(t[1]) == Some(cp)
  {
    hide UnicodeEscape;
  }

  /** Exactly the text described is printed for a character. */
  lemma CharExactly(t: Bytes, cp: nat, f: DumpFlags)
    requires Scalar(cp)
    ensures t == Printed(cp, f) <==> CharText(t, cp, f)
  {
    hide Encode, UnicodeValue, UnicodeEscape, LowerCase, LetterValue, EscapeText, PairText;
    if NeedsEscape(cp, f) {
      if ShortEscape(cp) != 0 {
        ShortIs(t, cp);
      } else if cp < 0x1_0000 {
        LongEscape(cp);
        UnicodeEscapeIs(t, cp);
      } else {
        PairIs(t, cp);
      }
    }
  }

  lemma LongEscape(cp: nat)
    requires cp < 0x1_0000 && ShortEscape(cp) == 0
    ensures EscapeText(cp) == UnicodeEscape(cp)
  {
    hide UnicodeEscape;
  }

  // Strings.

  lemma {:induction false} TextsOfChars(cps: seq<nat>, texts: seq<Bytes>, f: DumpFlags)
    requires forall k :: 0 <= k < |cps| ==> Scalar(cps[k])
    requires |texts| == |cps| && forall k :: 0 <= k < |cps| ==> texts[k] == Printed(cps[k], f)
    ensures Join(texts, []) == PrintedAll(cps, f)
  {
    hide Printed, Scalar;
    if |cps| == 1 {
      assert PrintedAll(cps[1..], f) == [];
      assert Printed(cps[0], f) + [] == Printed(cps[0], f);
    } else if cps != [] {
      TextsOfChars(cps[1..], texts[1..], f);
      assert texts[0] + [] == texts[0];
    }
  }

  function PrintedEach(cps: seq<nat>, f: DumpFlags): seq<Bytes>
    requires forall k :: 0 <= k < |cps| ==> Scalar(cps[k])
  {
    seq(|cps|, k requires 0 <= k < |cps| => Printed(cps[k], f))
  }

  /** Exactly the text described is printed for a string, and strings that are not UTF-8 have none. */
  lemma QuotedExactly(t: Bytes, s: Bytes, f: DumpFlags)
    ensures Quoted(t, s, f) <==> Valid(s) && t == Dumped(s, f).0
  {
    hide Scalar, CharText, Printed, Dumped, Valid, PrintedAll, DecodeAll, EncodeAll, Join;
    DumpedValid(s, f);
    if cps: seq<nat>, texts: seq<Bytes> :| QuotedAs(t, cps, texts, s, f) {
      EncodeAllValid(cps);
      forall k | 0 <= k < |cps| ensures texts[k] == Printed(cps[k], f) { CharExactly(texts[k], cps[k], f); }
      TextsOfChars(cps, texts, f);
    }
    if Valid(s) {
      DecodeAllEncodes(s);
      var cps := DecodeAll(s);
      var texts := PrintedEach(cps, f);
      forall k | 0 <= k < |cps| ensures CharText(texts[k], cps[k], f) { CharExactly(texts[k], cps[k], f); }
      TextsOfChars(cps, texts, f);
      assert t == Dumped(s, f).0 ==> QuotedAs(t, cps, texts, s, f);
    }
  }

  lemma KeyExactly(t: Bytes, key: Bytes, f: DumpFlags)
    ensures KeyText(t, key, f) <==> t == Dumped(key, f).0
  {
    hide Dumped, Valid, Quoted;
    QuotedExactly(t, key, f);
  }

  // Integers.

  lemma {:induction false} DigitsExactly(t: Bytes)
    requires DigitsOnly(t) && (t[0] == 0x30 ==> |t| == 1)
    ensures NumberOf(t) >= 0 && t == DigitsOf(NumberOf(t)) && (NumberOf(t) == 0 ==> t == [0x30])
  {
    var n := |t| - 1;
    var last := t[n] as int - 0x30;
    assert t == t[..n] + [t[n]];
    if n > 0 {
      DigitsExactly(t[..n]);
      assert NumberOf(t) == 10 * NumberOf(t[..n]) + last;
      assert NumberOf(t[..n]) != 0;
    } else {
      assert NumberOf(t[..n]) == 0;
    }
  }

  lemma {:induction false} DigitsWhole(n: nat)
    ensures var t := DigitsOf(n);
            DigitsOnly(t) && (t[0] == 0x30 ==> |t| == 1) && NumberOf(t) == n && (n == 0 ==> t == [0x30])
  {
    var t := DigitsOf(n);
    if n >= 10 {
      DigitsWhole(n / 10);
      assert t[..|t| - 1] == DigitsOf(n / 10);
      assert NumberOf(DigitsOf(n / 10)) == n / 10;
    } else {
      assert NumberOf(t[..0]) == 0;
    }
  }

  /** An integer is printed as the only number of RFC 8259 with its value, except that zero has no sign. */
  lemma IntegerExactly(t: Bytes, i: int)
    ensures t == IntegerText(i) <==> WholeNumber(t) && WholeValue(t) == i && (i == 0 ==> t == [0x30])
  {
    hide DigitsOf, DigitsOnly, NumberOf;
    DigitsWhole(if i < 0 then -i else i);
    if WholeNumber(t) {
      DigitsExactly(if t != [] && t[0] == 0x2D then t[1..] else t);
      if t[0] == 0x2D { assert t == [0x2D] + t[1..]; }
    }
    if t == IntegerText(i) {
      if i < 0 {
        assert t[1..] == DigitsOf(-i);
      } else {
        NoSign(t);
      }
    }
  }

  lemma NoSign(t: Bytes)
    requires DigitsOnly(t)
    ensures t[0] != 0x2D
  {
  }

  // Orders.

  lemma {:induction false} BeforeTotal(a: Bytes, b: Bytes)
    ensures a == b || Before(a, b) || Before(b, a)
  {
    if a != [] && b != [] && a[0] == b[0] {
      BeforeTotal(a[1..], b[1..]);
      assert a == [a[0]] + a[1..] && b == [b[0]] + b[1..];
    }
  }

  ghost predicate Told(ms: seq<Member>, byKey: bool) {
    forall m, n :: m in ms && n in ms && (if byKey then m.key == n.key else m.serial == n.serial) ==> m == n
  }

  lemma {:induction false} OrderUnique(ps: seq<Member>, qs: seq<Member>, byKey: bool)
    requires multiset(ps) == multiset(qs) && InOrder(ps, byKey) && InOrder(qs, byKey) && Told(ps, byKey)
    ensures ps == qs
  {
    hide InOrder;
    SameSize(ps, qs);
    if ps != [] {
      FirstUnique(ps, qs, byKey);
      TailsAgree(ps, qs);
      TailInOrder(ps, byKey);
      TailInOrder(qs, byKey);
      OrderUnique(ps[1..], qs[1..], byKey);
      assert ps == [ps[0]] + ps[1..] && qs == [qs[0]] + qs[1..];
    }
  }

  lemma TailsAgree(ps: seq<Member>, qs: seq<Member>)
    requires ps != [] && qs != [] && ps[0] == qs[0] && multiset(ps) == multiset(qs)
    ensures multiset(ps[1..]) == multiset(qs[1..])
  {
    assert ps == [ps[0]] + ps[1..] && qs == [qs[0]] + qs[1..];
    assert multiset(ps[1..]) == multiset(ps) - multiset{ps[0]} && multiset(qs[1..]) == multiset(qs) - multiset{qs[0]};
  }

  lemma TailInOrder(ps: seq<Member>, byKey: bool)
    requires ps != [] && InOrder(ps, byKey)
    ensures InOrder(ps[1..], byKey) && forall m :: m in ps[1..] ==> m in ps
  {
    hide Precedes;
  }

  lemma SameSize(ps: seq<Member>, qs: seq<Member>)
    requires multiset(ps) == multiset(qs)
    ensures |ps| == |qs|
  {
    assert |multiset(ps)| == |ps| && |multiset(qs)| == |qs|;
  }

  lemma FirstUnique(ps: seq<Member>, qs: seq<Member>, byKey: bool)
    requires ps != [] && qs != [] && multiset(ps) == multiset(qs)
    requires InOrder(ps, byKey) && InOrder(qs, byKey) && Told(ps, byKey)
    ensures ps[0] == qs[0]
  {
    assert ps[0] in multiset(qs) && qs[0] in multiset(ps);
    var i :| 0 <= i < |ps| && ps[i] == qs[0];
    var j :| 0 <= j < |qs| && qs[j] == ps[0];
    if byKey { BeforeTotal(ps[0].key, qs[0].key); }
    if i > 0 && j > 0 { assert !Precedes(ps[i], ps[0], byKey) && !Precedes(qs[j], qs[0], byKey); }
  }

  ghost predicate SerialsDiffer(ms: seq<Member>) {
    forall i, j :: 0 <= i < j < |ms| ==> ms[i].serial != ms[j].serial
  }

  /** The order that the flags ask for. */
  lemma OrderedAsAsked(ms: seq<Member>, f: DumpFlags)
    ensures multiset(Ordered(ms, f)) == multiset(ms)
    ensures f.sortKeys ==> InOrder(Ordered(ms, f), true)
    ensures !f.sortKeys && f.preserveOrder ==> InOrder(Ordered(ms, f), false)
    ensures !f.sortKeys && !f.preserveOrder ==> Ordered(ms, f) == ms
  {
    SortedSame(ms, true);
    SortedSame(ms, false);
    SortedInOrder(ms, true);
    SortedInOrder(ms, false);
  }

  lemma OrderedUnique(ms: seq<Member>, ps: seq<Member>, f: DumpFlags)
    requires Distinct(ms) && SerialsDiffer(ms) && multiset(ps) == multiset(ms)
    requires f.sortKeys ==> InOrder(ps, true)
    requires !f.sortKeys && f.preserveOrder ==> InOrder(ps, false)
    requires !f.sortKeys && !f.preserveOrder ==> ps == ms
    ensures ps == Ordered(ms, f)
  {
    hide InOrder, Ordered;
    OrderedAsAsked(ms, f);
    if f.sortKeys || f.preserveOrder {
      forall m, n | m in ps && n in ps && (if f.sortKeys then m.key == n.key else m.serial == n.serial) ensures m == n {
        assert m in multiset(ms) && n in multiset(ms);
      }
      OrderUnique(ps, Ordered(ms, f), f.sortKeys);
    }
  }

  // Values.

  /** Objects at any depth have one pair for each key and number their pairs differently, as the hash table keeps them. */
  ghost predicate Settled(v: Json) {
    match v
    case JArray(elems) => forall e :: e in elems ==> Settled(e)
    case JObject(ms) => Distinct(ms) && SerialsDiffer(ms) && forall m :: m in ms ==> Settled(m.value)
    case _ => true
  }

  lemma {:induction false} ElementsJoined(elems: seq<Json>, texts: seq<Bytes>, f: DumpFlags, depth: nat)
    requires elems != [] && |texts| == |elems| && forall k :: 0 <= k < |elems| ==> Dump(elems[k], f, depth + 1) == (texts[k], true)
    ensures DumpElements(elems, f, depth) == (Join(texts, Comma(f, depth + 1)) + NewLine(f, depth), true)
  {
    hide Dump, After, Comma, NewLine;
    DumpElementsStep(elems, f, depth);
    WhiteSpace(f, depth);
    if |elems| > 1 {
      ElementsJoined(elems[1..], texts[1..], f, depth);
      Joined(texts[0] + Comma(f, depth + 1), Join(texts[1..], Comma(f, depth + 1)), NewLine(f, depth), []);
    }
  }

  lemma {:induction false} MembersJoined(ps: seq<Member>, keys: seq<Bytes>, texts: seq<Bytes>, f: DumpFlags, depth: nat)
    requires ps != [] && |keys| == |texts| == |ps|
    requires forall k :: 0 <= k < |ps| ==> Dumped(ps[k].key, f).0 == keys[k] && Dump(ps[k].value, f, depth + 1) == (texts[k], true)
    ensures DumpMembers(ps, f, depth) == (Join(Pairs(keys, texts, f), Comma(f, depth + 1)) + NewLine(f, depth), true)
  {
    hide Dump, Dumped, After, Comma, NewLine, Separator, Colon, Join, Pairs;
    DumpMembersStep(ps, f, depth);
    WhiteSpace(f, depth);
    var pairs := Pairs(keys, texts, f);
    FirstOfPairs(keys, texts, f);
    JoinStep(pairs, Comma(f, depth + 1));
    if |ps| > 1 {
      MembersJoined(ps[1..], keys[1..], texts[1..], f, depth);
      Joined(pairs[0] + Comma(f, depth + 1), Join(pairs[1..], Comma(f, depth + 1)), NewLine(f, depth), []);
    }
  }

  lemma FirstOfPairs(keys: seq<Bytes>, texts: seq<Bytes>, f: DumpFlags)
    requires |keys| == |texts| > 0
    ensures var pairs := Pairs(keys, texts, f);
            |pairs| == |keys| && pairs[0] == keys[0] + Colon(f) + texts[0] && pairs[1..] == Pairs(keys[1..], texts[1..], f)
  {
    hide Colon;
  }

  lemma JoinStep(texts: seq<Bytes>, between: Bytes)
    requires texts != []
    ensures Join(texts, between) == if |texts| == 1 then texts[0] else texts[0] + between + Join(texts[1..], between)
  {
  }

  lemma {:induction false} AllSucceed(elems: seq<Json>)
    requires AllValuesValid(elems)
    ensures forall k :: 0 <= k < |elems| ==> ValuesValid(elems[k])
  {
    hide ValuesValid;
    if elems != [] {
      AllSucceed(elems[1..]);
      assert forall k :: 1 <= k < |elems| ==> elems[k] == elems[1..][k - 1];
    }
  }

  lemma {:induction false} AllMembersSucceed(ms: seq<Member>)
    requires MemberValuesValid(ms)
    ensures forall k :: 0 <= k < |ms| ==> ValuesValid(ms[k].value)
  {
    hide ValuesValid;
    if ms != [] {
      AllMembersSucceed(ms[1..]);
      assert forall k :: 1 <= k < |ms| ==> ms[k] == ms[1..][k - 1];
    }
  }

  lemma ArrayForm(elems: seq<Json>, inner: Bytes, f: DumpFlags, depth: nat)
    requires elems != [] && DumpElements(elems, f, depth) == (inner + NewLine(f, depth), true)
    ensures Dump(JArray(elems), f, depth) == ([0x5B] + NewLine(f, depth + 1) + inner + NewLine(f, depth) + [0x5D], true)
  {
    hide Indent, NewLine, DumpElements;
    WhiteSpace(f, depth + 1);
    Joined([0x5B] + NewLine(f, depth + 1), inner, NewLine(f, depth), []);
  }

  lemma ObjectForm(ms: seq<Member>, inner: Bytes, f: DumpFlags, depth: nat)
    requires ms != [] && DumpMembers(Ordered(ms, f), f, depth) == (inner + NewLine(f, depth), true)
    ensures Dump(JObject(ms), f, depth) == ([0x7B] + NewLine(f, depth + 1) + inner + NewLine(f, depth) + [0x7D], true)
  {
    hide Indent, NewLine, DumpMembers, Ordered;
    WhiteSpace(f, depth + 1);
    Joined([0x7B] + NewLine(f, depth + 1), inner, NewLine(f, depth), []);
  }

  /** Printing succeeds with exactly the texts described. */
  lemma {:induction false} DumpExactly(t: Bytes, v: Json, f: DumpFlags, depth: nat)
    ensures Dump(v, f, depth) == (t, true) ==> Text(t, v, f, depth)
    ensures Text(t, v, f, depth) && Settled(v) ==> Dump(v, f, depth) == (t, true)
    decreases v, 2
  {
    hide Dumped, Quoted, WholeNumber, WholeValue, IntegerText, DumpElements, DumpMembers, IsArray, IsObject;
    match v
    case JNull => JsonExact.WordsAre();
    case JTrue => JsonExact.WordsAre();
    case JFalse => JsonExact.WordsAre();
    case JInteger(i) => IntegerExactly(t, i);
    case JReal(_) =>
    case JString(s) =>
      QuotedExactly(t, s, f);
      DumpedValid(s, f);
    case JArray(elems) => if elems != [] { ArrayExactly(t, elems, f, depth); }
    case JObject(ms) => if ms != [] { ObjectExactly(t, ms, f, depth); }
  }

  lemma {:induction false} ArrayExactly(t: Bytes, elems: seq<Json>, f: DumpFlags, depth: nat)
    requires elems != []
    ensures Dump(JArray(elems), f, depth) == (t, true) ==> IsArray(t, elems, f, depth)
    ensures IsArray(t, elems, f, depth) && Settled(JArray(elems)) ==> Dump(JArray(elems), f, depth) == (t, true)
    decreases elems, 1
  {
    hide Dump, IsArray;
    if Dump(JArray(elems), f, depth) == (t, true) { ArrayDescribed(t, elems, f, depth); }
    if IsArray(t, elems, f, depth) && Settled(JArray(elems)) { DescribedArray(t, elems, f, depth); }
  }

  lemma {:induction false} ArrayDescribed(t: Bytes, elems: seq<Json>, f: DumpFlags, depth: nat)
    requires elems != [] && Dump(JArray(elems), f, depth) == (t, true)
    ensures IsArray(t, elems, f, depth)
    decreases elems, 0
  {
    hide Dump, Indent, NewLine, Comma, Text, DumpElements, Join;
    DumpSucceeds(JArray(elems), f, depth);
    AllSucceed(elems);
    var texts := seq(|elems|, k requires 0 <= k < |elems| => Dump(elems[k], f, depth + 1).0);
    forall k | 0 <= k < |elems| ensures Text(texts[k], elems[k], f, depth + 1) && Dump(elems[k], f, depth + 1) == (texts[k], true) {
      DumpSucceeds(elems[k], f, depth + 1);
      DumpExactly(texts[k], elems[k], f, depth + 1);
    }
    ElementsJoined(elems, texts, f, depth);
    ArrayForm(elems, Join(texts, Comma(f, depth + 1)), f, depth);
    assert ArrayText(t, texts, elems, f, depth);
  }

  lemma {:induction false} DescribedArray(t: Bytes, elems: seq<Json>, f: DumpFlags, depth: nat)
    requires elems != [] && IsArray(t, elems, f, depth) && Settled(JArray(elems))
    ensures Dump(JArray(elems), f, depth) == (t, true)
    decreases elems, 0
  {
    hide Dump, Indent, NewLine, Comma, Text, DumpElements, Join;
    var texts: seq<Bytes> :| ArrayText(t, texts, elems, f, depth);
    forall k | 0 <= k < |elems| ensures Dump(elems[k], f, depth + 1) == (texts[k], true) {
      assert elems[k] in elems;
      DumpExactly(texts[k], elems[k], f, depth + 1);
    }
    ElementsJoined(elems, texts, f, depth);
    ArrayForm(elems, Join(texts, Comma(f, depth + 1)), f, depth);
  }

  lemma {:induction false} ObjectExactly(t: Bytes, ms: seq<Member>, f: DumpFlags, depth: nat)
    requires ms != []
    ensures Dump(JObject(ms), f, depth) == (t, true) ==> IsObject(t, ms, f, depth)
    ensures IsObject(t, ms, f, depth) && Settled(JObject(ms)) ==> Dump(JObject(ms), f, depth) == (t, true)
    decreases ms, 1
  {
    hide Dump, IsObject;
    if Dump(JObject(ms), f, depth) == (t, true) { ObjectDescribed(t, ms, f, depth); }
    if IsObject(t, ms, f, depth) && Settled(JObject(ms)) { DescribedObject(t, ms, f, depth); }
  }

  lemma {:induction false} DescribedObject(t: Bytes, ms: seq<Member>, f: DumpFlags, depth: nat)
    requires ms != [] && IsObject(t, ms, f, depth) && Settled(JObject(ms))
    ensures Dump(JObject(ms), f, depth) == (t, true)
    decreases ms, 0
  {
    hide Indent, NewLine, Comma, Text, DumpMembers, Join, InOrder, Ordered, Dumped, KeyText, Dump, Pairs;
    var ps: seq<Member>, keys: seq<Bytes>, texts: seq<Bytes> :| ObjectText(t, ps, keys, texts, ms, f, depth);
    OrderedUnique(ms, ps, f);
    forall k | 0 <= k < |ps| ensures Dumped(ps[k].key, f).0 == keys[k] && Dump(ps[k].value, f, depth + 1) == (texts[k], true) {
      assert ps[k] in ms;
      KeyExactly(keys[k], ps[k].key, f);
      DumpExactly(texts[k], ps[k].value, f, depth + 1);
    }
    MembersJoined(ps, keys, texts, f, depth);
    ObjectForm(ms, Join(Pairs(keys, texts, f), Comma(f, depth + 1)), f, depth);
  }

  lemma {:induction false} ObjectDescribed(t: Bytes, ms: seq<Member>, f: DumpFlags, depth: nat)
    requires ms != [] && Dump(JObject(ms), f, depth) == (t, true)
    ensures IsObject(t, ms, f, depth)
    decreases ms, 0
  {
    hide Indent, NewLine, Comma, Text, DumpMembers, Join, InOrder, Ordered, Dumped, KeyText, Dump, Pairs;
    DumpSucceeds(JObject(ms), f, depth);
    OrderedValues(ms, f);
    var ps := Ordered(ms, f);
    AllMembersSucceed(ps);
    OrderedAsAsked(ms, f);
    var keys := seq(|ps|, k requires 0 <= k < |ps| => Dumped(ps[k].key, f).0);
    var texts := seq(|ps|, k requires 0 <= k < |ps| => Dump(ps[k].value, f, depth + 1).0);
    forall k | 0 <= k < |ps|
      ensures KeyText(keys[k], ps[k].key, f) && Dump(ps[k].value, f, depth + 1) == (texts[k], true)
      ensures ps[k] in ms && Text(texts[k], ps[k].value, f, depth + 1)
    {
      assert ps[k] in multiset(ps);
      KeyExactly(keys[k], ps[k].key, f);
      DumpSucceeds(ps[k].value, f, depth + 1);
      assert ps[k] in ms;
      DumpExactly(texts[k], ps[k].value, f, depth + 1);
    }
    MembersJoined(ps, keys, texts, f, depth);
    ObjectForm(ms, Join(Pairs(keys, texts, f), Comma(f, depth + 1)), f, depth);
    assert ObjectText(t, ps, keys, texts, ms, f, depth);
  }

  // What the flags mean for the bytes printed.

  predicate AsciiOnly(t: Bytes) { forall k :: 0 <= k < |t| ==> t[k] < 0x80 }

  lemma AsciiAppend(a: Bytes, b: Bytes)
    ensures AsciiOnly(a + b) <==> AsciiOnly(a) && AsciiOnly(b)
  {
    if AsciiOnly(a + b) {
      forall k | 0 <= k < |a| ensures a[k] < 0x80 { assert (a + b)[k] == a[k]; }
      forall k | 0 <= k < |b| ensures b[k] < 0x80 { assert (a + b)[|a| + k] == b[k]; }
    }
  }

  lemma EscapeAscii(cp: nat)
    requires cp < 0x11_0000
    ensures AsciiOnly(EscapeText(cp))
  {
    hide UnicodeEscape;
    forall v | 0 <= v < 0x1_0000 ensures AsciiOnly(UnicodeEscape(v)) { HexAscii(v); }
    if ShortEscape(cp) == 0 && cp >= 0x1_0000 {
      AsciiAppend(UnicodeEscape(0xD800 + (cp - 0x1_0000) / 0x400), UnicodeEscape(0xDC00 + (cp - 0x1_0000) % 0x400));
    }
  }

  lemma HexAscii(v: nat)
    requires v < 0x1_0000
    ensures AsciiOnly(UnicodeEscape(v))
  {
  }

  lemma {:induction false} EmittedAscii(s: Bytes, held: Bytes, f: DumpFlags)
    requires f.ensureAscii && AsciiOnly(held)
    ensures AsciiOnly(Emitted(s, held, f).0)
    decreases |s|
  {
    hide First, EscapeText, NeedsEscape, Emitted, AsciiOnly, Encode;
    if s == [] || First(s).Bad? {
      EmittedEnd(s, held, f);
    } else {
      EmittedStep(s, held, f);
      FirstIsEncoded(s);
      var cp, n := First(s).codepoint, First(s).size;
      if NeedsEscape(cp, f) {
        EmittedAscii(s[n..], [], f) by { NothingAscii(); }
        EscapeAscii(cp);
        AsciiAppend(held, EscapeText(cp));
        AsciiAppend(held + EscapeText(cp), Emitted(s[n..], [], f).0);
      } else {
        KeptAscii(cp, f);
        AsciiAppend(held, s[..n]);
        EmittedAscii(s[n..], held + s[..n], f);
      }
    }
  }

  lemma NothingAscii()
    ensures AsciiOnly([])
  {
  }

  lemma EmittedEnd(s: Bytes, held: Bytes, f: DumpFlags)
    requires s == [] || First(s).Bad?
    requires AsciiOnly(held)
    ensures AsciiOnly(Emitted(s, held, f).0)
  {
    hide First;
  }

  lemma KeptAscii(cp: nat, f: DumpFlags)
    requires Scalar(cp) && f.ensureAscii && !NeedsEscape(cp, f)
    ensures AsciiOnly(Encode(cp))
  {
  }

  lemma DumpedAscii(s: Bytes, f: DumpFlags)
    requires f.ensureAscii
    ensures AsciiOnly(Dumped(s, f).0)
  {
    hide Emitted;
    EmittedAscii(s, [], f);
  }

  /** Under ensureAscii every byte printed is ASCII, for every value, whatever its strings and keys are; the text of
      floating-point numbers is left to the C library. */
  lemma {:induction false} DumpAscii(v: Json, f: DumpFlags, depth: nat)
    requires f.ensureAscii && NoReals(v)
    ensures AsciiOnly(Dump(v, f, depth).0)
    decreases Size(v), 0
  {
    hide AsciiOnly, Dumped, DumpElements, DumpMembers, Indent, Ordered, IntegerText;
    match v
    case JNull => WordsAscii();
    case JTrue => WordsAscii();
    case JFalse => WordsAscii();
    case JInteger(i) => IntegerAscii(i);
    case JReal(_) =>
    case JString(s) => DumpedAscii(s, f);
    case JArray(elems) =>
      WordsAscii();
      if elems != [] {
        ElementsAscii(elems, f, depth);
        ListAscii(0x5B, DumpElements(elems, f, depth), 0x5D, f, depth + 1);
      }
    case JObject(ms) =>
      WordsAscii();
      if ms != [] {
        SizeOfOrdered(ms, f);
        OrderedAsAsked(ms, f);
        forall m | m in Ordered(ms, f) ensures NoReals(m.value) { assert m in multiset(ms); }
        MembersAscii(Ordered(ms, f), f, depth);
        ListAscii(0x7B, DumpMembers(Ordered(ms, f), f, depth), 0x7D, f, depth + 1);
      }
  }

  lemma WordsAscii()
    ensures AsciiOnly(NULL) && AsciiOnly(TRUE) && AsciiOnly(FALSE) && AsciiOnly([0x5B, 0x5D]) && AsciiOnly([0x7B, 0x7D])
  {
  }

  lemma IntegerAscii(i: int)
    ensures AsciiOnly(IntegerText(i))
  {
    IntegerExactly(IntegerText(i), i);
  }

  lemma WhiteAscii(f: DumpFlags, depth: nat, last: bool)
    ensures AsciiOnly(Indent(f, depth, false)) && AsciiOnly(After(f, depth, last)) && AsciiOnly(Separator(f))
  {
    WhiteSpace(f, depth);
    WhiteSpace(f, depth + 1);
  }

  lemma ListAscii(open: Byte, e: (Bytes, bool), close: Byte, f: DumpFlags, depth: nat)
    requires open < 0x80 && close < 0x80 && AsciiOnly(e.0)
    ensures AsciiOnly([open] + Indent(f, depth, false) + e.0 + (if e.1 then [close] else []))
  {
    hide Indent;
    WhiteAscii(f, depth, false);
  }

  lemma {:induction false} ElementsAscii(elems: seq<Json>, f: DumpFlags, depth: nat)
    requires elems != [] && f.ensureAscii && forall e :: e in elems ==> NoReals(e)
    ensures AsciiOnly(DumpElements(elems, f, depth).0)
    decreases SizeOfAll(elems), 1
  {
    hide AsciiOnly, Dump, After, NoReals, DumpElements;
    DumpElementsStep(elems, f, depth);
    DumpAscii(elems[0], f, depth + 1);
    WhiteAscii(f, depth, |elems| == 1);
    var r := Dump(elems[0], f, depth + 1);
    AsciiAppend(r.0, After(f, depth, |elems| == 1));
    if r.1 && |elems| > 1 {
      ElementsAscii(elems[1..], f, depth);
      AsciiAppend(r.0 + After(f, depth, false), DumpElements(elems[1..], f, depth).0);
    }
  }

  lemma {:induction false} MembersAscii(ms: seq<Member>, f: DumpFlags, depth: nat)
    requires ms != [] && f.ensureAscii && forall m :: m in ms ==> NoReals(m.value)
    ensures AsciiOnly(DumpMembers(ms, f, depth).0)
    decreases SizeOfMembers(ms), 1
  {
    hide AsciiOnly, Dump, After, NoReals, DumpMembers, Dumped, Separator;
    DumpMembersStep(ms, f, depth);
    DumpAscii(ms[0].value, f, depth + 1);
    DumpedAscii(ms[0].key, f);
    WhiteAscii(f, depth, |ms| == 1);
    var key, r := Dumped(ms[0].key, f).0, DumpPair(ms[0], f, depth);
    AsciiAppend(key, Separator(f));
    AsciiAppend(key + Separator(f), Dump(ms[0].value, f, depth + 1).0);
    AsciiAppend(r.0, After(f, depth, |ms| == 1));
    if r.1 && |ms| > 1 {
      MembersAscii(ms[1..], f, depth);
      AsciiAppend(r.0 + After(f, depth, false), DumpMembers(ms[1..], f, depth).0);
    }
  }

  /** The characters that are printed as themselves. */
  predicate Plain(cp: nat, f: DumpFlags) {
    cp >= 0x20 && cp != 0x22 && cp != 0x5C && !(cp == 0x2F && f.escapeSlash) && !(cp >= 0x80 && f.ensureAscii)
  }

  /** A string is printed as itself between quotes if and only if all its characters are plain. */
  lemma PrintedAsItself(s: Bytes, f: DumpFlags)
    requires Valid(s)
    ensures Dumped(s, f).0 == [0x22] + s + [0x22] <==> forall k :: 0 <= k < |DecodeAll(s)| ==> Plain(DecodeAll(s)[k], f)
  {
    hide Plain, Dumped, PrintedAll, DecodeAll, EncodeAll, Valid;
    DumpedValid(s, f);
    DecodeAllEncodes(s);
    PrintedLength(DecodeAll(s), f);
    var p := PrintedAll(DecodeAll(s), f);
    assert ([0x22] + p + [0x22])[1..1 + |p|] == p && ([0x22] + s + [0x22])[1..1 + |s|] == s;
  }

  /** Escapes are longer than the characters they stand for. */
  lemma {:induction false} PrintedLength(cps: seq<nat>, f: DumpFlags)
    requires forall k :: 0 <= k < |cps| ==> Scalar(cps[k])
    ensures |PrintedAll(cps, f)| >= |EncodeAll(cps)|
    ensures (|PrintedAll(cps, f)| == |EncodeAll(cps)| || PrintedAll(cps, f) == EncodeAll(cps)) <==> forall k :: 0 <= k < |cps| ==> Plain(cps[k], f)
    ensures |PrintedAll(cps, f)| == |EncodeAll(cps)| ==> PrintedAll(cps, f) == EncodeAll(cps)
  {
    hide Plain, Printed, Scalar, Encode;
    if cps != [] {
      PrintedLength(cps[1..], f);
      CharLength(cps[0], f);
      assert forall k :: 1 <= k < |cps| ==> cps[k] == cps[1..][k - 1];
      assert (forall k :: 0 <= k < |cps| ==> Plain(cps[k], f)) <==> Plain(cps[0], f) && forall k :: 0 <= k < |cps[1..]| ==> Plain(cps[1..][k], f);
    }
  }

  lemma CharLength(cp: nat, f: DumpFlags)
    requires Scalar(cp)
    ensures if Plain(cp, f) then Printed(cp, f) == Encode(cp) else |Printed(cp, f)| > |Encode(cp)|
  {
    hide UnicodeEscape;
  }

  /** A slash has a backslash in front exactly under escapeSlash. */
  lemma SlashPrinted(f: DumpFlags)
    ensures Dumped([0x2F], f).0 == if f.escapeSlash then [0x22, 0x5C, 0x2F, 0x22] else [0x22, 0x2F, 0x22]
  {
    hide Emitted, Printed;
    AsciiEncoded(0x2F);
    EncodeAllValid([0x2F]);
    assert [0x2F][1..] == [] && EncodeAll([]) == [];
    assert EncodeAll([0x2F]) == Encode(0x2F) + [] == [0x2F];
    DumpedValid([0x2F], f);
    PrintedFirst(0x2F, [], f);
    assert [0x2F] + [] == [0x2F];
    SlashIs(f);
  }

  lemma SlashIs(f: DumpFlags)
    ensures PrintedAll([], f) == [] && Printed(0x2F, f) == if f.escapeSlash then [0x5C, 0x2F] else [0x2F]
  {
  }
}
