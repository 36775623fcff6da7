/** Parsing what was printed gives an equal value, whatever the flags. */
module JsonRoundTrip {
  import opened MachineWords
  import opened Options
  import opened Utf8
  import opened JsonStrings
  import opened JsonLexer
  import opened JsonTokens
  import opened JsonParser
  import opened JsonDump

  // Which values the claim is about.

  /** The text of a C string that the library accepts. */
  predicate CleanText(s: Bytes) { Valid(s) && 0 !in s }

  predicate KeysDiffer(ms: seq<Member>) {
    forall i, j :: 0 <= i < j < |ms| ==> ms[i].key != ms[j].key
  }

  /** Values without floating-point numbers, as the library keeps them: 64-bit integers, clean strings, and one value
      for each key. */
  predicate Storable(v: Json)
    decreases Size(v), 0
  {
    match v
    case JInteger(i) => MIN_INT <= i <= MAX_INT
    case JReal(_) => false
    case JString(s) => CleanText(s)
    case JArray(elems) => AllStorable(elems)
    case JObject(ms) => KeysDiffer(ms) && MembersStorable(ms)
    case _ => true
  }

  predicate AllStorable(elems: seq<Json>)
    decreases SizeOfAll(elems), 1
  {
    elems == [] || (Storable(elems[0]) && AllStorable(elems[1..]))
  }

  predicate MembersStorable(ms: seq<Member>)
    decreases SizeOfMembers(ms), 1
  {
    ms == [] || (CleanText(ms[0].key) && Storable(ms[0].value) && MembersStorable(ms[1..]))
  }

  /** The value that is read back: objects have their pairs in the order of the text, numbered from 0. */
  function ReadBack(v: Json, f: DumpFlags): (w: Json)
    decreases Size(v), 0
  {
    match v
    case JArray(elems) => JArray(ReadBackAll(elems, f))
    case JObject(ms) =>
      SizeOfOrdered(ms, f);
      JObject(ReadBackMembers(Ordered(ms, f), 0, f))
    case _ => v
  }

  function ReadBackAll(elems: seq<Json>, f: DumpFlags): (r: seq<Json>)
    ensures |r| == |elems|
    decreases SizeOfAll(elems), 1
  {
    if elems == [] then [] else [ReadBack(elems[0], f)] + ReadBackAll(elems[1..], f)
  }

  function ReadBackMembers(ms: seq<Member>, serial: nat, f: DumpFlags): (r: seq<Member>)
    ensures |r| == |ms|
    ensures forall k :: 0 <= k < |ms| ==> r[k].key == ms[k].key && r[k].serial == serial + k
    decreases SizeOfMembers(ms), 1
  {
    if ms == [] then [] else
      [Member(ms[0].key, serial, ReadBack(ms[0].value, f))] + ReadBackMembers(ms[1..], serial + 1, f)
  }

  // Scanning the pieces of a printed text.

  /** Where a number or a word ends: at the end of the text, or at one of the characters that can follow a value. */
  predicate Delimited(rest: Bytes) {
    rest == [] || rest[0] == ',' as int || rest[0] == ']' as int || rest[0] == '}' as int || rest[0] == 10
  }

  predicate AllBlank(b: Bytes) { forall k :: 0 <= k < |b| ==> IsBlank(b[k]) }

  lemma {:induction false} BlanksInFront(b: Bytes, t: Bytes)
    requires AllBlank(b)
    ensures Blanks(b + t) == |b| + Blanks(t)
  {
    if b == [] {
      assert b + t == t;
    } else {
      assert (b + t)[1..] == b[1..] + t;
      BlanksInFront(b[1..], t);
    }
  }

  /** Blanks before a token do not matter. */
  lemma ScanAfterBlanks(b: Bytes, t: Bytes, bad: bool)
    requires AllBlank(b)
    ensures Scan(In(b + t, bad)) == Scan(In(t, bad))
  {
    hide Token1;
    BlanksInFront(b, t);
    assert (b + t)[Blanks(b + t)..] == t[Blanks(t)..];
  }

  lemma NoBlanks(t: Bytes, bad: bool)
    requires t != [] && !IsBlank(t[0])
    ensures Scan(In(t, bad)) == (Token1(t).0, In(t[Token1(t).1..], bad))
  {
    hide Token1;
    assert t[0..] == t;
  }

  lemma ScanPunctuation(c: Byte, t: Bytes, bad: bool)
    requires IsPunctuation(c)
    ensures Scan(In([c] + t, bad)) == (Punctuation(c), In(t, bad))
  {
    hide ScanNumber, ScanString;
    NoBlanks([c] + t, bad);
    assert ([c] + t)[1..] == t;
  }

  lemma ScanEnd()
    ensures Scan(In([], false)).0 == EndOfInput
  {
  }

  lemma {:induction false} LettersOfWord(w: Bytes, rest: Bytes)
    requires (forall k :: 0 <= k < |w| ==> IsAlpha(w[k])) && (rest == [] || !IsAlpha(rest[0]))
    ensures Letters(w + rest) == |w|
  {
    if w == [] {
      assert w + rest == rest;
    } else {
      assert (w + rest)[1..] == w[1..] + rest;
      LettersOfWord(w[1..], rest);
    }
  }

  predicate IsWord(w: Bytes) {
    w != [] && WordToken(w) != Invalid && forall k :: 0 <= k < |w| ==> IsAlpha(w[k])
  }

  lemma Literals()
    ensures IsWord(TRUE) && IsWord(FALSE) && IsWord(NULL)
    ensures WordToken(TRUE) == True && WordToken(FALSE) == False && WordToken(NULL) == Null
  {
  }

  lemma ScanWord(w: Bytes, rest: Bytes, bad: bool)
    requires IsWord(w) && Delimited(rest)
    ensures Scan(In(w + rest, bad)) == (WordToken(w), In(rest, bad))
  {
    hide ScanNumber, ScanString, Letters, WordToken;
    NoBlanks(w + rest, bad);
    LettersOfWord(w, rest);
    assert (w + rest)[0] == w[0];
    assert (w + rest)[..|w|] == w && (w + rest)[|w|..] == rest;
  }

  // Integers.

  lemma {:induction false} DigitsOfIsDecimal(n: nat)
    ensures forall k :: 0 <= k < |DigitsOf(n)| ==> IsDigit(DigitsOf(n)[k])
    ensures Decimal(DigitsOf(n)) == n
    ensures n > 0 ==> DigitsOf(n)[0] != '0' as int
    ensures n == 0 ==> DigitsOf(n) == ['0' as int]
  {
    var d := DigitsOf(n);
    if n >= 10 {
      DigitsOfIsDecimal(n / 10);
      assert d[..|d| - 1] == DigitsOf(n / 10);
    } else {
      assert d[..0] == [];
    }
  }

  lemma {:induction false} DigitsInFront(d: Bytes, rest: Bytes)
    requires (forall k :: 0 <= k < |d| ==> IsDigit(d[k])) && (rest == [] || !IsDigit(rest[0]))
    ensures Digits(d + rest) == |d|
  {
    if d == [] {
      assert d + rest == rest;
    } else {
      assert (d + rest)[1..] == d[1..] + rest;
      DigitsInFront(d[1..], rest);
    }
  }

  lemma PositiveEnd(d: Bytes, rest: Bytes)
    requires d != [] && IsDigit(d[0]) && (d[0] == '0' as int ==> |d| == 1)
    requires rest == [] || !IsDigit(rest[0])
    requires Digits(d + rest) == |d|
    ensures IntegerEnd(d + rest) == |d|
  {
    hide Digits;
    assert (d + rest)[0..] == d + rest && (d + rest)[0] == d[0];
    if |d| == 1 && rest != [] { assert (d + rest)[1] == rest[0]; }
  }

  lemma MinusInFront(t: Bytes)
    requires t != [] && IsDigit(t[0])
    ensures IntegerEnd(t) > 0 ==> IntegerEnd(['-' as int] + t) == 1 + IntegerEnd(t)
  {
    hide Digits;
    var m := ['-' as int] + t;
    assert m[0] == '-' as int && m[1] == t[0] && m[1..] == t && t[0..] == t;
    if |t| > 1 { assert m[2] == t[1]; }
  }

  lemma IntegerEndOfText(i: int, rest: Bytes)
    requires Delimited(rest)
    ensures IntegerEnd(IntegerText(i) + rest) == |IntegerText(i)|
  {
    hide DigitsOf, Digits, IntegerEnd;
    var n := if i < 0 then -i else i;
    DigitsOfIsDecimal(n);
    DigitsInFront(DigitsOf(n), rest);
    PositiveEnd(DigitsOf(n), rest);
    if i < 0 {
      MinusInFront(DigitsOf(n) + rest);
      assert ['-' as int] + DigitsOf(n) + rest == ['-' as int] + (DigitsOf(n) + rest);
    }
  }

  lemma IntegerValueOfText(i: int)
    requires MIN_INT <= i <= MAX_INT
    ensures var t := IntegerText(i);
            && (forall k :: 0 <= k < |t| ==> IsDigit(t[k]) || (k == 0 && t[0] == '-' as int))
            && IntegerValue(t) == Some(i)
  {
    hide DigitsOf;
    var n := if i < 0 then -i else i;
    DigitsOfIsDecimal(n);
    if i < 0 { assert IntegerText(i)[1..] == DigitsOf(n); } else { assert IsDigit(DigitsOf(n)[0]); }
  }

  lemma ScanInteger(i: int, rest: Bytes, bad: bool)
    requires MIN_INT <= i <= MAX_INT && Delimited(rest)
    ensures Scan(In(IntegerText(i) + rest, bad)) == (Integer(i), In(rest, bad))
  {
    hide IntegerText, IntegerEnd, IntegerValue, FractionEnd, ExponentEnd;
    var w := IntegerText(i);
    var t := w + rest;
    IntegerEndOfText(i, rest);
    IntegerValueOfText(i);
    assert t[0] == w[0];
    NoBlanks(t, bad);
    assert t[..|w|] == w && t[|w|..] == rest;
    if rest != [] { assert t[|w|] == rest[0]; }
  }

  lemma ScanText(s: Bytes, f: DumpFlags, rest: Bytes, bad: bool)
    requires CleanText(s)
    ensures Dumped(s, f).1 && Dumped(s, f).0 != []
    ensures Scan(In(Dumped(s, f).0 + rest, bad)) == (Str(s), In(rest, bad))
  {
    hide Dumped, PrintedAll, StringEnd, Unescape, Body;
    StringRoundTrip(s, rest, f);
    var p := PrintedAll(DecodeAll(s), f);
    var t := Dumped(s, f).0 + rest;
    assert t[1..] == p + [QUOTE] + rest;
    assert t[1..][..|p|] == p;
    NoBlanks(t, bad);
    BodyUpToEnd(t[1..]);
    assert t[|p| + 2..] == rest;
  }

  // Indentation and separators are blanks and punctuation.

  lemma {:induction false} RepeatedBlank(n: nat, k: nat)
    ensures AllBlank(Repeated(Spaces(n), k))
  {
    if k > 0 { RepeatedBlank(n, k - 1); }
  }

  lemma IndentIsBlank(f: DumpFlags, depth: nat, space: bool, rest: Bytes)
    ensures AllBlank(Indent(f, depth, space))
    ensures !space && Delimited(rest) ==> Delimited(Indent(f, depth, space) + rest)
  {
    RepeatedBlank(f.indent, depth);
  }

  /** After an element that is not the last comes a comma, and after the last one nothing but blanks. */
  lemma AfterScanned(f: DumpFlags, depth: nat, last: bool, c: Byte, rest: Bytes, bad: bool)
    requires IsPunctuation(c) && Delimited([c])
    ensures last ==> Delimited(After(f, depth, last) + ([c] + rest)) && Scan(In(After(f, depth, last) + ([c] + rest), bad)) == (Punctuation(c), In(rest, bad))
    ensures !last ==> Delimited(After(f, depth, last) + rest)
    ensures !last ==>
              && Scan(In(After(f, depth, last) + rest, bad)) == (COMMA, In(Indent(f, depth + 1, true) + rest, bad))
              && Scan(In(Indent(f, depth + 1, true) + rest, bad)) == Scan(In(rest, bad))
  {
    hide Indent, Scan;
    if last {
      IndentIsBlank(f, depth, false, [c] + rest);
      ScanAfterBlanks(Indent(f, depth, false), [c] + rest, bad);
      ScanPunctuation(c, rest, bad);
    } else {
      var indent := Indent(f, depth + 1, true);
      IndentIsBlank(f, depth + 1, true, rest);
      ScanPunctuation(',' as int, indent + rest, bad);
      ScanAfterBlanks(indent, rest, bad);
      assert After(f, depth, last) + rest == [',' as int] + (indent + rest);
    }
  }

  /** A token that starts a value. */
  predicate StartsValue(t: Token) { t != Invalid && t != EndOfInput && t != CLOSE_BRACKET && t != CLOSE_BRACE && t != COMMA && t != COLON }

  /** A printed value in front of a delimiter is parsed as what is read back, up to that delimiter. */
  ghost predicate Parses(text: Bytes, rest: Bytes, bad: bool, w: Json, pf: ParseFlags) {
    var (t, j) := Scan(In(text + rest, bad));
    StartsValue(t) && ParseValue(t, j, pf) == Some((w, In(rest, bad)))
  }

  lemma {:induction false} ParseDumped(v: Json, f: DumpFlags, depth: nat, rest: Bytes, bad: bool, pf: ParseFlags)
    requires Storable(v) && Delimited(rest)
    ensures Dump(v, f, depth).1 && Parses(Dump(v, f, depth).0, rest, bad, ReadBack(v, f), pf)
    decreases Size(v), 0
  {
    hide Scan, Dumped, IntegerText, ParseArray, ParseObject, DumpElements, DumpMembers, Ordered, Indent, TRUE, FALSE, NULL;
    Literals();
    match v
    case JNull => ScanWord(NULL, rest, bad);
    case JTrue => ScanWord(TRUE, rest, bad);
    case JFalse => ScanWord(FALSE, rest, bad);
    case JInteger(i) => ScanInteger(i, rest, bad);
    case JReal(_) =>
    case JString(s) => ScanText(s, f, rest, bad);
    case JArray(elems) => ParseDumpedArray(elems, f, depth, rest, bad, pf);
    case JObject(ms) => SizeOfOrdered(ms, f); ParseDumpedObject(ms, f, depth, rest, bad, pf);
  }

  /** An opening bracket or brace hands over to the list behind it. */
  lemma ListOpens(i: In, pf: ParseFlags)
    ensures var (t, j) := Scan(i);
            && (t == CLOSE_BRACKET ==> ParseValue(OPEN_BRACKET, i, pf) == Some((JArray([]), j)))
            && (t == CLOSE_BRACE ==> ParseValue(OPEN_BRACE, i, pf) == Some((JObject([]), j)))
            && (StartsValue(t) ==> ParseValue(OPEN_BRACKET, i, pf) == ParseElements(t, j, [], pf))
            && (StartsValue(t) ==> ParseValue(OPEN_BRACE, i, pf) == ParseMembers(t, j, [], 0, pf))
  {
    hide Scan, ParseElements, ParseMembers;
  }

  lemma ParseDumpedArray(elems: seq<Json>, f: DumpFlags, depth: nat, rest: Bytes, bad: bool, pf: ParseFlags)
    requires AllStorable(elems) && Delimited(rest)
    ensures Dump(JArray(elems), f, depth).1
    ensures Parses(Dump(JArray(elems), f, depth).0, rest, bad, ReadBack(JArray(elems), f), pf)
    decreases SizeOfAll(elems), 2
  {
    hide Scan, ParseValue, ParseArray, ParseElements, DumpElements, Indent, ParsesElements, ReadBackAll;
    if elems == [] {
      ListOpens(In([']' as int] + rest, bad), pf);
      ScanPunctuation('[' as int, [']' as int] + rest, bad);
      ScanPunctuation(']' as int, rest, bad);
      assert ['[' as int, ']' as int] + rest == ['[' as int] + ([']' as int] + rest);
    } else {
      ParseDumpedElements(elems, [], f, depth, rest, bad, pf);
      assert [] + ReadBackAll(elems, f) == ReadBackAll(elems, f);
      IndentIsBlank(f, depth + 1, false, []);
      ArrayOpens(Dump(JArray(elems), f, depth).0, DumpElements(elems, f, depth).0, Indent(f, depth + 1, false), rest, bad,
                 JArray(ReadBackAll(elems, f)), pf);
    }
  }

  lemma ArrayOpens(text: Bytes, elements: Bytes, indent: Bytes, rest: Bytes, bad: bool, w: Json, pf: ParseFlags)
    requires AllBlank(indent) && text == ['[' as int] + indent + elements + [']' as int]
    requires ParsesElements(elements, rest, bad, [], w, pf)
    ensures Parses(text, rest, bad, w, pf)
  {
    hide Scan, ParseValue, ParseElements;
    var behind := elements + (BRACKET + rest);
    ScanPunctuation('[' as int, indent + behind, bad);
    ScanAfterBlanks(indent, behind, bad);
    ListOpens(In(indent + behind, bad), pf);
    assert text + rest == ['[' as int] + (indent + behind);
  }

  const BRACKET: Bytes := [']' as int]

  /** After the elements in done, the printed elements and a closing bracket are parsed as the array w. */
  ghost predicate ParsesElements(text: Bytes, rest: Bytes, bad: bool, done: seq<Json>, w: Json, pf: ParseFlags) {
    var (t, j) := Scan(In(text + (BRACKET + rest), bad));
    StartsValue(t) && ParseElements(t, j, done, pf) == Some((w, In(rest, bad)))
  }

  lemma ParseDumpedElements(elems: seq<Json>, done: seq<Json>, f: DumpFlags, depth: nat, rest: Bytes, bad: bool, pf: ParseFlags)
    requires elems != [] && AllStorable(elems)
    ensures DumpElements(elems, f, depth).1
    ensures ParsesElements(DumpElements(elems, f, depth).0, rest, bad, done, JArray(done + ReadBackAll(elems, f)), pf)
    decreases SizeOfAll(elems), 1
  {
    hide Scan, Dump, DumpElements, After, Indent, ReadBack, ReadBackAll, Parses, ParsesElements, SizeOfAll, AllStorable, Storable;
    var v, w := elems[0], ReadBack(elems[0], f);
    var close := BRACKET + rest;
    FirstElement(elems);
    DumpElementsStep(elems, f, depth);
    ReadBackNextElement(elems, done, f);
    if |elems| == 1 {
      AfterScanned(f, depth, true, ']' as int, rest, bad);
      ParseDumped(v, f, depth + 1, After(f, depth, true) + close, bad, pf);
      OneElement(Dump(v, f, depth + 1).0, After(f, depth, true), rest, bad, done, w, pf);
    } else {
      var others := DumpElements(elems[1..], f, depth).0;
      AfterScanned(f, depth, false, ']' as int, others + close, bad);
      ParseDumped(v, f, depth + 1, After(f, depth, false) + (others + close), bad, pf);
      ParseDumpedElements(elems[1..], done + [w], f, depth, rest, bad, pf);
      OneMoreElement(Dump(v, f, depth + 1).0, After(f, depth, false), Indent(f, depth + 1, true), others, rest, bad, done, w,
                     JArray(done + [w] + ReadBackAll(elems[1..], f)), pf);
    }
  }

  lemma FirstElement(elems: seq<Json>)
    requires elems != [] && AllStorable(elems)
    ensures Storable(elems[0]) && AllStorable(elems[1..])
    ensures Size(elems[0]) <= SizeOfAll(elems) && SizeOfAll(elems[1..]) < SizeOfAll(elems)
  {
    hide Storable, Size;
  }

  lemma ReadBackNextElement(elems: seq<Json>, done: seq<Json>, f: DumpFlags)
    requires elems != []
    ensures var more := done + [ReadBack(elems[0], f)];
            && more + ReadBackAll(elems[1..], f) == done + ReadBackAll(elems, f)
            && (|elems| == 1 ==> more == done + ReadBackAll(elems, f))
  {
    hide ReadBack;
    if |elems| == 1 { assert ReadBackAll(elems[1..], f) == []; }
  }

  /** The last element. */
  lemma OneElement(text: Bytes, blank: Bytes, rest: Bytes, bad: bool, done: seq<Json>, w: Json, pf: ParseFlags)
    requires Parses(text, blank + (BRACKET + rest), bad, w, pf)
    requires Scan(In(blank + (BRACKET + rest), bad)) == (CLOSE_BRACKET, In(rest, bad))
    ensures ParsesElements(text + blank, rest, bad, done, JArray(done + [w]), pf)
  {
    hide Scan, ParseValue, ParseElements;
    var (t, j) := Scan(In(text + (blank + (BRACKET + rest)), bad));
    ElementsStep(t, j, done, pf);
    assert text + blank + (BRACKET + rest) == text + (blank + (BRACKET + rest));
  }

  /** An element, a comma, and the others. */
  lemma OneMoreElement(text: Bytes, comma: Bytes, blank: Bytes, others: Bytes, rest: Bytes, bad: bool, done: seq<Json>, w: Json,
                       result: Json, pf: ParseFlags)
    requires Parses(text, comma + (others + (BRACKET + rest)), bad, w, pf)
    requires Scan(In(comma + (others + (BRACKET + rest)), bad)) == (COMMA, In(blank + (others + (BRACKET + rest)), bad))
    requires Scan(In(blank + (others + (BRACKET + rest)), bad)) == Scan(In(others + (BRACKET + rest), bad))
    requires ParsesElements(others, rest, bad, done + [w], result, pf)
    ensures ParsesElements(text + comma + others, rest, bad, done, result, pf)
  {
    hide Scan, ParseValue, ParseElements;
    var behind := others + (BRACKET + rest);
    var (t, j) := Scan(In(text + (comma + behind), bad));
    ElementsStep(t, j, done, pf);
    assert text + comma + others + (BRACKET + rest) == text + (comma + behind);
  }

  lemma ParseDumpedObject(ms: seq<Member>, f: DumpFlags, depth: nat, rest: Bytes, bad: bool, pf: ParseFlags)
    requires KeysDiffer(ms) && MembersStorable(ms) && Delimited(rest)
    ensures Dump(JObject(ms), f, depth).1
    ensures Parses(Dump(JObject(ms), f, depth).0, rest, bad, ReadBack(JObject(ms), f), pf)
    decreases SizeOfMembers(ms), 2
  {
    hide Scan, ParseValue, ParseObject, ParseMembers, DumpMembers, Indent, Ordered, Parses, ParsesPairs, ReadBackMembers;
    if ms == [] {
      EmptyObject(f, depth, rest, bad, pf);
    } else {
      var os := Ordered(ms, f);
      SizeOfOrdered(ms, f);
      OrderedStorable(ms, f);
      ParseDumpedMembers(os, [], f, depth, rest, bad, pf);
      assert [] + ReadBackMembers(os, 0, f) == ReadBackMembers(os, 0, f);
      IndentIsBlank(f, depth + 1, false, []);
      ObjectOpens(Dump(JObject(ms), f, depth).0, DumpMembers(os, f, depth).0, Indent(f, depth + 1, false), rest, bad,
                  JObject(ReadBackMembers(os, 0, f)), pf);
    }
  }

  lemma EmptyObject(f: DumpFlags, depth: nat, rest: Bytes, bad: bool, pf: ParseFlags)
    requires Delimited(rest)
    ensures Dump(JObject([]), f, depth) == (['{' as int, '}' as int], true) && ReadBack(JObject([]), f) == JObject([])
    ensures Parses(['{' as int, '}' as int], rest, bad, JObject([]), pf)
  {
    hide Scan, ParseValue, ParseMembers, Indent;
    ListOpens(In(['}' as int] + rest, bad), pf);
    ScanPunctuation('{' as int, ['}' as int] + rest, bad);
    ScanPunctuation('}' as int, rest, bad);
    assert ['{' as int, '}' as int] + rest == ['{' as int] + (['}' as int] + rest);
    assert Ordered([], f) == [];
  }

  lemma ObjectOpens(text: Bytes, pairs: Bytes, indent: Bytes, rest: Bytes, bad: bool, w: Json, pf: ParseFlags)
    requires AllBlank(indent) && text == ['{' as int] + indent + pairs + ['}' as int]
    requires ParsesPairs(pairs, rest, bad, [], w, pf)
    ensures Parses(text, rest, bad, w, pf)
  {
    hide Scan, ParseValue, ParseMembers;
    var behind := pairs + (BRACE + rest);
    ScanPunctuation('{' as int, indent + behind, bad);
    ScanAfterBlanks(indent, behind, bad);
    ListOpens(In(indent + behind, bad), pf);
    assert text + rest == ['{' as int] + (indent + behind);
  }

  /** None of the keys of ms is in done. */
  ghost predicate KeysNew(ms: seq<Member>, done: seq<Member>) {
    forall i, j :: 0 <= i < |ms| && 0 <= j < |done| ==> ms[i].key != done[j].key
  }

  const BRACE: Bytes := ['}' as int]

  /** After the pairs in done, the printed pairs and a closing brace are parsed as the object w. */
  ghost predicate ParsesPairs(text: Bytes, rest: Bytes, bad: bool, done: seq<Member>, w: Json, pf: ParseFlags) {
    var (t, j) := Scan(In(text + (BRACE + rest), bad));
    StartsValue(t) && ParseMembers(t, j, done, |done|, pf) == Some((w, In(rest, bad)))
  }

  lemma ParseDumpedMembers(ms: seq<Member>, done: seq<Member>, f: DumpFlags, depth: nat, rest: Bytes, bad: bool, pf: ParseFlags)
    requires ms != [] && KeysDiffer(ms) && MembersStorable(ms) && KeysNew(ms, done)
    ensures DumpMembers(ms, f, depth).1
    ensures ParsesPairs(DumpMembers(ms, f, depth).0, rest, bad, done, JObject(done + ReadBackMembers(ms, |done|, f)), pf)
    decreases SizeOfMembers(ms), 1
  {
    hide Scan, DumpPair, DumpMembers, After, Indent, ReadBack, ReadBackMembers, KeysDiffer, KeysNew, ParsesPair, ParsesPairs,
         SizeOfMembers, MembersStorable, Storable, CleanText;
    var m, w := ms[0], ReadBack(ms[0].value, f);
    var more := done + [Member(m.key, |done|, w)];
    var close := BRACE + rest;
    FirstPair(ms);
    DumpMembersStep(ms, f, depth);
    NextPairs(ms, done, w);
    ReadBackNext(ms, done, f);
    if |ms| == 1 {
      AfterScanned(f, depth, true, '}' as int, rest, bad);
      ParseDumpedPair(m, f, depth, After(f, depth, true) + close, bad, pf);
      OnePair(DumpPair(m, f, depth).0, After(f, depth, true), rest, bad, done, m.key, w, pf);
    } else {
      var others := DumpMembers(ms[1..], f, depth).0;
      AfterScanned(f, depth, false, '}' as int, others + close, bad);
      ParseDumpedPair(m, f, depth, After(f, depth, false) + (others + close), bad, pf);
      ParseDumpedMembers(ms[1..], more, f, depth, rest, bad, pf);
      OneMorePair(DumpPair(m, f, depth).0, After(f, depth, false), Indent(f, depth + 1, true), others, rest, bad, done, m.key, w,
                  JObject(more + ReadBackMembers(ms[1..], |more|, f)), pf);
    }
  }

  lemma FirstPair(ms: seq<Member>)
    requires ms != [] && MembersStorable(ms)
    ensures CleanText(ms[0].key) && Storable(ms[0].value) && MembersStorable(ms[1..])
    ensures Size(ms[0].value) < SizeOfMembers(ms) && SizeOfMembers(ms[1..]) < SizeOfMembers(ms)
  {
    hide CleanText, Storable, Size;
  }

  lemma ReadBackNext(ms: seq<Member>, done: seq<Member>, f: DumpFlags)
    requires ms != []
    ensures var more := done + [Member(ms[0].key, |done|, ReadBack(ms[0].value, f))];
            && more + ReadBackMembers(ms[1..], |more|, f) == done + ReadBackMembers(ms, |done|, f)
            && (|ms| == 1 ==> more == done + ReadBackMembers(ms, |done|, f))
  {
    hide ReadBack;
    var first, others := [Member(ms[0].key, |done|, ReadBack(ms[0].value, f))], ReadBackMembers(ms[1..], |done| + 1, f);
    assert ReadBackMembers(ms, |done|, f) == first + others;
    Joined(done, first, others);
  }

  lemma Joined(x: seq<Member>, y: seq<Member>, z: seq<Member>)
    ensures x + y + z == x + (y + z)
    ensures |z| == 0 ==> x + y == x + (y + z)
  {
  }

  lemma NextPairs(ms: seq<Member>, done: seq<Member>, w: Json)
    requires ms != [] && KeysDiffer(ms) && KeysNew(ms, done)
    ensures forall j :: 0 <= j < |done| ==> done[j].key != ms[0].key
    ensures KeysDiffer(ms[1..]) && KeysNew(ms[1..], done + [Member(ms[0].key, |done|, w)])
  {
  }

  /** What ParseDumpedPair says about the text of a pair. */
  ghost predicate ParsesPair(text: Bytes, after: Bytes, bad: bool, key: Bytes, w: Json, pf: ParseFlags) {
    var (t, j) := Scan(In(text + after, bad));
    && t == Str(key)
    && Scan(j).0 == COLON
    && var (u, k) := Scan(Scan(j).1);
       ParseValue(u, k, pf) == Some((w, In(after, bad)))
  }

  /** The last pair. */
  lemma OnePair(pair: Bytes, blank: Bytes, rest: Bytes, bad: bool, done: seq<Member>, key: Bytes, w: Json, pf: ParseFlags)
    requires ParsesPair(pair, blank + (BRACE + rest), bad, key, w, pf)
    requires Scan(In(blank + (BRACE + rest), bad)) == (CLOSE_BRACE, In(rest, bad))
    requires forall j :: 0 <= j < |done| ==> done[j].key != key
    ensures ParsesPairs(pair + blank, rest, bad, done, JObject(done + [Member(key, |done|, w)]), pf)
  {
    hide Scan, ParseValue, ParseMembers, SetMember;
    NewKey(done, key, |done|, w);
    var (t, j) := Scan(In(pair + (blank + (BRACE + rest)), bad));
    MembersStep(t, j, done, |done|, pf);
    assert pair + blank + (BRACE + rest) == pair + (blank + (BRACE + rest));
  }

  /** A pair, a comma, and the others. */
  lemma OneMorePair(pair: Bytes, comma: Bytes, blank: Bytes, others: Bytes, rest: Bytes, bad: bool, done: seq<Member>, key: Bytes, w: Json,
                    result: Json, pf: ParseFlags)
    requires ParsesPair(pair, comma + (others + (BRACE + rest)), bad, key, w, pf)
    requires Scan(In(comma + (others + (BRACE + rest)), bad)) == (COMMA, In(blank + (others + (BRACE + rest)), bad))
    requires Scan(In(blank + (others + (BRACE + rest)), bad)) == Scan(In(others + (BRACE + rest), bad))
    requires forall j :: 0 <= j < |done| ==> done[j].key != key
    requires ParsesPairs(others, rest, bad, done + [Member(key, |done|, w)], result, pf)
    ensures ParsesPairs(pair + comma + others, rest, bad, done, result, pf)
  {
    hide Scan, ParseValue, ParseMembers, SetMember;
    NewKey(done, key, |done|, w);
    var behind := others + (BRACE + rest);
    var (t, j) := Scan(In(pair + (comma + behind), bad));
    MembersStep(t, j, done, |done|, pf);
    assert pair + comma + others + (BRACE + rest) == pair + (comma + behind);
  }

  /** Key, colon and value of one pair. */
  lemma ParseDumpedPair(m: Member, f: DumpFlags, depth: nat, after: Bytes, bad: bool, pf: ParseFlags)
    requires CleanText(m.key) && Storable(m.value) && Delimited(after)
    ensures DumpPair(m, f, depth).1
    ensures ParsesPair(DumpPair(m, f, depth).0, after, bad, m.key, ReadBack(m.value, f), pf)
    decreases Size(m.value), 1
  {
    hide Scan, ParseValue, Dump, Dumped, ReadBack;
    var text := Dump(m.value, f, depth + 1).0 + after;
    ParseDumped(m.value, f, depth + 1, after, bad, pf);
    ScanText(m.key, f, Separator(f) + text, bad);
    var blank: Bytes := if f.compact then [] else [' ' as int];
    ScanPunctuation(':' as int, blank + text, bad);
    ScanAfterBlanks(blank, text, bad);
    assert Separator(f) + text == [':' as int] + (blank + text);
    assert DumpPair(m, f, depth).0 + after == Dumped(m.key, f).0 + (Separator(f) + text);
  }

  lemma NewKey(done: seq<Member>, key: Bytes, serial: nat, w: Json)
    requires forall j :: 0 <= j < |done| ==> done[j].key != key
    ensures KeyAt(done, key) == None && SetMember(done, key, serial, w) == done + [Member(key, serial, w)]
  {
    KeyAtFinds(done, key);
  }

  // Printing order keeps the pairs.

  lemma OrderedSame(ms: seq<Member>, f: DumpFlags)
    ensures multiset(Ordered(ms, f)) == multiset(ms)
  {
    SortedSame(ms, true);
    SortedSame(ms, false);
  }

  lemma OrderedStorable(ms: seq<Member>, f: DumpFlags)
    requires KeysDiffer(ms) && MembersStorable(ms)
    ensures KeysDiffer(Ordered(ms, f)) && MembersStorable(Ordered(ms, f))
  {
    OrderedSame(ms, f);
    var os := Ordered(ms, f);
    StorableEach(ms);
    forall m | m in os ensures m in ms { assert m in multiset(os); assert m in multiset(ms); }
    StorableAll(os);
    KeysDifferSame(ms, os);
  }

  lemma {:induction false} StorableEach(ms: seq<Member>)
    requires MembersStorable(ms)
    ensures forall m :: m in ms ==> CleanText(m.key) && Storable(m.value)
    decreases |ms|
  {
    if ms != [] { StorableEach(ms[1..]); }
  }

  lemma {:induction false} StorableAll(ms: seq<Member>)
    requires forall m :: m in ms ==> CleanText(m.key) && Storable(m.value)
    ensures MembersStorable(ms)
    decreases |ms|
  {
    if ms != [] { StorableAll(ms[1..]); }
  }

  /** Different keys stay different in any order: each key occurs once. */
  lemma KeysDifferSame(ms: seq<Member>, os: seq<Member>)
    requires KeysDiffer(ms) && multiset(ms) == multiset(os)
    ensures KeysDiffer(os)
  {
    forall i, j | 0 <= i < j < |os| ensures os[i].key != os[j].key {
      if os[i].key == os[j].key {
        var a, b := os[i], os[j];
        assert a in multiset(ms) && b in multiset(ms);
        var k :| 0 <= k < |ms| && ms[k] == a;
        var l :| 0 <= l < |ms| && ms[l] == b;
        assert k == l;
        OccursOnce(ms, k);
        OccursTwice(os, i, j);
      }
    }
  }

  lemma OccursOnce(ms: seq<Member>, k: nat)
    requires KeysDiffer(ms) && k < |ms|
    ensures multiset(ms)[ms[k]] == 1
  {
    var front, back := ms[..k], ms[k + 1..];
    assert ms == front + [ms[k]] + back;
    assert ms[k] !in front && ms[k] !in back;
  }

  lemma OccursTwice(os: seq<Member>, i: nat, j: nat)
    requires i < j < |os| && os[i] == os[j]
    ensures multiset(os)[os[i]] >= 2
  {
    var front, back := os[..j], os[j..];
    assert os == front + back;
    assert front[i] == os[i] && back[0] == os[i];
    assert os[i] in multiset(front) && os[i] in multiset(back);
  }

  // What is read back is equal.

  /** json_equal: objects are equal if they have the same number of pairs and the first one's keys find equal values in
      the second. */
  predicate Equal(v: Json, w: Json)
    decreases Size(v), 0
  {
    match v
    case JArray(xs) => w.JArray? && |xs| == |w.elems| && AllEqual(xs, w.elems)
    case JObject(ms) => w.JObject? && |ms| == |w.members| && MembersEqual(ms, w.members)
    case _ => v == w
  }

  predicate AllEqual(xs: seq<Json>, ys: seq<Json>)
    requires |xs| == |ys|
    decreases SizeOfAll(xs), 1
  {
    xs == [] || (Equal(xs[0], ys[0]) && AllEqual(xs[1..], ys[1..]))
  }

  predicate MembersEqual(ms: seq<Member>, ns: seq<Member>)
    decreases SizeOfMembers(ms), 1
  {
    ms == [] ||
    (KeyAtFinds(ns, ms[0].key);
     && KeyAt(ns, ms[0].key).Some?
     && Equal(ms[0].value, ns[KeyAt(ns, ms[0].key).value].value)
     && MembersEqual(ms[1..], ns))
  }

  lemma {:induction false} ReadBackEqual(v: Json, f: DumpFlags)
    requires Storable(v)
    ensures Equal(v, ReadBack(v, f))
    decreases Size(v), 0
  {
    match v
    case JArray(xs) => ReadBackAllEqual(xs, f);
    case JObject(ms) =>
      SizeOfOrdered(ms, f);
      OrderedStorable(ms, f);
      OrderedSame(ms, f);
      forall m | m in ms ensures m in Ordered(ms, f) { assert m in multiset(ms); }
      ReadBackMembersEqual(ms, Ordered(ms, f), f);
    case _ =>
  }

  lemma {:induction false} ReadBackAllEqual(xs: seq<Json>, f: DumpFlags)
    requires AllStorable(xs)
    ensures AllEqual(xs, ReadBackAll(xs, f))
    decreases SizeOfAll(xs), 1
  {
    if xs != [] {
      ReadBackEqual(xs[0], f);
      ReadBackAllEqual(xs[1..], f);
    }
  }

  lemma {:induction false} ReadBackMembersAt(os: seq<Member>, serial: nat, f: DumpFlags, p: nat)
    requires p < |os|
    ensures ReadBackMembers(os, serial, f)[p] == Member(os[p].key, serial + p, ReadBack(os[p].value, f))
    decreases p
  {
    hide ReadBack;
    if p > 0 { ReadBackMembersAt(os[1..], serial + 1, f, p - 1); }
  }

  lemma {:induction false} ReadBackMembersEqual(ms: seq<Member>, os: seq<Member>, f: DumpFlags)
    requires MembersStorable(ms) && KeysDiffer(os) && forall m :: m in ms ==> m in os
    ensures MembersEqual(ms, ReadBackMembers(os, 0, f))
    decreases SizeOfMembers(ms), 1
  {
    hide Storable, ReadBack, Equal, CleanText;
    if ms != [] {
      var ns := ReadBackMembers(os, 0, f);
      assert ms[0] in ms && ms[0] in os;
      var p :| 0 <= p < |os| && os[p] == ms[0];
      ReadBackMembersAt(os, 0, f, p);
      KeyAtFinds(ns, ms[0].key);
      assert HasKey(ns, ms[0].key) by { assert ns[p].key == ms[0].key; }
      var k := KeyAt(ns, ms[0].key).value;
      assert os[k].key == os[p].key;
      assert k == p;
      ReadBackEqual(ms[0].value, f);
      ReadBackMembersEqual(ms[1..], os, f);
    }
  }

  // The printed text is itself valid UTF-8 without NUL, so the stream delivers all of it.

  lemma CleanAppend(s: Bytes, t: Bytes)
    requires CleanText(s) && CleanText(t)
    ensures CleanText(s + t)
  {
    hide Valid;
    ValidAppend(s, t);
  }

  lemma {:induction false} AsciiClean(s: Bytes)
    requires forall k :: 0 <= k < |s| ==> 0 < s[k] < 0x80
    ensures CleanText(s)
  {
    if s != [] {
      AsciiClean(s[1..]);
      assert First(s) == Char(s[0], 1);
    }
  }

  lemma EncodedClean(cp: nat)
    requires Scalar(cp) && cp > 0
    ensures CleanText(Encode(cp))
  {
    hide Encode, Valid;
    EncodedValid(cp);
    EncodedBytes(cp);
    assert forall k :: 0 <= k < |Encode(cp)| ==> Encode(cp)[k] > 0;
  }

  lemma EscapeClean(cp: nat)
    requires cp < 0x11_0000
    ensures CleanText(EscapeText(cp))
  {
    hide Valid;
    AsciiEscape(cp);
    AsciiClean(EscapeText(cp));
  }

  lemma AsciiEscape(cp: nat)
    requires cp < 0x11_0000
    ensures forall k :: 0 <= k < |EscapeText(cp)| ==> 0 < EscapeText(cp)[k] < 0x80
  {
    hide HexByte;
    forall n | 0 <= n < 16 ensures 0 < HexByte(n) < 0x80 { HexByteAscii(n); }
  }

  lemma HexByteAscii(n: nat)
    requires n < 16
    ensures 0 < HexByte(n) < 0x80
  {
  }

  lemma {:induction false} PrintedClean(cps: seq<nat>, f: DumpFlags)
    requires forall k :: 0 <= k < |cps| ==> Scalar(cps[k]) && cps[k] > 0
    ensures CleanText(PrintedAll(cps, f))
  {
    hide CleanText, EscapeText, Encode, NeedsEscape;
    if cps == [] {
      AsciiClean([]);
    } else {
      EscapeClean(cps[0]);
      EncodedClean(cps[0]);
      PrintedClean(cps[1..], f);
      CleanAppend(Printed(cps[0], f), PrintedAll(cps[1..], f));
    }
  }

  lemma DumpedClean(s: Bytes, f: DumpFlags)
    requires CleanText(s)
    ensures CleanText(Dumped(s, f).0)
  {
    hide Dumped, PrintedAll, Valid;
    DumpedValid(s, f);
    NoZeros(s);
    PrintedClean(DecodeAll(s), f);
    AsciiClean([QUOTE]);
    CleanAppend([QUOTE], PrintedAll(DecodeAll(s), f));
    CleanAppend([QUOTE] + PrintedAll(DecodeAll(s), f), [QUOTE]);
  }

  lemma IntegerClean(i: int)
    ensures CleanText(IntegerText(i))
  {
    hide DigitsOf, CleanText;
    DigitsOfIsDecimal(if i < 0 then -i else i);
    AsciiClean(IntegerText(i));
  }

  lemma IndentClean(f: DumpFlags, depth: nat, space: bool)
    ensures CleanText(Indent(f, depth, space))
  {
    hide CleanText;
    IndentIsBlank(f, depth, space, []);
    BlankClean(Indent(f, depth, space));
  }

  lemma BlankClean(b: Bytes)
    requires AllBlank(b)
    ensures CleanText(b)
  {
    hide CleanText;
    AsciiClean(b);
  }

  lemma AfterClean(f: DumpFlags, depth: nat, last: bool)
    ensures CleanText(After(f, depth, last))
  {
    hide CleanText, Indent;
    IndentClean(f, depth, false);
    IndentClean(f, depth + 1, true);
    AsciiClean([',' as int]);
    CleanAppend([',' as int], Indent(f, depth + 1, true));
  }

  lemma {:induction false} DumpClean(v: Json, f: DumpFlags, depth: nat)
    requires Storable(v)
    ensures CleanText(Dump(v, f, depth).0) && Dump(v, f, depth).1
    decreases Size(v), 0
  {
    hide CleanText, Dumped, IntegerText, Indent, DumpElements, DumpMembers, Ordered;
    match v
    case JNull => AsciiClean(NULL);
    case JTrue => AsciiClean(TRUE);
    case JFalse => AsciiClean(FALSE);
    case JInteger(i) => IntegerClean(i);
    case JReal(_) =>
    case JString(s) =>
      DumpedClean(s, f);
      ScanText(s, f, [], false);
    case JArray(elems) =>
      if elems == [] {
        AsciiClean(['[' as int, ']' as int]);
      } else {
        DumpElementsClean(elems, f, depth);
        ListClean('[' as int, ']' as int, DumpElements(elems, f, depth).0, f, depth);
      }
    case JObject(ms) =>
      if ms == [] {
        AsciiClean(['{' as int, '}' as int]);
      } else {
        SizeOfOrdered(ms, f);
        OrderedStorable(ms, f);
        DumpMembersClean(Ordered(ms, f), f, depth);
        ListClean('{' as int, '}' as int, DumpMembers(Ordered(ms, f), f, depth).0, f, depth);
      }
  }

  lemma ListClean(open: Byte, close: Byte, text: Bytes, f: DumpFlags, depth: nat)
    requires 0 < open < 0x80 && 0 < close < 0x80 && CleanText(text)
    ensures CleanText([open] + Indent(f, depth + 1, false) + text + [close])
  {
    hide CleanText, Indent;
    AsciiClean([open]);
    AsciiClean([close]);
    IndentClean(f, depth + 1, false);
    CleanAppend([open], Indent(f, depth + 1, false));
    CleanAppend([open] + Indent(f, depth + 1, false), text);
    CleanAppend([open] + Indent(f, depth + 1, false) + text, [close]);
  }

  lemma {:induction false} DumpElementsClean(elems: seq<Json>, f: DumpFlags, depth: nat)
    requires elems != [] && AllStorable(elems)
    ensures CleanText(DumpElements(elems, f, depth).0) && DumpElements(elems, f, depth).1
    decreases SizeOfAll(elems), 1
  {
    hide CleanText, Dump, DumpElements, After, Storable, AllStorable, SizeOfAll;
    FirstElement(elems);
    DumpElementsStep(elems, f, depth);
    DumpClean(elems[0], f, depth + 1);
    var d := Dump(elems[0], f, depth + 1).0;
    AfterClean(f, depth, |elems| == 1);
    CleanAppend(d, After(f, depth, |elems| == 1));
    if |elems| > 1 {
      DumpElementsClean(elems[1..], f, depth);
      CleanAppend(d + After(f, depth, false), DumpElements(elems[1..], f, depth).0);
    }
  }

  lemma {:induction false} DumpMembersClean(ms: seq<Member>, f: DumpFlags, depth: nat)
    requires ms != [] && MembersStorable(ms)
    ensures CleanText(DumpMembers(ms, f, depth).0) && DumpMembers(ms, f, depth).1
    decreases SizeOfMembers(ms), 1
  {
    hide CleanText, Dump, Dumped, DumpMembers, After, Storable, MembersStorable, SizeOfMembers, Separator;
    FirstPair(ms);
    DumpMembersStep(ms, f, depth);
    DumpClean(ms[0].value, f, depth + 1);
    DumpedClean(ms[0].key, f);
    SeparatorClean(f);
    var key, d := Dumped(ms[0].key, f).0, Dump(ms[0].value, f, depth + 1).0;
    CleanAppend(key, Separator(f));
    CleanAppend(key + Separator(f), d);
    AfterClean(f, depth, |ms| == 1);
    CleanAppend(key + Separator(f) + d, After(f, depth, |ms| == 1));
    if |ms| > 1 {
      DumpMembersClean(ms[1..], f, depth);
      CleanAppend(key + Separator(f) + d + After(f, depth, false), DumpMembers(ms[1..], f, depth).0);
    }
  }

  lemma SeparatorClean(f: DumpFlags)
    ensures CleanText(Separator(f))
  {
    hide CleanText;
    AsciiClean(Separator(f));
  }

  /** Printing succeeds, and parsing the printed text, under any flags that let the value in, gives an equal value. */
  lemma RoundTrip(v: Json, f: DumpFlags, pf: ParseFlags)
    requires Storable(v) && (pf.decodeAny || v.JArray? || v.JObject?)
    ensures Dump(v, f, 0).1
    ensures ParseJson(Front(Dump(v, f, 0).0), pf) == Some(ReadBack(v, f)) && Equal(v, ReadBack(v, f))
    ensures 0 !in Dump(v, f, 0).0
  {
    hide Dump, Scan, ParseValue, Storable, Equal, Valid;
    var text := Dump(v, f, 0).0;
    DumpClean(v, f, 0);
    FrontOfValid(text);
    ParseDumped(v, f, 0, [], false, pf);
    assert text + [] == text;
    ScanEnd();
    ReadBackEqual(v, f);
    if v.JArray? || v.JObject? { StartsWithBracket(v, f); }
  }

  lemma StartsWithBracket(v: Json, f: DumpFlags)
    requires v.JArray? || v.JObject?
    ensures Scan(In(Dump(v, f, 0).0, false)).0 == if v.JArray? then OPEN_BRACKET else OPEN_BRACE
  {
    hide DumpElements, DumpMembers, Indent, Ordered;
    var text := Dump(v, f, 0).0;
    ScanPunctuation(text[0], text[1..], false);
    assert text == [text[0]] + text[1..];
  }
}
