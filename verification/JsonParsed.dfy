/** What load.c accepts: every value it returns is one that dump.c prints and load.c reads back. */
module JsonParsed {
  import opened MachineWords
  import opened Options
  import opened Utf8
  import opened JsonStrings
  import opened JsonLexer
  import opened JsonTokens
  import opened JsonParser
  import opened JsonDump
  import opened JsonRoundTrip

  // Which values the parser returns.

  /** 64-bit integers, clean strings as values, and one value for each key. */
  predicate Kept(v: Json) {
    match v
    case JInteger(i) => MIN_INT <= i <= MAX_INT
    case JString(s) => CleanText(s)
    case JArray(elems) => forall e :: e in elems ==> Kept(e)
    case JObject(ms) => KeysDiffer(ms) && forall m :: m in ms ==> Kept(m.value)
    case _ => true
  }

  /** Every key, at any depth, is a clean string. */
  predicate KeysClean(v: Json) {
    match v
    case JArray(elems) => forall e :: e in elems ==> KeysClean(e)
    case JObject(ms) => forall m :: m in ms ==> CleanText(m.key) && KeysClean(m.value)
    case _ => true
  }

  predicate NoReals(v: Json) {
    match v
    case JReal(_) => false
    case JArray(elems) => forall e :: e in elems ==> NoReals(e)
    case JObject(ms) => forall m :: m in ms ==> NoReals(m.value)
    case _ => true
  }

  // Where a valid text may be cut.

  lemma {:induction false} AfterAscii(t: Bytes, n: nat)
    requires Valid(t) && n <= |t| && forall k :: 0 <= k < n ==> t[k] < 0x80
    ensures Valid(t[n..])
  {
    if n > 0 {
      assert First(t) == Char(t[0], 1);
      AfterAscii(t[1..], n - 1);
      assert t[1..][n - 1..] == t[n..];
    } else {
      assert t[0..] == t;
    }
  }

  /** A valid text can be cut in front of an ASCII character. */
  lemma {:induction false} CutAtAscii(t: Bytes, k: nat)
    requires Valid(t) && k < |t| && t[k] < 0x80
    ensures Valid(t[..k]) && Valid(t[k..])
    decreases k
  {
    hide Encode, First;
    if k == 0 {
      assert t[..0] == [] && t[0..] == t;
    } else {
      var c := First(t);
      FirstNotCut(t, k);
      CutAtAscii(t[c.size..], k - c.size);
      assert t[c.size..][..k - c.size] == t[..k][c.size..] && t[c.size..][k - c.size..] == t[k..];
    }
  }

  lemma FirstNotCut(t: Bytes, k: nat)
    requires 0 < k < |t| && First(t).Char? && t[k] < 0x80
    ensures First(t).size <= k && First(t[..k]) == First(t)
  {
    hide Encode, First;
    FirstIsEncoded(t);
    var c := First(t);
    FirstBytes(t, c.codepoint);
    EncodedIsFirst(c.codepoint, t[c.size..k]);
    assert t[..k] == Encode(c.codepoint) + t[c.size..k];
  }

  /** A character of more than one byte has no ASCII byte. */
  lemma FirstBytes(t: Bytes, cp: nat)
    requires Scalar(cp) && |Encode(cp)| <= |t| && t[..|Encode(cp)|] == Encode(cp)
    ensures cp >= 0x80 ==> forall k :: 0 <= k < |Encode(cp)| ==> t[k] >= 0x80
    ensures cp < 0x80 ==> |Encode(cp)| == 1 && t[0] == cp
  {
    EncodedBytes(cp);
    forall k | 0 <= k < |Encode(cp)| ensures t[k] == Encode(cp)[k] { assert t[k] == t[..|Encode(cp)|][k]; }
  }

  // Strings.

  /** Bytes above 0x7F are elements of a string's body by themselves. */
  lemma {:induction false} BodyAfterRun(p: Bytes, n: nat)
    requires Body(p) && n <= |p| && forall k :: 0 <= k < n ==> p[k] >= 0x80
    ensures Body(p[n..])
  {
    if n > 0 {
      BodyAfterRun(p[1..], n - 1);
      assert p[1..][n - 1..] == p[n..];
    } else {
      assert p[0..] == p;
    }
  }

  lemma HexByteIsAscii(b: Byte)
    requires IsHexByte(b)
    ensures b < 0x80
  {
  }

  lemma ElementIsAscii(p: Bytes)
    requires p != [] && p[0] == BACKSLASH && ElementSize(p) > 0
    ensures forall k :: 0 <= k < ElementSize(p) ==> p[k] < 0x80
  {
    hide IsHexByte;
    if p[1] == 'u' as int {
      HexByteIsAscii(p[2]);
      HexByteIsAscii(p[3]);
      HexByteIsAscii(p[4]);
      HexByteIsAscii(p[5]);
    }
  }

  /** An escape consists of ASCII characters and stands for one character that is not NUL. */
  lemma EscapeStandsFor(p: Bytes)
    requires Body(p) && p != [] && p[0] == BACKSLASH && UnescapeOne(p).Some?
    ensures CleanText(UnescapeOne(p).value.0)
    ensures forall k :: 0 <= k < UnescapeOne(p).value.1 ==> p[k] < 0x80
  {
    hide CleanText, Encode, HexValue, IsHexByte;
    ElementIsAscii(p);
    if p[1] != 'u' as int {
      AsciiClean([ShortValue(p[1])]);
    } else {
      var v := HexValue(p);
      if 0xD800 <= v <= 0xDBFF {
        var q := p[6..];
        assert Body(q);
        ElementIsAscii(q);
        forall k | 0 <= k < 12 ensures p[k] < 0x80 { if k >= 6 { assert p[k] == q[k - 6]; } }
        EncodedClean((v - 0xD800) * 0x400 + (HexValue(q) - 0xDC00) + 0x1_0000);
      } else {
        EncodedClean(v);
      }
    }
  }

  /** Unescaping a valid text gives a valid text without NUL. */
  lemma {:induction false} UnescapedClean(p: Bytes)
    requires Body(p) && Valid(p) && Unescape(p).Some?
    ensures CleanText(Unescape(p).value)
    decreases |p|
  {
    hide CleanText, First, UnescapeOne, ElementSize, Encode;
    if p == [] {
      AsciiClean([]);
    } else if p[0] == BACKSLASH {
      var (b, n) := UnescapeOne(p).value;
      EscapeStandsFor(p);
      AfterAscii(p, n);
      UnescapedClean(p[n..]);
      CleanAppend(b, Unescape(p[n..]).value);
    } else {
      PlainClean(p);
    }
  }

  /** A character that is no escape, and what follows. */
  lemma {:induction false} PlainClean(p: Bytes)
    requires Body(p) && Valid(p) && Unescape(p).Some? && p != [] && p[0] != BACKSLASH
    ensures CleanText(Unescape(p).value)
    decreases |p|, 0
  {
    hide CleanText, First, UnescapeOne, ElementSize, Encode, Unescape, Valid, Body;
    PlainCharacter(p);
    var n := First(p).size;
    UnescapedClean(p[n..]);
    CleanAppend(p[..n], Unescape(p[n..]).value);
  }

  lemma PlainCharacter(p: Bytes)
    requires Body(p) && Valid(p) && p != [] && p[0] != BACKSLASH
    ensures First(p).Char?
    ensures var n := First(p).size;
            && Body(p[n..]) && Valid(p[n..]) && CleanText(p[..n])
            && Unescape(p) == match Unescape(p[n..]) case None => None case Some(r) => Some(p[..n] + r)
  {
    hide CleanText, First, UnescapeOne, Encode, Unescape, Body, Valid, ElementSize;
    ValidFirst(p);
    PlainFirst(p);
    var n, cp := First(p).size, First(p).codepoint;
    FirstIsEncoded(p);
    assert |p[..n]| == n;
    FirstBytes(p, cp);
    EncodedClean(cp);
    if cp >= 0x80 { BodyAfterRun(p, n); }
    assert p == p[..n] + p[n..];
    RawRun(p[..n], p[n..]);
  }

  lemma ValidFirst(p: Bytes)
    requires Valid(p) && p != []
    ensures First(p).Char? && Valid(p[First(p).size..])
  {
    hide First;
  }

  lemma PlainFirst(p: Bytes)
    requires Body(p) && p != [] && p[0] != BACKSLASH
    ensures p[0] >= 0x20 && p[0] != QUOTE && Body(p[1..])
  {
  }

  lemma StringClean(t: Bytes)
    requires Valid(t) && ScanString(t).0 != Invalid
    ensures ScanString(t).0.Str? && CleanText(ScanString(t).0.s)
    ensures ScanString(t).1 > 0 && Valid(t[ScanString(t).1..])
  {
    hide Valid, CleanText, Unescape, Body;
    var k := StringEnd(t).value;
    BodyUpToEnd(t);
    CutAtAscii(t, k);
    UnescapedClean(t[..k]);
    AfterAscii(t[k..], 1);
    assert t[k..][1..] == t[k + 1..];
  }

  // Tokens.

  lemma {:induction false} BlanksAscii(t: Bytes)
    ensures forall k :: 0 <= k < Blanks(t) ==> t[k] < 0x80
  {
    if t != [] && IsBlank(t[0]) {
      BlanksAscii(t[1..]);
      forall k | 0 <= k < Blanks(t) ensures t[k] < 0x80 { if k > 0 { assert t[k] == t[1..][k - 1]; } }
    }
  }

  predicate AsciiTo(t: Bytes, n: nat) { n <= |t| && forall k :: 0 <= k < n ==> t[k] < 0x80 }

  lemma AsciiToMore(t: Bytes, n: nat, m: nat)
    requires AsciiTo(t, n) && AsciiTo(t[n..], m)
    ensures AsciiTo(t, n + m)
  {
    forall k | 0 <= k < n + m ensures t[k] < 0x80 { if k >= n { assert t[k] == t[n..][k - n]; } }
  }

  lemma FractionAscii(t: Bytes)
    ensures FractionEnd(t).Some? ==> AsciiTo(t, FractionEnd(t).value)
  {
    if t != [] && t[0] == '.' as int { AsciiToMore(t, 1, Digits(t[1..])); }
  }

  lemma ExponentAscii(t: Bytes)
    ensures ExponentEnd(t).Some? ==> AsciiTo(t, ExponentEnd(t).value)
  {
    if t != [] && IsExponent(t[0]) {
      var s := if |t| > 1 && (t[1] == '+' as int || t[1] == '-' as int) then 2 else 1;
      AsciiToMore(t, s, Digits(t[s..]));
    }
  }

  lemma NumberAscii(t: Bytes)
    requires ScanNumber(t).0 != Invalid
    ensures AsciiTo(t, ScanNumber(t).1)
    ensures ScanNumber(t).0.Integer? || ScanNumber(t).0.Real?
    ensures ScanNumber(t).0.Integer? ==> MIN_INT <= ScanNumber(t).0.i <= MAX_INT
  {
    hide IntegerEnd, FractionEnd, ExponentEnd;
    var n := IntegerEnd(t);
    assert AsciiTo(t, n);
    if ScanNumber(t).0.Real? {
      FractionAscii(t[n..]);
      var f := FractionEnd(t[n..]).value;
      AsciiToMore(t, n, f);
      ExponentAscii(t[n + f..]);
      AsciiToMore(t, n + f, ExponentEnd(t[n + f..]).value);
    }
  }

  /** What a token may hold. */
  predicate TokenOk(t: Token) {
    match t
    case Str(s) => CleanText(s)
    case Integer(i) => MIN_INT <= i <= MAX_INT
    case _ => true
  }

  lemma WordAscii(w: Bytes)
    requires WordToken(w) != Invalid
    ensures AsciiTo(w, |w|) && TokenOk(WordToken(w))
  {
  }

  lemma Token1Clean(t: Bytes)
    requires t != [] && Valid(t) && Token1(t).0 != Invalid
    ensures TokenOk(Token1(t).0) && Valid(t[Token1(t).1..])
  {
    hide Valid, CleanText, ScanNumber, ScanString, WordToken, Letters;
    var c, n := t[0], Token1(t).1;
    if IsPunctuation(c) {
      AfterAscii(t, 1);
    } else if c == QUOTE {
      AfterAscii(t, 1);
      StringClean(t[1..]);
      assert t[1..][n - 1..] == t[n..];
    } else if IsDigit(c) || c == '-' as int {
      NumberAscii(t);
      AfterAscii(t, n);
    } else {
      WordAscii(t[..n]);
      forall k | 0 <= k < n ensures t[k] < 0x80 { assert t[k] == t[..n][k]; }
      AfterAscii(t, n);
    }
  }

  /** Tokens of a valid text hold clean strings and 64-bit integers, and what is left is valid again. */
  lemma ScanClean(i: In)
    requires Valid(i.text)
    ensures Scan(i).0 != Invalid ==> TokenOk(Scan(i).0) && Valid(Scan(i).1.text)
  {
    hide Token1, TokenOk;
    var n := Blanks(i.text);
    BlanksAscii(i.text);
    AfterAscii(i.text, n);
    var t := i.text[n..];
    if t != [] && Token1(t).0 != Invalid { Token1Clean(t); }
    EndOk();
  }

  lemma EndOk()
    ensures TokenOk(EndOfInput)
  {
  }

  // Values.

  ghost predicate Good(v: Json) { Kept(v) && KeysClean(v) }

  ghost predicate GoodMembers(ms: seq<Member>) {
    KeysDiffer(ms) && forall m :: m in ms ==> CleanText(m.key) && Good(m.value)
  }

  /** The parser's result, if there is one, is good, and the text left behind it is valid. */
  ghost predicate GoodResult(r: Option<(Json, In)>) {
    r.Some? ==> Good(r.value.0) && Valid(r.value.1.text)
  }

  lemma GoodList(elems: seq<Json>)
    requires forall e :: e in elems ==> Good(e)
    ensures Good(JArray(elems))
  {
  }

  lemma GoodObject(ms: seq<Member>)
    requires GoodMembers(ms)
    ensures Good(JObject(ms))
  {
    hide CleanText, KeysDiffer;
  }

  lemma SetMemberGood(ms: seq<Member>, key: Bytes, serial: nat, v: Json)
    requires GoodMembers(ms) && CleanText(key) && Good(v)
    ensures GoodMembers(SetMember(ms, key, serial, v))
  {
    hide CleanText, Good;
    KeyAtFinds(ms, key);
    var r := SetMember(ms, key, serial, v);
    match KeyAt(ms, key)
    case None =>
    case Some(k) =>
      forall m | m in r ensures CleanText(m.key) && Good(m.value) {
        var j :| 0 <= j < |r| && r[j] == m;
        if j != k { assert m == ms[j]; } else { assert m.key == ms[k].key && ms[k] in ms; }
      }
  }

  lemma {:induction false} ValueGood(t: Token, i: In, f: ParseFlags)
    requires t != Invalid ==> TokenOk(t) && Valid(i.text)
    ensures GoodResult(ParseValue(t, i, f))
    decreases |i.text|, 1
  {
    hide ParseArray, ParseObject, Valid, CleanText;
    if t == OPEN_BRACKET { ArrayGood(i, f); } else if t == OPEN_BRACE { ObjectGood(i, f); }
  }

  lemma {:induction false} ArrayGood(i: In, f: ParseFlags)
    requires Valid(i.text)
    ensures GoodResult(ParseArray(i, f))
    decreases |i.text|, 0
  {
    hide ParseElements, Scan, Valid, TokenOk;
    ScanClean(i);
    ScanShrinks(i);
    var (t, j) := Scan(i);
    GoodList([]);
    if t != CLOSE_BRACKET && t != Invalid && t != EndOfInput { ElementsGood(t, j, [], f); }
  }

  lemma {:induction false} ElementsGood(t: Token, i: In, elems: seq<Json>, f: ParseFlags)
    requires t != Invalid ==> TokenOk(t) && Valid(i.text)
    requires forall e :: e in elems ==> Good(e)
    ensures GoodResult(ParseElements(t, i, elems, f))
    decreases |i.text|, 2
  {
    hide ParseElements, ParseValue, Scan, Valid, TokenOk, Good;
    ElementsStep(t, i, elems, f);
    ValueGood(t, i, f);
    if ParseValue(t, i, f).Some? {
      var (e, k) := ParseValue(t, i, f).value;
      ScanClean(k);
      ScanShrinks(k);
      var (u, j) := Scan(k);
      GoodList(elems + [e]);
      if u == COMMA {
        ScanClean(j);
        ScanShrinks(j);
        ElementsGood(Scan(j).0, Scan(j).1, elems + [e], f);
      }
    }
  }

  lemma {:induction false} ObjectGood(i: In, f: ParseFlags)
    requires Valid(i.text)
    ensures GoodResult(ParseObject(i, f))
    decreases |i.text|, 0
  {
    hide ParseMembers, Scan, Valid, TokenOk;
    ScanClean(i);
    ScanShrinks(i);
    var (t, j) := Scan(i);
    GoodObject([]);
    if t != CLOSE_BRACE && t != Invalid && t != EndOfInput { MembersGood(t, j, [], 0, f); }
  }

  lemma {:induction false} MembersGood(t: Token, i: In, ms: seq<Member>, serial: nat, f: ParseFlags)
    requires t != Invalid ==> TokenOk(t) && Valid(i.text)
    requires GoodMembers(ms)
    ensures GoodResult(ParseMembers(t, i, ms, serial, f))
    decreases |i.text|, 2
  {
    hide ParseMembers, ParseValue, Scan, Valid, SetMember, Good, GoodMembers, CleanText;
    MembersStep(t, i, ms, serial, f);
    if t.Str? {
      ScanClean(i);
      ScanShrinks(i);
      var (u, j) := Scan(i);
      if u == COLON {
        ScanClean(j);
        ScanShrinks(j);
        ValueGood(Scan(j).0, Scan(j).1, f);
        if ParseValue(Scan(j).0, Scan(j).1, f).Some? {
          var (v, k) := ParseValue(Scan(j).0, Scan(j).1, f).value;
          var more := SetMember(ms, t.s, serial, v);
          SetMemberGood(ms, t.s, serial, v);
          GoodObject(more);
          ScanClean(k);
          ScanShrinks(k);
          var (w, l) := Scan(k);
          if w == COMMA {
            ScanClean(l);
            ScanShrinks(l);
            MembersGood(Scan(l).0, Scan(l).1, more, serial + 1, f);
          }
        }
      }
    }
  }

  lemma {:induction false} FrontValid(data: Bytes)
    ensures Valid(Front(data).text)
  {
    hide First, Encode;
    if data != [] && First(data).Char? {
      var n := First(data).size;
      FrontValid(data[n..]);
      FirstIsEncoded(data);
      EncodedValid(First(data).codepoint);
      ValidAppend(data[..n], Front(data[n..]).text);
    }
  }

  /** Whatever bytes are parsed under whatever flags: integers of the result fit 64 bits, its strings and keys are
      UTF-8 without NUL, and the keys of each object differ. */
  lemma ParsedIsKept(data: Bytes, pf: ParseFlags)
    requires ParseJson(Front(data), pf).Some?
    ensures Kept(ParseJson(Front(data), pf).value) && KeysClean(ParseJson(Front(data), pf).value)
  {
    hide Scan, ParseValue, Valid, TokenOk, Front, Kept, KeysClean;
    FrontValid(data);
    var i := Front(data);
    ScanClean(i);
    ValueGood(Scan(i).0, Scan(i).1, pf);
  }

  // Which printed values are read back.

  /** The values of the round trip are those that the parser can return, without floating-point numbers. */
  lemma {:induction false} StorableExactly(v: Json)
    ensures Storable(v) <==> Kept(v) && KeysClean(v) && NoReals(v)
    decreases Size(v), 0
  {
    hide CleanText, KeysDiffer;
    match v
    case JArray(elems) => AllStorableExactly(elems);
    case JObject(ms) => MembersStorableExactly(ms);
    case _ =>
  }

  lemma {:induction false} AllStorableExactly(elems: seq<Json>)
    ensures AllStorable(elems) <==> forall e :: e in elems ==> Kept(e) && KeysClean(e) && NoReals(e)
    decreases SizeOfAll(elems), 1
  {
    hide Storable, Kept, KeysClean, NoReals, Size;
    if elems != [] {
      StorableExactly(elems[0]);
      AllStorableExactly(elems[1..]);
      assert elems == [elems[0]] + elems[1..];
    }
  }

  lemma {:induction false} MembersStorableExactly(ms: seq<Member>)
    ensures MembersStorable(ms) <==>
            forall m :: m in ms ==> CleanText(m.key) && Kept(m.value) && KeysClean(m.value) && NoReals(m.value)
    decreases SizeOfMembers(ms), 1
  {
    hide Storable, Kept, KeysClean, NoReals, Size, CleanText;
    if ms != [] {
      StorableExactly(ms[0].value);
      MembersStorableExactly(ms[1..]);
      assert ms == [ms[0]] + ms[1..];
    }
  }

  /** A value equal to one with clean keys has clean keys. */
  lemma {:induction false} EqualKeys(v: Json, w: Json)
    requires Equal(v, w) && KeysClean(w)
    ensures KeysClean(v)
    decreases Size(v), 0
  {
    hide CleanText;
    match v
    case JArray(xs) => AllEqualKeys(xs, w.elems);
    case JObject(ms) => MembersEqualKeys(ms, w.members);
    case _ =>
  }

  lemma {:induction false} AllEqualKeys(xs: seq<Json>, ys: seq<Json>)
    requires |xs| == |ys| && AllEqual(xs, ys) && forall e :: e in ys ==> KeysClean(e)
    ensures forall e :: e in xs ==> KeysClean(e)
    decreases SizeOfAll(xs), 1
  {
    hide Equal, KeysClean, Size;
    if xs != [] {
      EqualKeys(xs[0], ys[0]);
      AllEqualKeys(xs[1..], ys[1..]);
      assert xs == [xs[0]] + xs[1..];
    }
  }

  lemma {:induction false} MembersEqualKeys(ms: seq<Member>, ns: seq<Member>)
    requires MembersEqual(ms, ns) && forall m :: m in ns ==> CleanText(m.key) && KeysClean(m.value)
    ensures forall m :: m in ms ==> CleanText(m.key) && KeysClean(m.value)
    decreases SizeOfMembers(ms), 1
  {
    hide Equal, KeysClean, Size, CleanText;
    if ms != [] {
      KeyAtFinds(ns, ms[0].key);
      var n := ns[KeyAt(ns, ms[0].key).value];
      assert n in ns;
      EqualKeys(ms[0].value, n.value);
      MembersEqualKeys(ms[1..], ns);
      assert ms == [ms[0]] + ms[1..];
    }
  }

  // json_equal is an equivalence on what the parser can return.

  /** m has a partner in ns: the same key, and an equal value. */
  ghost predicate Found(m: Member, ns: seq<Member>) {
    exists k :: 0 <= k < |ns| && ns[k].key == m.key && Equal(m.value, ns[k].value)
  }

  lemma FoundByKey(m: Member, ns: seq<Member>)
    requires KeysDiffer(ns)
    ensures match KeyAt(ns, m.key)
            case None => !Found(m, ns)
            case Some(k) => k < |ns| && (Found(m, ns) <==> Equal(m.value, ns[k].value))
  {
    hide Equal;
    KeyAtFinds(ns, m.key);
    if k :| 0 <= k < |ns| && ns[k].key == m.key && Equal(m.value, ns[k].value) {
      assert HasKey(ns, m.key);
    }
  }

  lemma {:induction false} AllEqualEach(xs: seq<Json>, ys: seq<Json>)
    requires |xs| == |ys|
    ensures AllEqual(xs, ys) <==> forall i :: 0 <= i < |xs| ==> Equal(xs[i], ys[i])
    decreases |xs|
  {
    hide Equal;
    if xs != [] {
      AllEqualEach(xs[1..], ys[1..]);
      assert forall i :: 1 <= i < |xs| ==> xs[i] == xs[1..][i - 1] && ys[i] == ys[1..][i - 1];
    }
  }

  lemma {:induction false} MembersEqualEach(ms: seq<Member>, ns: seq<Member>)
    requires KeysDiffer(ns)
    ensures MembersEqual(ms, ns) <==> forall i :: 0 <= i < |ms| ==> Found(ms[i], ns)
    decreases |ms|
  {
    hide Equal, Found, KeysDiffer;
    if ms != [] {
      FoundByKey(ms[0], ns);
      MembersEqualEach(ms[1..], ns);
      assert forall i :: 1 <= i < |ms| ==> ms[i] == ms[1..][i - 1];
    }
  }

  /** Equality in terms of positions and partners. */
  ghost predicate EqualParts(v: Json, w: Json) {
    match v
    case JArray(xs) => w.JArray? && |xs| == |w.elems| && forall i :: 0 <= i < |xs| ==> Equal(xs[i], w.elems[i])
    case JObject(ms) => w.JObject? && |ms| == |w.members| && forall i :: 0 <= i < |ms| ==> Found(ms[i], w.members)
    case _ => v == w
  }

  lemma EqualByParts(v: Json, w: Json)
    requires Kept(w)
    ensures Equal(v, w) <==> EqualParts(v, w)
  {
    hide Found, KeysDiffer;
    if v.JArray? && w.JArray? && |v.elems| == |w.elems| { AllEqualEach(v.elems, w.elems); }
    if v.JObject? && w.JObject? { MembersEqualEach(v.members, w.members); }
  }

  lemma {:induction false} EqualReflexive(v: Json)
    requires Kept(v)
    ensures Equal(v, v)
    decreases v
  {
    hide Equal;
    EqualByParts(v, v);
    match v
    case JArray(xs) => forall i | 0 <= i < |xs| ensures Equal(xs[i], xs[i]) { EqualReflexive(xs[i]); }
    case JObject(ms) =>
      forall i | 0 <= i < |ms| ensures Found(ms[i], ms) {
        assert ms[i] in ms;
        EqualReflexive(ms[i].value);
      }
    case _ =>
  }

  lemma {:induction false} EqualTransitive(v: Json, w: Json, x: Json)
    requires Kept(w) && Kept(x) && Equal(v, w) && Equal(w, x)
    ensures Equal(v, x)
    decreases v
  {
    hide Equal;
    EqualByParts(v, w);
    EqualByParts(w, x);
    EqualByParts(v, x);
    match v
    case JArray(xs) =>
      forall i | 0 <= i < |xs| ensures Equal(xs[i], x.elems[i]) {
        EqualTransitive(xs[i], w.elems[i], x.elems[i]);
      }
    case JObject(ms) =>
      forall i | 0 <= i < |ms| ensures Found(ms[i], x.members) {
        assert Found(ms[i], w.members);
        var k :| 0 <= k < |w.members| && w.members[k].key == ms[i].key && Equal(ms[i].value, w.members[k].value);
        assert Found(w.members[k], x.members);
        var l :| 0 <= l < |x.members| && x.members[l].key == w.members[k].key && Equal(w.members[k].value, x.members[l].value);
        assert w.members[k] in w.members && x.members[l] in x.members;
        EqualTransitive(ms[i].value, w.members[k].value, x.members[l].value);
      }
    case _ =>
  }

  // Permutations of positions.

  ghost predicate Permutation(p: seq<nat>, n: nat) {
    && |p| == n
    && (forall i :: 0 <= i < n ==> p[i] < n)
    && forall i, j :: 0 <= i < j < n ==> p[i] != p[j]
  }

  lemma {:induction false} Pigeonhole(p: seq<nat>, holes: set<nat>)
    requires (forall i :: 0 <= i < |p| ==> p[i] in holes) && forall i, j :: 0 <= i < j < |p| ==> p[i] != p[j]
    ensures |p| <= |holes|
    decreases |p|
  {
    if p != [] { Pigeonhole(p[..|p| - 1], holes - {p[|p| - 1]}); }
  }

  /** The numbers below n. */
  ghost function Numbers(n: nat): (r: set<nat>)
    ensures |r| == n && forall k: nat :: k in r <==> k < n
  {
    if n == 0 then {} else Numbers(n - 1) + {n - 1}
  }

  lemma PermutationReaches(p: seq<nat>, n: nat, k: nat)
    requires Permutation(p, n) && k < n
    ensures exists i :: 0 <= i < n && p[i] == k
  {
    if forall i :: 0 <= i < n ==> p[i] != k { Pigeonhole(p, Numbers(n) - {k}); }
  }

  /** Where the partners of ms are in ns, if all have one. */
  lemma Partners(ms: seq<Member>, ns: seq<Member>) returns (p: seq<nat>)
    requires KeysDiffer(ms) && KeysDiffer(ns) && |ms| == |ns| && forall i :: 0 <= i < |ms| ==> Found(ms[i], ns)
    ensures Permutation(p, |ns|)
    ensures forall i :: 0 <= i < |ms| ==> ns[p[i]].key == ms[i].key && Equal(ms[i].value, ns[p[i]].value)
  {
    hide Equal, Found;
    forall i | 0 <= i < |ms| ensures KeyAt(ns, ms[i].key).Some? && Matches(ms[i], ns, KeyAt(ns, ms[i].key).value) {
      FoundByKey(ms[i], ns);
      KeyAtFinds(ns, ms[i].key);
    }
    p := seq(|ms|, i requires 0 <= i < |ms| => KeyAt(ns, ms[i].key).value);
    forall i, j | 0 <= i < j < |ms| ensures p[i] != p[j] {
      assert ns[p[i]].key == ms[i].key && ns[p[j]].key == ms[j].key;
    }
  }

  ghost predicate Matches(m: Member, ns: seq<Member>, k: nat) {
    k < |ns| && ns[k].key == m.key && Equal(m.value, ns[k].value)
  }

  lemma {:induction false} EqualSymmetric(v: Json, w: Json)
    requires Kept(v) && Kept(w) && Equal(v, w)
    ensures Equal(w, v)
    decreases v
  {
    hide Equal, KeysDiffer;
    EqualByParts(v, w);
    EqualByParts(w, v);
    match v
    case JArray(xs) => forall i | 0 <= i < |xs| ensures Equal(w.elems[i], xs[i]) { EqualSymmetric(xs[i], w.elems[i]); }
    case JObject(ms) =>
      var ns := w.members;
      var p := Partners(ms, ns);
      forall k | 0 <= k < |ns| ensures Found(ns[k], ms) {
        PermutationReaches(p, |ns|, k);
        var i :| 0 <= i < |ns| && p[i] == k;
        assert ms[i] in ms && ns[k] in ns;
        EqualSymmetric(ms[i].value, ns[k].value);
      }
    case _ =>
  }

  // Objects are printed in the order of their hash table, which is not that of the text.

  /** w is v with the pairs of its objects, at any depth, in any order and with any serial numbers. */
  ghost predicate Permuted(v: Json, w: Json) {
    match v
    case JArray(xs) => w.JArray? && |w.elems| == |xs| && forall i :: 0 <= i < |xs| ==> Permuted(xs[i], w.elems[i])
    case JObject(ms) => w.JObject? && |w.members| == |ms| && exists p: seq<nat> :: PermutedBy(ms, w.members, p)
    case _ => v == w
  }

  /** Pair j of ns is pair p[j] of ms. */
  ghost predicate PermutedBy(ms: seq<Member>, ns: seq<Member>, p: seq<nat>) {
    && |ns| == |ms| && Permutation(p, |ms|)
    && forall j :: 0 <= j < |ms| ==> ns[j].key == ms[p[j]].key && Permuted(ms[p[j]].value, ns[j].value)
  }

  lemma {:induction false} SameOrder(v: Json)
    ensures Permuted(v, v)
    decreases v
  {
    match v
    case JArray(xs) => forall i | 0 <= i < |xs| ensures Permuted(xs[i], xs[i]) { SameOrder(xs[i]); }
    case JObject(ms) =>
      var p: seq<nat> := seq(|ms|, i => i);
      forall j | 0 <= j < |ms| ensures Permuted(ms[p[j]].value, ms[j].value) { SameOrder(ms[j].value); }
      assert PermutedBy(ms, ms, p);
    case _ =>
  }

  /** Another order of the pairs is equal, and has the same properties. */
  lemma {:induction false} PermutedIsEqual(v: Json, w: Json)
    requires Kept(v) && KeysClean(v) && NoReals(v) && Permuted(v, w)
    ensures Kept(w) && KeysClean(w) && NoReals(w) && Equal(v, w)
    decreases v
  {
    hide Equal, CleanText;
    match v
    case JArray(xs) =>
      forall i | 0 <= i < |xs| ensures Good(w.elems[i]) && NoReals(w.elems[i]) && Equal(xs[i], w.elems[i]) {
        PermutedIsEqual(xs[i], w.elems[i]);
      }
      assert Kept(w);
      EqualByParts(v, w);
    case JObject(ms) =>
      var ns := w.members;
      var p :| PermutedBy(ms, ns, p);
      forall j | 0 <= j < |ns|
        ensures CleanText(ns[j].key) && Good(ns[j].value) && NoReals(ns[j].value) && Equal(ms[p[j]].value, ns[j].value)
      {
        assert ms[p[j]] in ms;
        PermutedIsEqual(ms[p[j]].value, ns[j].value);
      }
      KeysStayDifferent(ms, ns, p);
      assert Kept(w);
      forall i | 0 <= i < |ms| ensures Found(ms[i], ns) {
        PermutationReaches(p, |ms|, i);
      }
      EqualByParts(v, w);
    case _ => EqualByParts(v, w);
  }

  lemma KeysStayDifferent(ms: seq<Member>, ns: seq<Member>, p: seq<nat>)
    requires KeysDiffer(ms) && PermutedBy(ms, ns, p)
    ensures KeysDiffer(ns)
  {
    forall i, j | 0 <= i < j < |ns| ensures ns[i].key != ns[j].key {
      assert p[i] != p[j];
    }
  }

  /** What was parsed from any bytes is printed with success, in whatever order its objects hold their pairs, and the
      printed text is parsed as an equal value. */
  lemma ReprintedIsEqual(data: Bytes, pf: ParseFlags, u: Json, f: DumpFlags, again: ParseFlags)
    requires ParseJson(Front(data), pf).Some? && NoReals(ParseJson(Front(data), pf).value)
    requires Permuted(ParseJson(Front(data), pf).value, u)
    requires again.decodeAny || u.JArray? || u.JObject?
    ensures Dump(u, f, 0).1
    ensures ParseJson(Front(Dump(u, f, 0).0), again) == Some(ReadBack(u, f))
    ensures Equal(ParseJson(Front(data), pf).value, ReadBack(u, f))
  {
    hide Front, ParseJson, Dump, Equal, ReadBack, Kept, KeysClean, NoReals, Storable, Permuted;
    var v := ParseJson(Front(data), pf).value;
    ParsedIsKept(data, pf);
    PermutedIsEqual(v, u);
    StorableExactly(u);
    RoundTrip(u, f, again);
    ParsedIsKept(Dump(u, f, 0).0, again);
    EqualTransitive(v, u, ReadBack(u, f));
  }

  /** Parsing the text that was printed for v gives an equal value. */
  ghost predicate ReadsBack(v: Json, f: DumpFlags, pf: ParseFlags) {
    var r := ParseJson(Front(Dump(v, f, 0).0), pf);
    r.Some? && Equal(v, r.value)
  }

  /** A value whose strings are clean, if not its keys, is always printed with success; it is read back equal if and
      only if every key is clean. */
  lemma ReadsBackExactly(v: Json, f: DumpFlags, pf: ParseFlags)
    requires Kept(v) && NoReals(v) && (pf.decodeAny || v.JArray? || v.JObject?)
    ensures Dump(v, f, 0).1
    ensures ReadsBack(v, f, pf) <==> KeysClean(v)
  {
    hide Front, ParseJson, Dump, Equal, ReadBack, Kept, KeysClean, NoReals, Storable, ValuesValid;
    DumpSucceeds(v, f, 0);
    KeptIsPrinted(v);
    if KeysClean(v) {
      StorableExactly(v);
      RoundTrip(v, f, pf);
    }
    if ReadsBack(v, f, pf) {
      var text := Dump(v, f, 0).0;
      ParsedIsKept(text, pf);
      EqualKeys(v, ParseJson(Front(text), pf).value);
    }
  }

  lemma {:induction false} KeptIsPrinted(v: Json)
    requires Kept(v)
    ensures ValuesValid(v)
    decreases Size(v), 0
  {
    match v
    case JArray(elems) => AllPrinted(elems);
    case JObject(ms) => MembersPrinted(ms);
    case _ =>
  }

  lemma {:induction false} AllPrinted(elems: seq<Json>)
    requires forall e :: e in elems ==> Kept(e)
    ensures AllValuesValid(elems)
    decreases SizeOfAll(elems), 1
  {
    if elems != [] {
      KeptIsPrinted(elems[0]);
      AllPrinted(elems[1..]);
    }
  }

  lemma {:induction false} MembersPrinted(ms: seq<Member>)
    requires forall m :: m in ms ==> Kept(m.value)
    ensures MemberValuesValid(ms)
    decreases SizeOfMembers(ms), 1
  {
    if ms != [] {
      KeptIsPrinted(ms[0].value);
      MembersPrinted(ms[1..]);
    }
  }

  /** For instance: the text that BadKeyPrinted says is printed cannot be parsed, because its string never ends. */
  lemma BadKeyNotParsed(pf: ParseFlags)
    ensures var text: Bytes := ['{' as int, QUOTE, ':' as int, 'n' as int, 'u' as int, 'l' as int, 'l' as int, '}' as int];
            ParseJson(Front(text), pf) == None
  {
    hide ParseJson, Front, CleanText;
    var behind: Bytes := [':' as int, 'n' as int, 'u' as int, 'l' as int, 'l' as int, '}' as int];
    var text := ['{' as int] + ([QUOTE] + behind);
    AsciiClean(text);
    NeverEnds(behind);
    KeyNeverEnds(behind, pf);
    assert text == ['{' as int, QUOTE, ':' as int, 'n' as int, 'u' as int, 'l' as int, 'l' as int, '}' as int];
  }

  lemma KeyNeverEnds(t: Bytes, pf: ParseFlags)
    requires StringEnd(t) == None && CleanText(['{' as int] + ([QUOTE] + t))
    ensures ParseJson(Front(['{' as int] + ([QUOTE] + t)), pf) == None
  {
    hide Scan, Front, Token1, Valid, ParseValue;
    FrontOfValid(['{' as int] + ([QUOTE] + t));
    ScanPunctuation('{' as int, [QUOTE] + t, false);
    NoBlanks([QUOTE] + t, false);
    OpenString(t);
    NoKey(In([QUOTE] + t, false), pf);
  }

  lemma NoKey(i: In, pf: ParseFlags)
    requires Scan(i).0 == Invalid
    ensures ParseValue(OPEN_BRACE, i, pf) == None
  {
    hide Scan, ParseMembers;
    assert ParseObject(i, pf) == None;
  }

  lemma OpenString(t: Bytes)
    requires StringEnd(t) == None
    ensures Token1([QUOTE] + t).0 == Invalid
  {
    assert ([QUOTE] + t)[1..] == t;
  }

  lemma {:induction false} NeverEnds(t: Bytes)
    requires forall k :: 0 <= k < |t| ==> t[k] >= 0x20 && t[k] != QUOTE && t[k] != BACKSLASH
    ensures StringEnd(t) == None
  {
    if t != [] { NeverEnds(t[1..]); }
  }
}
