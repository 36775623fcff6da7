/** The parser accepts exactly the texts of the grammar, and returns what they denote. */
module JsonExact {
  import opened MachineWords
  import opened Options
  import opened Utf8
  import opened HexText
  import opened JsonStrings
  import opened JsonLexer
  import opened JsonTokens
  import opened JsonParser
  import opened JsonRoundTrip
  import opened JsonGrammar

  // Strings.

  lemma NibbleIs(b: Byte)
    ensures Nibble(b) == if IsHexByte(b) then Some(DigitValue(b as char)) else None
  {
  }

  lemma UnicodeValueIs(p: Bytes)
    ensures UnicodeValue(p) == if ElementSize(p) == 6 then Some(HexValue(p)) else None
  {
    hide Nibble, IsHexByte, DigitValue, IsShortEscape;
    if |p| >= 6 {
      NibbleIs(p[2]);
      NibbleIs(p[3]);
      NibbleIs(p[4]);
      NibbleIs(p[5]);
    }
  }

  lemma LetterValueIs(b: Byte)
    requires b != 'u' as int
    ensures LetterValue(b) == if IsShortEscape(b) then Some(ShortValue(b)) else None
  {
  }

  lemma Followed(b: Bytes, s: Bytes)
    requires |b| <= |s| && s[..|b|] == b
    ensures s == b + s[|b|..]
  {
  }

  /** What a denoted string is unescaped to. */
  lemma {:induction false} CharsRead(p: Bytes, s: Bytes)
    requires Chars(p, s)
    ensures Body(p) && Unescape(p) == Some(s)
    decreases |p|
  {
    hide UnicodeValue, LetterValue, HexValue, IsHexByte, IsShortEscape, ShortValue, Encode;
    if p == [] {
    } else if p[0] != 0x5C {
      CharsRead(p[1..], s[1..]);
      Followed([p[0]], s);
    } else if p[1] != 0x75 {
      LetterValueIs(p[1]);
      CharsRead(p[2..], s[1..]);
      Followed([LetterValue(p[1]).value], s);
    } else {
      UnicodeValueIs(p);
      UnicodeValueIs(p[6..]);
      var v := UnicodeValue(p).value;
      if 0xD800 <= v <= 0xDBFF {
        var cp := 0x1_0000 + (v - 0xD800) * 0x400 + (UnicodeValue(p[6..]).value - 0xDC00);
        CharsRead(p[12..], s[|Encode(cp)|..]);
        assert p[6..][6..] == p[12..];
        Followed(Encode(cp), s);
      } else {
        CharsRead(p[6..], s[|Encode(v)|..]);
        Followed(Encode(v), s);
      }
    }
  }

  /** What is unescaped is denoted. */
  lemma {:induction false} ReadChars(p: Bytes)
    requires Body(p) && Unescape(p).Some?
    ensures Chars(p, Unescape(p).value)
    decreases |p|
  {
    hide UnicodeValue, LetterValue, HexValue, IsHexByte, IsShortEscape, ShortValue, Encode;
    if p != [] {
      var (b, n) := UnescapeOne(p).value;
      ReadChars(p[n..]);
      var s := Unescape(p).value;
      assert s == b + Unescape(p[n..]).value;
      assert s[..|b|] == b && s[|b|..] == Unescape(p[n..]).value;
      if p[0] != 0x5C {
      } else if p[1] != 0x75 {
        LetterValueIs(p[1]);
      } else {
        UnicodeValueIs(p);
        UnicodeValueIs(p[6..]);
        if 0xD800 <= HexValue(p) <= 0xDBFF { assert p[6..][6..] == p[12..]; }
      }
    }
  }

  // Numbers.

  lemma ClassesAgree(b: Byte)
    ensures Digit(b) == IsDigit(b) && Letter(b) == IsAlpha(b) && IsExponent(b) == (b == 0x45 || b == 0x65)
    ensures IsBlank(b) == (b == 0x20 || b == 0x09 || b == 0x0A || b == 0x0D)
  {
  }

  lemma {:induction false} DecimalIs(t: Bytes)
    requires forall k :: 0 <= k < |t| ==> IsDigit(t[k])
    ensures Decimal(t) == NumberOf(t)
  {
    if t != [] { DecimalIs(t[..|t| - 1]); }
  }

  /** A run of digits ends where no digit follows. */
  lemma {:induction false} DigitsStop(t: Bytes)
    ensures Digits(t) < |t| ==> !IsDigit(t[Digits(t)])
  {
    if t != [] && IsDigit(t[0]) { DigitsStop(t[1..]); }
  }

  lemma {:induction false} LettersStop(t: Bytes)
    ensures Letters(t) < |t| ==> !IsAlpha(t[Letters(t)])
  {
    if t != [] && IsAlpha(t[0]) { LettersStop(t[1..]); }
  }

  lemma WholeInFront(t: Bytes, rest: Bytes)
    requires WholeNumber(t) && (rest == [] || !Digit(rest[0]))
    ensures t != [] && IntegerEnd(t + rest) == |t|
  {
    hide Digits, IntegerEnd;
    if t[0] == 0x2D {
      var d := t[1..];
      DigitsInFront(d, rest);
      PositiveEnd(d, rest);
      MinusInFront(d + rest);
      assert t + rest == ['-' as int] + (d + rest);
    } else {
      DigitsInFront(t, rest);
      PositiveEnd(t, rest);
    }
  }

  lemma WholeTaken(t: Bytes)
    requires IntegerEnd(t) > 0
    ensures var n := IntegerEnd(t); WholeNumber(t[..n]) && (n < |t| ==> !Digit(t[n]))
  {
    hide Digits;
    var n := IntegerEnd(t);
    var s := if t[0] == '-' as int then 1 else 0;
    DigitsStop(t[s..]);
    var d := t[..n][s..];
    assert forall k :: 0 <= k < |d| ==> d[k] == t[s + k];
    if n < |t| { assert t[n] == t[s..][n - s]; }
    if t[0] != '-' as int { assert d == t[..n]; }
  }

  lemma WholeValueIs(t: Bytes)
    requires WholeNumber(t)
    ensures t != [] && forall k :: 0 <= k < |t| ==> IsDigit(t[k]) || (k == 0 && t[0] == '-' as int)
    ensures IntegerValue(t) == if MIN_INT <= WholeValue(t) <= MAX_INT then Some(WholeValue(t)) else None
  {
    if t[0] == 0x2D {
      assert forall k :: 1 <= k < |t| ==> t[k] == t[1..][k - 1];
      DecimalIs(t[1..]);
    } else {
      DecimalIs(t);
    }
  }

  lemma FractionInFront(t: Bytes, rest: Bytes)
    requires Fraction(t) && (rest == [] || !Digit(rest[0])) && (t == [] ==> rest == [] || rest[0] != 0x2E)
    ensures FractionEnd(t + rest) == Some(|t|)
  {
    hide Digits;
    if t == [] {
      assert t + rest == rest;
    } else {
      DigitsInFront(t[1..], rest);
      assert (t + rest)[1..] == t[1..] + rest;
    }
  }

  lemma FractionTaken(t: Bytes)
    requires FractionEnd(t).Some?
    ensures var n := FractionEnd(t).value;
            Fraction(t[..n]) && (n == 0 ==> t == [] || t[0] != 0x2E) && (0 < n < |t| ==> !Digit(t[n]))
  {
    hide Digits;
    var n := FractionEnd(t).value;
    if n > 0 {
      DigitsStop(t[1..]);
      assert t[..n][1..] == t[1..][..n - 1];
      assert forall k :: 0 <= k < n - 1 ==> t[1..][..n - 1][k] == t[1..][k];
      if n < |t| { assert t[n] == t[1..][n - 1]; }
    }
  }

  lemma ExponentInFront(t: Bytes, rest: Bytes)
    requires Exponent(t) && (rest == [] || !Digit(rest[0])) && (t == [] ==> rest == [] || !IsExponent(rest[0]))
    ensures ExponentEnd(t + rest) == Some(|t|)
  {
    hide Digits;
    if t == [] {
      assert t + rest == rest;
    } else if DigitsOnly(t[1..]) {
      DigitsInFront(t[1..], rest);
      assert (t + rest)[1..] == t[1..] + rest && (t + rest)[1] == t[1..][0];
    } else {
      DigitsInFront(t[2..], rest);
      assert (t + rest)[2..] == t[2..] + rest && (t + rest)[1] == t[1];
    }
  }

  lemma ExponentTaken(t: Bytes)
    requires ExponentEnd(t).Some?
    ensures var n := ExponentEnd(t).value;
            Exponent(t[..n]) && (n == 0 ==> t == [] || !IsExponent(t[0])) && (0 < n < |t| ==> !Digit(t[n]))
  {
    hide Digits;
    var n := ExponentEnd(t).value;
    if n > 0 {
      var s := if |t| > 1 && (t[1] == '+' as int || t[1] == '-' as int) then 2 else 1;
      DigitsStop(t[s..]);
      assert t[..n][s..] == t[s..][..n - s];
      assert forall k :: 0 <= k < n - s ==> t[s..][..n - s][k] == t[s..][k];
      if n < |t| { assert t[n] == t[s..][n - s]; }
    }
  }

  lemma WholeHasNone(t: Bytes)
    requires WholeNumber(t)
    ensures !HasByte(t, 0x2E) && !HasByte(t, 0x45) && !HasByte(t, 0x65)
    ensures !Letter(t[0]) && (Digit(t[0]) || t[0] == 0x2D)
  {
    if t[0] == 0x2D { assert forall k :: 1 <= k < |t| ==> t[k] == t[1..][k - 1]; }
  }

  lemma IntegerToken(t: Bytes, rest: Bytes)
    requires WholeNumber(t) && Ended(t, rest)
    ensures ScanNumber(t + rest) == match IntegerValue(t) case None => (Invalid, 0) case Some(v) => (Integer(v), |t|)
  {
    hide IntegerEnd, IntegerValue, FractionEnd, ExponentEnd, Digit, Letter, HasByte;
    WholeHasNone(t);
    WholeInFront(t, rest);
    WholeValueIs(t);
    assert (t + rest)[..|t|] == t;
    if rest != [] {
      ClassesAgree(rest[0]);
      assert (t + rest)[|t|] == rest[0];
    }
  }

  /** Of its parts a number with a fraction or an exponent has the byte that marks them. */
  lemma RealHas(t: Bytes, i: int, j: int)
    requires RealParts(t, i, j)
    ensures HasByte(t, 0x2E) <==> i < j
    ensures HasByte(t, 0x45) || HasByte(t, 0x65) <==> j < |t|
    ensures !Letter(t[0]) && (Digit(t[0]) || t[0] == 0x2D) && !Digit(t[i])
    ensures i == j ==> IsExponent(t[i])
    ensures i < j ==> t[i] == 0x2E
  {
    WholeHasNone(t[..i]);
    assert t[..i][0] == t[0];
    assert forall k :: 0 <= k < i ==> t[..i][k] == t[k];
    assert forall k :: i + 1 <= k < j ==> t[k] == t[i..j][1..][k - i - 1];
    assert forall k :: j <= k < |t| ==> t[k] == t[j..][k - j];
    if j < |t| {
      assert t[j] == t[j..][0];
      var s := if DigitsOnly(t[j..][1..]) then 1 else 2;
      assert forall k :: j + s <= k < |t| ==> t[k] == t[j..][s..][k - j - s];
      if s == 2 { assert t[j + 1] == t[j..][1]; }
    }
    if i < j { assert t[i] == t[i..j][0]; }
  }

  lemma RealScanned(u: Bytes, i: nat, f: nat, e: nat)
    requires IntegerEnd(u) == i && 0 < i < |u| && (u[i] == '.' as int || IsExponent(u[i]))
    requires FractionEnd(u[i..]) == Some(f) && i + f <= |u| && ExponentEnd(u[i + f..]) == Some(e)
    ensures i + f + e <= |u| && ScanNumber(u) == (Real(u[..i + f + e]), i + f + e)
  {
    hide IntegerEnd, FractionEnd, ExponentEnd;
  }

  lemma RealToken(t: Bytes, i: int, j: int, rest: Bytes)
    requires RealParts(t, i, j) && Ended(t, rest)
    ensures ScanNumber(t + rest) == (Real(t), |t|)
  {
    hide IntegerEnd, FractionEnd, ExponentEnd, Digit, Letter, HasByte, WholeNumber, Fraction, Exponent, ScanNumber;
    RealHas(t, i, j);
    var a, b, c := t[..i], t[i..j], t[j..];
    var u := t + rest;
    ClassesAgree(t[i]);
    if rest != [] { ClassesAgree(rest[0]); }
    if j < |t| { ExponentStarts(c); ClassesAgree(c[0]); }
    ThreeParts(t, i, j, rest);
    WholeInFront(a, b + (c + rest));
    FractionInFront(b, c + rest);
    ExponentInFront(c, rest);
    RealScanned(u, i, j - i, |t| - j);
  }

  lemma ThreeParts(t: Bytes, i: int, j: int, rest: Bytes)
    requires 0 <= i <= j <= |t|
    ensures var u := t + rest;
            && u == t[..i] + (t[i..j] + (t[j..] + rest)) && u[i..] == t[i..j] + (t[j..] + rest) && u[j..] == t[j..] + rest
            && u[..|t|] == t && (i < |t| ==> u[i] == t[i])
  {
  }

  lemma ExponentStarts(c: Bytes)
    requires Exponent(c) && c != []
    ensures (c[0] == 0x45 || c[0] == 0x65) && !Digit(c[0])
  {
  }

  /** What the lexer takes as a number is one, and ends where it should. */
  lemma NumberTaken(t: Bytes)
    requires ScanNumber(t).0 != Invalid
    ensures var (k, n) := ScanNumber(t);
            && 0 < n <= |t| && Ended(t[..n], t[n..])
            && (k.Integer? || k.Real?)
            && (k.Integer? ==> WholeNumber(t[..n]) && WholeValue(t[..n]) == k.i && MIN_INT <= k.i <= MAX_INT)
            && (k.Real? ==> k.digits == t[..n] && RealNumber(t[..n]))
  {
    hide IntegerEnd, IntegerValue, FractionEnd, ExponentEnd, Digit, Letter, HasByte, WholeNumber, Fraction, Exponent;
    var i := IntegerEnd(t);
    WholeTaken(t);
    if i < |t| { ClassesAgree(t[i]); }
    if ScanNumber(t).0.Integer? {
      WholeValueIs(t[..i]);
      WholeHasNone(t[..i]);
    } else {
      var f := FractionEnd(t[i..]).value;
      FractionTaken(t[i..]);
      var e := ExponentEnd(t[i + f..]).value;
      ExponentTaken(t[i + f..]);
      var n := i + f + e;
      var u := t[..n];
      assert u[..i] == t[..i] && u[i..i + f] == t[i..][..f] && u[i + f..] == t[i + f..][..e];
      PartsNotEmpty(t, i, f, e);
      assert RealParts(u, i, i + f);
      RealHas(u, i, i + f);
      if n < |t| {
        ClassesAgree(t[n]);
        if e > 0 { assert t[n] == t[i + f..][e]; } else { assert t[n] == t[i + f..][0] && t[n] == t[i..][f]; }
      }
    }
  }

  lemma PartsNotEmpty(t: Bytes, i: nat, f: nat, e: nat)
    requires 0 < i < |t| && (t[i] == '.' as int || IsExponent(t[i]))
    requires FractionEnd(t[i..]) == Some(f) && i + f <= |t| && ExponentEnd(t[i + f..]) == Some(e)
    ensures f + e > 0
  {
    hide Digits;
    assert t[i] == t[i..][0];
  }

  // Single tokens.

  predicate OneToken(v: Json) { !v.JArray? && !v.JObject? }

  /** The token of a value that is one token. */
  function TokenOf(v: Json): Token
    requires OneToken(v)
  {
    match v
    case JNull => Null
    case JTrue => True
    case JFalse => False
    case JInteger(i) => Integer(i)
    case JReal(d) => Real(d)
    case JString(s) => Str(s)
  }

  lemma WordsAre()
    ensures Ascii("null") == NULL && Ascii("true") == TRUE && Ascii("false") == FALSE
  {
  }

  lemma WordToken1(w: Bytes, rest: Bytes)
    requires IsWord(w) && (rest == [] || !IsAlpha(rest[0]))
    ensures Token1(w + rest) == (WordToken(w), |w|)
  {
    hide ScanNumber, ScanString, Letters, WordToken;
    LettersOfWord(w, rest);
    assert (w + rest)[0] == w[0] && (w + rest)[..|w|] == w;
    NoOtherStart(w[0]);
  }

  lemma NoOtherStart(b: Byte)
    requires IsAlpha(b)
    ensures !IsPunctuation(b) && b != QUOTE && !IsDigit(b) && b != '-' as int && !IsBlank(b)
  {
  }

  lemma StringToken1(body: Bytes, s: Bytes, rest: Bytes)
    requires Chars(body, s)
    ensures Token1([QUOTE] + body + [QUOTE] + rest) == (Str(s), |body| + 2)
  {
    hide Chars, Body, Unescape, StringEnd, ScanNumber;
    CharsRead(body, s);
    EndAfterBody(body, rest);
    var t := body + [QUOTE] + rest;
    var u := [QUOTE] + body + [QUOTE] + rest;
    assert u[1..] == t && t[..|body|] == body && u[0] == QUOTE;
  }

  /** A denoted token is scanned whole, whatever follows that does not go on with it. */
  lemma TokenRead(t: Bytes, v: Json, rest: Bytes, f: ParseFlags)
    requires OneToken(v) && Denotes(t, v, f) && Ended(t, rest)
    ensures t != [] && !IsBlank(t[0]) && Token1(t + rest) == (TokenOf(v), |t|)
  {
    hide ScanNumber, Chars, RealNumber, WholeNumber, WholeValue, IntegerValue;
    WordsAre();
    Literals();
    if rest != [] { ClassesAgree(rest[0]); }
    match v
    case JNull => WordToken1(NULL, rest);
    case JTrue => WordToken1(TRUE, rest);
    case JFalse => WordToken1(FALSE, rest);
    case JInteger(i) =>
      WholeHasNone(t);
      WholeValueIs(t);
      IntegerToken(t, rest);
      NumberToken1(t, rest);
    case JReal(d) => RealRead(t, rest);
    case JString(s) =>
      var body := Inner(t);
      assert t == [QUOTE] + body + [QUOTE];
      StringToken1(body, s, rest);
  }

  lemma RealRead(t: Bytes, rest: Bytes)
    requires RealNumber(t) && Ended(t, rest)
    ensures t != [] && !IsBlank(t[0]) && Token1(t + rest) == (Real(t), |t|)
  {
    hide ScanNumber, Token1, RealParts, HasByte;
    var i, j :| RealParts(t, i, j);
    assert t != [] by { PartsInside(t, i, j); }
    RealHas(t, i, j);
    RealToken(t, i, j, rest);
    NumberToken1(t, rest);
  }

  lemma PartsInside(t: Bytes, i: int, j: int)
    requires RealParts(t, i, j)
    ensures 0 < i <= j <= |t| && i < |t|
  {
  }

  lemma NumberToken1(t: Bytes, rest: Bytes)
    requires t != [] && (Digit(t[0]) || t[0] == 0x2D)
    ensures !IsBlank(t[0]) && Token1(t + rest) == ScanNumber(t + rest)
  {
    hide ScanNumber, ScanString;
    assert (t + rest)[0] == t[0];
  }

  /** A scanned token that is a value is denoted. */
  lemma TokenTaken(t: Bytes, v: Json, f: ParseFlags)
    requires t != [] && OneToken(v) && Token1(t).0 == TokenOf(v)
    ensures var n := Token1(t).1; 0 < n <= |t| && Denotes(t[..n], v, f) && Ended(t[..n], t[n..])
  {
    hide ScanNumber, StringEnd, Unescape, Chars, WordToken, Letters, RealNumber, WholeNumber, WholeValue, HasByte;
    WordsAre();
    var c, n := t[0], Token1(t).1;
    ClassesAgree(c);
    if c == QUOTE {
      var k := StringEnd(t[1..]).value;
      BodyUpToEnd(t[1..]);
      ReadChars(t[1..][..k]);
      var u := t[..n];
      assert n == k + 2 && u[|u| - 1] == t[1..][k];
      assert Inner(u) == t[1..][..k];
    } else if IsDigit(c) || c == '-' as int {
      NumberTaken(t);
    } else if IsAlpha(c) {
      LettersStop(t);
      if n < |t| { ClassesAgree(t[n]); }
      WordIs(t[..n]);
      assert t[..n][0] == t[0];
    }
  }

  lemma WordIs(w: Bytes)
    ensures WordToken(w) == True ==> w == TRUE
    ensures WordToken(w) == False ==> w == FALSE
    ensures WordToken(w) == Null ==> w == NULL
    ensures WordToken(w) in {True, False, Null, Invalid}
  {
  }

  // Repeated keys.

  /** What SetMember makes of the pairs of a text, one after the other. */
  function Merged(ps: seq<Member>): seq<Member> {
    if ps == [] then []
    else
      var n := |ps| - 1;
      SetMember(Merged(ps[..n]), ps[n].key, n, ps[n].value)
  }

  lemma OtherKeysKept(ps: seq<Member>, p: Member, m: Member)
    requires FromPairs(ps, m) && p.key != m.key
    ensures FromPairs(ps + [p], m)
  {
    var a: nat, b: nat :| FirstAndLast(ps, m.key, a, b) && m.serial == a && m.value == ps[b].value;
    assert FirstAndLast(ps + [p], m.key, a, b);
  }

  lemma SameKeyReplaced(ps: seq<Member>, p: Member, m: Member)
    requires FromPairs(ps, m) && p.key == m.key
    ensures FromPairs(ps + [p], m.(value := p.value))
  {
    var a: nat, b: nat :| FirstAndLast(ps, m.key, a, b) && m.serial == a && m.value == ps[b].value;
    assert FirstAndLast(ps + [p], m.key, a, |ps|);
  }

  lemma NewKeyAdded(ps: seq<Member>, p: Member)
    requires forall a :: 0 <= a < |ps| ==> ps[a].key != p.key
    ensures FromPairs(ps + [p], Member(p.key, |ps|, p.value))
  {
    assert FirstAndLast(ps + [p], p.key, |ps|, |ps|);
  }

  lemma SerialBelow(ps: seq<Member>, m: Member)
    requires FromPairs(ps, m)
    ensures m.serial < |ps| && exists a :: 0 <= a < |ps| && ps[a].key == m.key
  {
  }

  lemma {:induction false} MergedIsCollected(ps: seq<Member>)
    ensures Collected(ps, Merged(ps))
  {
    hide FromPairs, SetMember;
    if ps != [] {
      var n := |ps| - 1;
      MergedIsCollected(ps[..n]);
      assert ps == ps[..n] + [ps[n]];
      OnePairMore(ps[..n], Merged(ps[..n]), ps[n]);
    }
  }

  lemma OnePairMore(ps: seq<Member>, ms: seq<Member>, p: Member)
    requires Collected(ps, ms)
    ensures Collected(ps + [p], SetMember(ms, p.key, |ps|, p.value))
  {
    hide FromPairs;
    var r := SetMember(ms, p.key, |ps|, p.value);
    KeyAtFinds(ms, p.key);
    forall i | 0 <= i < |ms| ensures ms[i].serial < |ps| { SerialBelow(ps, ms[i]); }
    forall i | 0 <= i < |r| ensures FromPairs(ps + [p], r[i]) {
      if i < |ms| {
        if ms[i].key == p.key {
          KeysOnce(ps, ms, i, KeyAt(ms, p.key).value);
          SameKeyReplaced(ps, p, ms[i]);
        } else {
          OtherKeysKept(ps, p, ms[i]);
        }
      } else {
        NewKeyAdded(ps, p);
      }
    }
    forall a | 0 <= a < |ps + [p]| ensures HasKey(r, (ps + [p])[a].key) { StillListed(ps, ms, p, a); }
  }

  lemma StillListed(ps: seq<Member>, ms: seq<Member>, p: Member, a: nat)
    requires Collected(ps, ms) && a < |ps + [p]|
    ensures HasKey(SetMember(ms, p.key, |ps|, p.value), (ps + [p])[a].key)
  {
    hide FromPairs;
    var r := SetMember(ms, p.key, |ps|, p.value);
    KeyAtFinds(ms, p.key);
    if a < |ps| {
      var k :| 0 <= k < |ms| && ms[k].key == ps[a].key;
      assert r[k].key == ps[a].key;
    } else if KeyAt(ms, p.key).None? {
      assert r[|ms|].key == p.key;
    } else {
      assert r[KeyAt(ms, p.key).value].key == p.key;
    }
  }

  /** No key is listed twice: its serial is its first place. */
  lemma KeysOnce(ps: seq<Member>, ms: seq<Member>, i: nat, j: nat)
    requires Collected(ps, ms) && i < |ms| && j < |ms| && ms[i].key == ms[j].key
    ensures i == j
  {
    hide FirstAndLast;
    PairsAgree(ps, ms[i], ms[j]);
    assert ms[i].serial == ms[j].serial;
  }

  lemma PairsAgree(ps: seq<Member>, m: Member, n: Member)
    requires FromPairs(ps, m) && FromPairs(ps, n) && m.key == n.key
    ensures m == n
  {
    var a: nat, b: nat :| FirstAndLast(ps, m.key, a, b) && m.serial == a && m.value == ps[b].value;
    var c: nat, d: nat :| FirstAndLast(ps, n.key, c, d) && n.serial == c && n.value == ps[d].value;
    assert a == c && b == d;
  }

  lemma Included(ps: seq<Member>, ms: seq<Member>, ns: seq<Member>, m: Member)
    requires Collected(ps, ms) && Collected(ps, ns) && m in ms
    ensures m in ns
  {
    hide FromPairs;
    var i :| 0 <= i < |ms| && ms[i] == m;
    SerialBelow(ps, m);
    var a :| 0 <= a < |ps| && ps[a].key == m.key;
    var k :| 0 <= k < |ns| && ns[k].key == m.key;
    PairsAgree(ps, m, ns[k]);
  }

  lemma {:induction false} RisingUnique(ms: seq<Member>, ns: seq<Member>)
    requires Rising(ms) && Rising(ns) && (forall m :: m in ms ==> m in ns) && (forall m :: m in ns ==> m in ms)
    ensures ms == ns
    decreases |ms|
  {
    if ms == [] {
      assert forall k :: 0 <= k < |ns| ==> ns[k] in ns;
    } else {
      SameLast(ms, ns);
      var a, b := |ms| - 1, |ns| - 1;
      FrontsToo(ms, ns, a, b);
      FrontsToo(ns, ms, b, a);
      RisingUnique(ms[..a], ns[..b]);
      assert ms == ms[..a] + [ms[a]] && ns == ns[..b] + [ns[b]];
    }
  }

  lemma SameLast(ms: seq<Member>, ns: seq<Member>)
    requires Rising(ms) && Rising(ns) && (forall m :: m in ms ==> m in ns) && (forall m :: m in ns ==> m in ms)
    requires ms != []
    ensures ns != [] && ms[|ms| - 1] == ns[|ns| - 1]
  {
    var a := |ms| - 1;
    assert ms[a] in ms && ms[a] in ns;
    var j :| 0 <= j < |ns| && ns[j] == ms[a];
    var b := |ns| - 1;
    assert ns[b] in ns && ns[b] in ms;
    var i :| 0 <= i < |ms| && ms[i] == ns[b];
  }

  lemma FrontsToo(ms: seq<Member>, ns: seq<Member>, a: nat, b: nat)
    requires Rising(ms) && Rising(ns) && |ms| == a + 1 && |ns| == b + 1 && ms[a] == ns[b]
    requires forall m :: m in ms ==> m in ns
    ensures Rising(ms[..a]) && forall m :: m in ms[..a] ==> m in ns[..b]
  {
    forall m | m in ms[..a] ensures m in ns[..b] { FrontToo(ms, ns, a, b, m); }
  }

  lemma FrontToo(ms: seq<Member>, ns: seq<Member>, a: nat, b: nat, m: Member)
    requires Rising(ms) && Rising(ns) && |ms| == a + 1 && |ns| == b + 1 && ms[a] == ns[b]
    requires (forall m :: m in ms ==> m in ns) && m in ms[..a]
    ensures m in ns[..b]
  {
    var i :| 0 <= i < a && ms[..a][i] == m;
    assert ms[i] == m && m in ns;
    var j :| 0 <= j < |ns| && ns[j] == m;
    assert j != b;
    assert ns[..b][j] == m;
  }

  /** The object of a list of pairs is the only one that collects them. */
  lemma CollectedIsMerged(ps: seq<Member>, ms: seq<Member>)
    requires Collected(ps, ms)
    ensures ms == Merged(ps)
  {
    hide FromPairs, Merged;
    MergedIsCollected(ps);
    forall m | m in ms ensures m in Merged(ps) { Included(ps, ms, Merged(ps), m); }
    forall m | m in Merged(ps) ensures m in ms { Included(ps, Merged(ps), ms, m); }
    RisingUnique(ms, Merged(ps));
  }

  lemma KeyKnown(ps: seq<Member>, key: Bytes)
    ensures KeyAt(Merged(ps), key).Some? <==> exists a :: 0 <= a < |ps| && ps[a].key == key
  {
    hide FromPairs, Merged;
    MergedIsCollected(ps);
    KeyAtFinds(Merged(ps), key);
    if KeyAt(Merged(ps), key).Some? { SerialBelow(ps, Merged(ps)[KeyAt(Merged(ps), key).value]); }
    if a :| 0 <= a < |ps| && ps[a].key == key { assert HasKey(Merged(ps), key); }
  }

  // Denoted texts are parsed.

  lemma BlankIs(t: Bytes)
    ensures Blank(t) == AllBlank(t)
  {
    forall k | 0 <= k < |t| ensures IsBlank(t[k]) == (t[k] == 0x20 || t[k] == 0x09 || t[k] == 0x0A || t[k] == 0x0D) { ClassesAgree(t[k]); }
  }

  /** The end of the text, or a byte that closes or separates. */
  predicate Stop(rest: Bytes) { rest == [] || rest[0] == 0x2C || rest[0] == 0x3A || rest[0] == 0x5D || rest[0] == 0x7D }

  lemma StopsEnd(t: Bytes, w: Bytes, rest: Bytes)
    requires Blank(w) && Stop(rest)
    ensures Ended(t, w + rest)
  {
  }

  /** t and then rest are read as the value and whatever rest starts with. */
  ghost predicate ReadsAs(t: Bytes, v: Json, rest: Bytes, bad: bool, f: ParseFlags) {
    var (u, j) := Scan(In(t + rest, bad));
    && StartsValue(u)
    && match ParseValue(u, j, f)
       case None => false
       case Some((w, k)) => w == v && Scan(k) == Scan(In(rest, bad))
  }

  lemma {:induction false} AroundRead(t: Bytes, v: Json, rest: Bytes, bad: bool, f: ParseFlags)
    requires Around(t, v, f) && Stop(rest)
    ensures ReadsAs(t, v, rest, bad, f)
    decreases |t|, 3
  {
    hide Scan, ParseValue, Denotes, Ended, Blank;
    var i, j :| AroundAt(t, i, j, v, f);
    var a, x, b := t[..i], t[i..j], t[j..];
    BlankIs(a);
    BlankIs(b);
    StopsEnd(x, b, rest);
    DenotedRead(x, v, b + rest, bad, f);
    ScanAfterBlanks(a, x + (b + rest), bad);
    ScanAfterBlanks(b, rest, bad);
    assert t + rest == a + (x + (b + rest));
  }

  lemma {:induction false} DenotedRead(t: Bytes, v: Json, rest: Bytes, bad: bool, f: ParseFlags)
    requires Denotes(t, v, f) && Ended(t, rest)
    ensures Parses(t, rest, bad, v, f)
    decreases |t|, 1
  {
    hide Denotes, Parses, Ended, Scan, Token1, ParseValue;
    if v.JArray? {
      ArrayRead(t, v.elems, rest, bad, f);
    } else if v.JObject? {
      ObjectRead(t, v.members, rest, bad, f);
    } else {
      TokenRead(t, v, rest, f);
      assert (t + rest)[0] == t[0] && (t + rest)[|t|..] == rest;
      NoBlanks(t + rest, bad);
      OneTokenValue(v, In(rest, bad), f);
      ParsesByToken(t, rest, bad, v, f);
    }
  }

  lemma ParsesByToken(t: Bytes, rest: Bytes, bad: bool, v: Json, f: ParseFlags)
    requires OneToken(v) && Scan(In(t + rest, bad)) == (TokenOf(v), In(rest, bad))
    ensures Parses(t, rest, bad, v, f)
  {
    hide Scan, ParseValue;
    OneTokenValue(v, In(rest, bad), f);
  }

  lemma EnclosedText(t: Bytes, open: Byte, close: Byte, rest: Bytes)
    requires Enclosed(t, open, close)
    ensures t + rest == [open] + (Inner(t) + ([close] + rest))
  {
    assert t == [open] + Inner(t) + [close];
  }

  lemma {:induction false} ArrayRead(t: Bytes, elems: seq<Json>, rest: Bytes, bad: bool, f: ParseFlags)
    requires Denotes(t, JArray(elems), f)
    ensures Parses(t, rest, bad, JArray(elems), f)
    decreases |t|, 0
  {
    hide Scan, ParseValue, ParseElements, Blank, ParsesElements, Elements;
    var inner := Inner(t);
    var behind := inner + (BRACKET + rest);
    EnclosedText(t, 0x5B, 0x5D, rest);
    ScanPunctuation('[' as int, behind, bad);
    ListOpens(In(behind, bad), f);
    if elems == [] {
      BlankIs(inner);
      ScanAfterBlanks(inner, BRACKET + rest, bad);
      ScanPunctuation(']' as int, rest, bad);
    } else {
      ElementsRead(inner, elems, [], rest, bad, f);
      ElementsOpen(inner, elems, rest, bad, f);
    }
  }

  lemma {:induction false} ObjectRead(t: Bytes, ms: seq<Member>, rest: Bytes, bad: bool, f: ParseFlags)
    requires Denotes(t, JObject(ms), f)
    ensures Parses(t, rest, bad, JObject(ms), f)
    decreases |t|, 0
  {
    hide Scan, ParseValue, ParseMembers, Blank, ReadsPairs, Pairs, Collected, Distinct, Merged;
    var inner := Inner(t);
    var ps: seq<Member> :| ObjectText(t, ps, ms, f);
    CollectedIsMerged(ps, ms);
    var behind := inner + (BRACE + rest);
    EnclosedText(t, 0x7B, 0x7D, rest);
    ScanPunctuation('{' as int, behind, bad);
    ListOpens(In(behind, bad), f);
    if ps == [] {
      NothingMerged();
      BlankIs(inner);
      ScanAfterBlanks(inner, BRACE + rest, bad);
      ScanPunctuation('}' as int, rest, bad);
    } else {
      assert [] + ps == ps;
      PairsRead(inner, ps, [], rest, bad, f);
      PairsOpen(inner, ms, rest, bad, f);
    }
  }

  lemma NothingMerged()
    ensures Merged([]) == []
  {
  }

  lemma OneTokenValue(v: Json, i: In, f: ParseFlags)
    requires OneToken(v)
    ensures StartsValue(TokenOf(v)) && ParseValue(TokenOf(v), i, f) == Some((v, i))
  {
    hide ParseArray, ParseObject;
  }

  lemma ElementsOpen(inner: Bytes, elems: seq<Json>, rest: Bytes, bad: bool, f: ParseFlags)
    requires ParsesElements(inner, rest, bad, [], JArray([] + elems), f)
    ensures var (u, j) := Scan(In(inner + (BRACKET + rest), bad));
            StartsValue(u) && ParseElements(u, j, [], f) == Some((JArray(elems), In(rest, bad)))
  {
    hide Scan, ParseElements;
    assert [] + elems == elems;
  }

  lemma PairsOpen(inner: Bytes, ms: seq<Member>, rest: Bytes, bad: bool, f: ParseFlags)
    requires ReadsPairs(inner, rest, bad, [], ms, f)
    ensures var (u, j) := Scan(In(inner + (BRACE + rest), bad));
            StartsValue(u) && ParseMembers(u, j, [], 0, f) == Some((JObject(ms), In(rest, bad)))
  {
    hide Scan, ParseMembers;
    assert Merged([]) == [];
  }

  lemma {:induction false} ElementsRead(t: Bytes, elems: seq<Json>, done: seq<Json>, rest: Bytes, bad: bool, f: ParseFlags)
    requires elems != [] && Elements(t, elems, f)
    ensures ParsesElements(t, rest, bad, done, JArray(done + elems), f)
    decreases |t|, 5
  {
    hide Scan, ParseValue, ParseElements, Around, Elements;
    var k := ElementsStart(t, elems, f);
    var close := BRACKET + rest;
    if |elems| == 1 {
      AroundRead(t[..k], elems[0], close, bad, f);
      ScanPunctuation(']' as int, rest, bad);
      var (u, j) := Scan(In(t[..k] + close, bad));
      ElementsStep(u, j, done, f);
      assert t[..k] == t && elems == [elems[0]];
    } else {
      var others := t[k + 1..];
      var behind := [',' as int] + (others + close);
      AroundRead(t[..k], elems[0], behind, bad, f);
      ScanPunctuation(',' as int, others + close, bad);
      var (u, j) := Scan(In(t[..k] + behind, bad));
      ElementsStep(u, j, done, f);
      ElementsRead(others, elems[1..], done + [elems[0]], rest, bad, f);
      assert t + close == t[..k] + behind;
      assert done + [elems[0]] + elems[1..] == done + elems;
    }
  }

  lemma ElementsStart(t: Bytes, elems: seq<Json>, f: ParseFlags) returns (k: int)
    requires elems != [] && Elements(t, elems, f)
    ensures 0 <= k <= |t| && Around(t[..k], elems[0], f)
    ensures if |elems| == 1 then k == |t| else k < |t| && t[k] == 0x2C && Elements(t[k + 1..], elems[1..], f)
  {
    hide Around;
    k :| ElementFirst(t, k, elems, f);
  }

  /** After the pairs qs, the text and a closing brace are parsed as the object ms. */
  ghost predicate ReadsPairs(t: Bytes, rest: Bytes, bad: bool, qs: seq<Member>, ms: seq<Member>, f: ParseFlags) {
    var (u, j) := Scan(In(t + (BRACE + rest), bad));
    StartsValue(u) && ParseMembers(u, j, Merged(qs), |qs|, f) == Some((JObject(ms), In(rest, bad)))
  }

  /** The text starts with a pair that makes more of ms, and behind is what comes then. */
  ghost predicate GoesOn(text: Bytes, behind: Bytes, bad: bool, ms: seq<Member>, serial: nat, more: seq<Member>, f: ParseFlags) {
    var (u, j) := Scan(In(text, bad));
    var (w, l) := Scan(In(behind, bad));
    && StartsValue(u)
    && ParseMembers(u, j, ms, serial, f) ==
       if w == COMMA then ParseMembers(Scan(l).0, Scan(l).1, more, serial + 1, f)
       else if w == CLOSE_BRACE then Some((JObject(more), l))
       else None
  }

  lemma PairRead(key: Bytes, k: Bytes, value: Bytes, v: Json, behind: Bytes, bad: bool, ms: seq<Member>, serial: nat, f: ParseFlags)
    requires ReadsAs(value, v, behind, bad, f) && ReadsAs(key, JString(k), [':' as int] + (value + behind), bad, f)
    requires f.rejectDuplicates ==> KeyAt(ms, k).None?
    ensures GoesOn(key + ([':' as int] + (value + behind)), behind, bad, ms, serial, SetMember(ms, k, serial, v), f)
  {
    hide Scan, ParseValue, ParseMembers, SetMember;
    ScanPunctuation(':' as int, value + behind, bad);
    KeyRead(key, k, [':' as int] + (value + behind), bad, f);
    var (u, j) := Scan(In(key + ([':' as int] + (value + behind)), bad));
    MembersStep(u, j, ms, serial, f);
  }

  lemma LastPair(t: Bytes, rest: Bytes, bad: bool, qs: seq<Member>, p: Member, f: ParseFlags)
    requires GoesOn(t + (BRACE + rest), BRACE + rest, bad, Merged(qs), |qs|, Merged(qs + [p]), f)
    ensures ReadsPairs(t, rest, bad, qs, Merged(qs + [p]), f)
  {
    hide Scan, ParseMembers, Merged;
    ScanPunctuation('}' as int, rest, bad);
  }

  lemma MorePairs(t: Bytes, others: Bytes, rest: Bytes, bad: bool, qs: seq<Member>, p: Member, ms: seq<Member>, f: ParseFlags)
    requires GoesOn(t + (BRACE + rest), [',' as int] + (others + (BRACE + rest)), bad, Merged(qs), |qs|, Merged(qs + [p]), f)
    requires ReadsPairs(others, rest, bad, qs + [p], ms, f)
    ensures ReadsPairs(t, rest, bad, qs, ms, f)
  {
    hide Scan, ParseMembers, Merged;
    ScanPunctuation(',' as int, others + (BRACE + rest), bad);
  }

  lemma {:induction false} PairsRead(t: Bytes, ps: seq<Member>, qs: seq<Member>, rest: Bytes, bad: bool, f: ParseFlags)
    requires ps != [] && Pairs(t, ps, f) && (f.rejectDuplicates ==> Distinct(qs + ps))
    ensures ReadsPairs(t, rest, bad, qs, Merged(qs + ps), f)
    decreases |t|, 5
  {
    hide Around, Pairs, Merged, Distinct, ReadsAs, KeyAt, GoesOn, ReadsPairs, SetMember;
    var k, c := PairsStart(t, ps, f);
    var p, close := ps[0], BRACE + rest;
    var key, value := t[..c], t[c + 1..k];
    var behind := if |ps| == 1 then close else [',' as int] + (t[k + 1..] + close);
    AroundRead(value, p.value, behind, bad, f);
    AroundRead(key, JString(p.key), [':' as int] + (value + behind), bad, f);
    if f.rejectDuplicates { NotYet(qs, ps); }
    PairRead(key, p.key, value, p.value, behind, bad, Merged(qs), |qs|, f);
    MergedNext(qs, p);
    PairsJoined(t, k, c, ps, close);
    PairsInOrder(qs, ps);
    if |ps| == 1 {
      LastPair(t, rest, bad, qs, p, f);
    } else {
      PairsRead(t[k + 1..], ps[1..], qs + [p], rest, bad, f);
      MorePairs(t, t[k + 1..], rest, bad, qs, p, Merged(qs + ps), f);
    }
  }

  lemma PairsInOrder(qs: seq<Member>, ps: seq<Member>)
    requires ps != []
    ensures qs + [ps[0]] + ps[1..] == qs + ps && (|ps| == 1 ==> qs + [ps[0]] == qs + ps)
  {
  }

  lemma PairsStart(t: Bytes, ps: seq<Member>, f: ParseFlags) returns (k: int, c: int)
    requires ps != [] && Pairs(t, ps, f)
    ensures 0 <= c < k <= |t| && Around(t[..c], JString(ps[0].key), f) && t[c] == 0x3A && Around(t[c + 1..k], ps[0].value, f)
    ensures if |ps| == 1 then k == |t| else k < |t| && t[k] == 0x2C && Pairs(t[k + 1..], ps[1..], f)
  {
    hide Around;
    k, c :| PairFirst(t, k, c, ps, f);
  }

  lemma PairsJoined(t: Bytes, k: int, c: int, ps: seq<Member>, close: Bytes)
    requires ps != [] && 0 <= c < k <= |t| && t[c] == 0x3A && (if |ps| == 1 then k == |t| else k < |t| && t[k] == 0x2C)
    ensures var behind := if |ps| == 1 then close else [',' as int] + (t[k + 1..] + close);
            t + close == t[..c] + ([':' as int] + (t[c + 1..k] + behind))
  {
    if |ps| == 1 {
      assert t == t[..c] + [t[c]] + t[c + 1..k];
    } else {
      assert t == t[..c] + [t[c]] + t[c + 1..k] + [t[k]] + t[k + 1..];
    }
  }

  /** A string that is read as a value is the token of a key. */
  lemma KeyRead(t: Bytes, key: Bytes, rest: Bytes, bad: bool, f: ParseFlags)
    requires ReadsAs(t, JString(key), rest, bad, f)
    ensures var (u, j) := Scan(In(t + rest, bad)); u == Str(key) && Scan(j) == Scan(In(rest, bad))
  {
    hide Scan;
    var (u, j) := Scan(In(t + rest, bad));
    StringsOnly(u, j, f);
  }

  lemma StringsOnly(u: Token, j: In, f: ParseFlags)
    ensures match ParseValue(u, j, f) case Some((JString(s), k)) => u == Str(s) && k == j case _ => true
  {
    hide Scan;
    ListsOnly(j, f);
  }

  lemma ListsOnly(j: In, f: ParseFlags)
    ensures ParseArray(j, f).Some? ==> ParseArray(j, f).value.0.JArray?
    ensures ParseObject(j, f).Some? ==> ParseObject(j, f).value.0.JObject?
  {
    hide Scan, ParseElements, ParseMembers;
    var (t, k) := Scan(j);
    ElementsAreArray(t, k, [], f);
    MembersAreObject(t, k, [], 0, f);
  }

  lemma {:induction false} ElementsAreArray(t: Token, i: In, elems: seq<Json>, f: ParseFlags)
    ensures ParseElements(t, i, elems, f).Some? ==> ParseElements(t, i, elems, f).value.0.JArray?
    decreases |i.text|
  {
    hide Scan, ParseElements, ParseValue;
    ElementsStep(t, i, elems, f);
    if ParseValue(t, i, f).Some? {
      var (e, k) := ParseValue(t, i, f).value;
      ScanShrinks(k);
      var (u, j) := Scan(k);
      ScanShrinks(j);
      if u == COMMA { ElementsAreArray(Scan(j).0, Scan(j).1, elems + [e], f); }
    }
  }

  lemma {:induction false} MembersAreObject(t: Token, i: In, ms: seq<Member>, serial: nat, f: ParseFlags)
    ensures ParseMembers(t, i, ms, serial, f).Some? ==> ParseMembers(t, i, ms, serial, f).value.0.JObject?
    decreases |i.text|
  {
    hide Scan, ParseMembers, ParseValue, SetMember;
    MembersStep(t, i, ms, serial, f);
    if t.Str? && ParseMembers(t, i, ms, serial, f).Some? {
      ScanShrinks(i);
      var j := Scan(i).1;
      ScanShrinks(j);
      var (v, k) := ParseValue(Scan(j).0, Scan(j).1, f).value;
      ScanShrinks(k);
      var (w, l) := Scan(k);
      ScanShrinks(l);
      if w == COMMA { MembersAreObject(Scan(l).0, Scan(l).1, SetMember(ms, t.s, serial, v), serial + 1, f); }
    }
  }

  lemma MergedNext(qs: seq<Member>, p: Member)
    ensures Merged(qs + [p]) == SetMember(Merged(qs), p.key, |qs|, p.value)
  {
    hide SetMember;
    assert (qs + [p])[..|qs|] == qs;
  }

  lemma NotYet(qs: seq<Member>, ps: seq<Member>)
    requires ps != [] && Distinct(qs + ps)
    ensures KeyAt(Merged(qs), ps[0].key).None?
  {
    hide Merged;
    KeyKnown(qs, ps[0].key);
    forall a | 0 <= a < |qs| ensures qs[a].key != ps[0].key { assert (qs + ps)[a].key != (qs + ps)[|qs|].key; }
  }

  // Parsed texts are denoted.

  /** Between i and k the text is blanks and then a text that denotes v and that what is left does not go on with. */
  ghost predicate Took(i: In, k: In, v: Json, f: ParseFlags) {
    && |k.text| <= |i.text| && k == In(i.text[|i.text| - |k.text|..], i.bad)
    && exists a :: TookAt(i, k, a, v, f)
  }

  ghost predicate TookAt(i: In, k: In, a: int, v: Json, f: ParseFlags) {
    var n := |i.text| - |k.text|;
    0 <= a <= n && Blank(i.text[..a]) && Denotes(i.text[a..n], v, f) && Ended(i.text[a..n], k.text)
  }

  lemma {:induction false} BlanksTaken(t: Bytes)
    ensures Blank(t[..Blanks(t)]) && (Blanks(t) < |t| ==> !IsBlank(t[Blanks(t)]))
  {
    if t != [] && IsBlank(t[0]) {
      BlanksTaken(t[1..]);
      ClassesAgree(t[0]);
      assert t[..Blanks(t)] == [t[0]] + t[1..][..Blanks(t) - 1];
    }
  }

  /** A scanned token and what is left behind it. */
  lemma TokenAt(i: In)
    requires Scan(i).0 != Invalid && Scan(i).0 != EndOfInput
    ensures var a := Blanks(i.text);
            && a < |i.text| && Blank(i.text[..a])
            && Scan(i) == (Token1(i.text[a..]).0, In(i.text[a..][Token1(i.text[a..]).1..], i.bad))
  {
    hide Token1;
    BlanksTaken(i.text);
  }

  /** A punctuation token takes its own byte. */
  lemma PunctuationTaken(i: In, c: Byte)
    requires IsPunctuation(c) && Scan(i).0 == Punctuation(c)
    ensures var j, n := Scan(i).1, |i.text| - |Scan(i).1.text|;
            && n > 0 && i.text[n - 1] == c && j == In(i.text[n..], i.bad) && Blank(i.text[..n - 1])
  {
    hide ScanNumber, ScanString, WordToken;
    TokenAt(i);
    var a := Blanks(i.text);
    var t := i.text[a..];
    PunctuationFirst(t, c);
    assert t[1..] == i.text[a + 1..];
  }

  lemma PunctuationFirst(t: Bytes, c: Byte)
    requires t != [] && Token1(t).0 == Punctuation(c)
    ensures t[0] == c && Token1(t).1 == 1
  {
    hide StringEnd, Unescape, IntegerEnd, FractionEnd, ExponentEnd, IntegerValue, Letters;
  }

  lemma OneTokenTook(i: In, v: Json, f: ParseFlags)
    requires OneToken(v) && Scan(i).0 == TokenOf(v)
    ensures Took(i, Scan(i).1, v, f)
  {
    hide Token1, Denotes, Ended, Blank;
    TokenAt(i);
    var a := Blanks(i.text);
    var t := i.text[a..];
    TokenTaken(t, v, f);
    var n := Token1(t).1;
    assert t[n..] == i.text[a + n..] && t[..n] == i.text[a..a + n];
    assert TookAt(i, Scan(i).1, a, v, f);
  }

  /** Which token a value starts with. */
  lemma FirstTokenOf(t: Token, i: In, f: ParseFlags)
    requires ParseValue(t, i, f).Some?
    ensures var (v, k) := ParseValue(t, i, f).value;
            && t != Invalid && t != EndOfInput
            && (t == OPEN_BRACKET ==> ParseArray(i, f) == Some((v, k)))
            && (t == OPEN_BRACE ==> ParseObject(i, f) == Some((v, k)))
            && (t != OPEN_BRACKET && t != OPEN_BRACE ==> OneToken(v) && t == TokenOf(v) && k == i)
  {
    hide ParseArray, ParseObject;
  }

  lemma {:induction false} ValueTook(i: In, f: ParseFlags)
    requires ParseValue(Scan(i).0, Scan(i).1, f).Some?
    ensures var (v, k) := ParseValue(Scan(i).0, Scan(i).1, f).value; Took(i, k, v, f)
    decreases |i.text|, 0
  {
    hide Scan, ParseValue, ParseArray, ParseObject, Took;
    var (t, j) := Scan(i);
    FirstTokenOf(t, j, f);
    var (v, k) := ParseValue(t, j, f).value;
    ScanShrinks(i);
    if t == OPEN_BRACKET {
      PunctuationTaken(i, 0x5B);
      ArrayTook(j, f);
      ListTook(i, j, k, v, 0x5B, 0x5D, f);
    } else if t == OPEN_BRACE {
      PunctuationTaken(i, 0x7B);
      ObjectTook(j, f);
      ListTook(i, j, k, v, 0x7B, 0x7D, f);
    } else {
      OneTokenTook(i, v, f);
    }
  }

  /** Behind the opening bracket or brace at j, the list goes on to its closing one, and k is left. */
  ghost predicate Closed(j: In, k: In, v: Json, open: Byte, close: Byte, f: ParseFlags) {
    var m := |j.text| - |k.text| - 1;
    && 0 <= m && j.text[m] == close && k == In(j.text[m + 1..], j.bad)
    && Denotes([open] + j.text[..m] + [close], v, f)
  }

  lemma ListTook(i: In, j: In, k: In, v: Json, open: Byte, close: Byte, f: ParseFlags)
    requires !Letter(open) && !Digit(open) && open != 0x2D
    requires var n := |i.text| - |j.text|; n > 0 && i.text[n - 1] == open && j == In(i.text[n..], i.bad) && Blank(i.text[..n - 1])
    requires Closed(j, k, v, open, close, f)
    ensures Took(i, k, v, f)
  {
    hide Denotes, Blank;
    var n, m := |i.text| - |j.text|, |j.text| - |k.text| - 1;
    assert i.text[n - 1..n + m + 1] == [open] + j.text[..m] + [close];
    assert i.text[n + m + 1..] == j.text[m + 1..];
    assert TookAt(i, k, n - 1, v, f);
  }

  lemma {:induction false} ArrayTook(j: In, f: ParseFlags)
    requires ParseArray(j, f).Some?
    ensures var (v, k) := ParseArray(j, f).value; Closed(j, k, v, 0x5B, 0x5D, f)
    decreases |j.text|, 3
  {
    hide Scan, ParseElements, Blank, Elements;
    var (t, l) := Scan(j);
    var (v, k) := ParseArray(j, f).value;
    if t == CLOSE_BRACKET {
      PunctuationTaken(j, 0x5D);
      ListText(j, k, 0x5B, 0x5D);
    } else {
      ElementsTook(j, [], f);
      ListText(j, k, 0x5B, 0x5D);
      assert v.elems[0..] == v.elems;
    }
  }

  lemma ListText(j: In, k: In, open: Byte, close: Byte)
    requires |k.text| < |j.text|
    ensures var m := |j.text| - |k.text| - 1; var t := [open] + j.text[..m] + [close];
            Enclosed(t, open, close) && Inner(t) == j.text[..m]
  {
  }

  /** A value and the blanks before the byte that ends or separates. */
  lemma TookAround(i: In, k: In, v: Json, n: int, f: ParseFlags)
    requires Took(i, k, v, f) && |i.text| - |k.text| <= n <= |i.text| && Blank(i.text[|i.text| - |k.text|..n])
    ensures Around(i.text[..n], v, f)
  {
    hide Denotes, Blank, Ended;
    var a :| TookAt(i, k, a, v, f);
    var m, t := |i.text| - |k.text|, i.text[..n];
    assert t[..a] == i.text[..a] && t[a..m] == i.text[a..m] && t[m..] == i.text[m..n];
    assert AroundAt(t, a, m, v, f);
  }

  lemma Tails(t: Bytes, m: nat, p: nat)
    requires m + p <= |t| && p > 0
    ensures var u := t[m..]; u[..p - 1] == t[m..m + p - 1] && u[p..] == t[m + p..] && u[p - 1] == t[m + p - 1]
  {
  }

  /** From i on there is a value, blanks and the byte c, and then j. */
  lemma ValueAndByte(i: In, k: In, v: Json, c: Byte, j: In, f: ParseFlags)
    requires Took(i, k, v, f) && IsPunctuation(c) && Scan(k) == (Punctuation(c), j)
    ensures var n := |i.text| - |j.text| - 1;
            0 <= n < |i.text| && i.text[n] == c && j == In(i.text[n + 1..], i.bad) && Around(i.text[..n], v, f)
  {
    hide Scan, Denotes, Blank, Around;
    PunctuationTaken(k, c);
    var m, p := |i.text| - |k.text|, |k.text| - |j.text|;
    assert k.text == i.text[m..];
    Tails(i.text, m, p);
    TookAround(i, k, v, m + p - 1, f);
  }

  lemma {:induction false} ElementsTook(i: In, elems: seq<Json>, f: ParseFlags)
    requires ParseElements(Scan(i).0, Scan(i).1, elems, f).Some?
    ensures var (v, k) := ParseElements(Scan(i).0, Scan(i).1, elems, f).value;
            var m := |i.text| - |k.text| - 1;
            && v.JArray? && |elems| < |v.elems| && v.elems[..|elems|] == elems
            && 0 <= m && i.text[m] == 0x5D && k == In(i.text[m + 1..], i.bad)
            && Elements(i.text[..m], v.elems[|elems|..], f)
    decreases |i.text|, 1
  {
    hide Scan, ParseValue, ParseElements, Around, Elements, Took;
    var (t, j) := Scan(i);
    ElementsStep(t, j, elems, f);
    var (e, l) := ParseValue(t, j, f).value;
    ValueTook(i, f);
    var (u, next) := Scan(l);
    var (v, k) := ParseElements(t, j, elems, f).value;
    if u == COMMA {
      ValueAndByte(i, l, e, 0x2C, next, f);
      ElementsTook(next, elems + [e], f);
      OneMore(i, next, k, elems, e, v, f);
    } else {
      ValueAndByte(i, l, e, 0x5D, next, f);
      LastOne(i, k, elems, e, f);
    }
  }

  lemma LastOne(i: In, k: In, elems: seq<Json>, e: Json, f: ParseFlags)
    requires var n := |i.text| - |k.text| - 1; 0 <= n < |i.text| && Around(i.text[..n], e, f)
    ensures var all, t := elems + [e], i.text[..|i.text| - |k.text| - 1];
            all[..|elems|] == elems && all[|elems|..] == [e] && Elements(t, all[|elems|..], f)
  {
    hide Around;
    var t := i.text[..|i.text| - |k.text| - 1];
    assert (elems + [e])[|elems|..] == [e];
    assert t[..|t|] == t;
    assert ElementFirst(t, |t|, [e], f);
  }

  lemma OneMore(i: In, j: In, k: In, elems: seq<Json>, e: Json, v: Json, f: ParseFlags)
    requires var n := |i.text| - |j.text| - 1;
             0 <= n < |i.text| && i.text[n] == 0x2C && j == In(i.text[n + 1..], i.bad) && Around(i.text[..n], e, f)
    requires v.JArray? && |elems| + 1 < |v.elems| && v.elems[..|elems| + 1] == elems + [e]
    requires var m := |j.text| - |k.text| - 1;
             0 <= m && j.text[m] == 0x5D && k == In(j.text[m + 1..], j.bad) && Elements(j.text[..m], v.elems[|elems| + 1..], f)
    ensures var m := |i.text| - |k.text| - 1;
            && v.elems[..|elems|] == elems && 0 <= m && i.text[m] == 0x5D && k == In(i.text[m + 1..], i.bad)
            && Elements(i.text[..m], v.elems[|elems|..], f)
  {
    hide Around, Elements;
    var n, m := |i.text| - |j.text| - 1, |i.text| - |k.text| - 1;
    var t, es := i.text[..m], v.elems[|elems|..];
    assert v.elems[..|elems|] == v.elems[..|elems| + 1][..|elems|] == elems;
    assert v.elems[..|elems| + 1][|elems|] == e;
    assert es[0] == e && es[1..] == v.elems[|elems| + 1..];
    assert t[..n] == i.text[..n] && t[n] == 0x2C && t[n + 1..] == j.text[..m - n - 1];
    assert i.text[m + 1..] == j.text[m - n..] && i.text[m] == j.text[m - n - 1];
    ElementsFrom(t, n, es, f);
  }

  lemma ElementsFrom(t: Bytes, k: int, elems: seq<Json>, f: ParseFlags)
    requires |elems| > 1 && 0 <= k < |t| && t[k] == 0x2C && Around(t[..k], elems[0], f) && Elements(t[k + 1..], elems[1..], f)
    ensures Elements(t, elems, f)
  {
    hide Around;
    assert ElementFirst(t, k, elems, f);
  }

  lemma {:induction false} ObjectTook(j: In, f: ParseFlags)
    requires ParseObject(j, f).Some?
    ensures var (v, k) := ParseObject(j, f).value; Closed(j, k, v, 0x7B, 0x7D, f)
    decreases |j.text|, 3
  {
    hide Scan, ParseMembers, Blank, Pairs, Collected, Merged;
    var (t, l) := Scan(j);
    var (v, k) := ParseObject(j, f).value;
    NothingMerged();
    MergedIsCollected([]);
    if t == CLOSE_BRACE {
      PunctuationTaken(j, 0x7D);
      ListText(j, k, 0x7B, 0x7D);
      var text := [0x7B] + j.text[..|j.text| - |k.text| - 1] + [0x7D];
      assert ObjectText(text, [], [], f);
    } else {
      var ps := MembersTook(j, [], f);
      assert [] + ps == ps;
      ListText(j, k, 0x7B, 0x7D);
      MergedIsCollected(ps);
      var text := [0x7B] + j.text[..|j.text| - |k.text| - 1] + [0x7D];
      assert ObjectText(text, ps, v.members, f);
    }
  }

  lemma {:induction false} MembersTook(i: In, qs: seq<Member>, f: ParseFlags) returns (ps: seq<Member>)
    requires ParseMembers(Scan(i).0, Scan(i).1, Merged(qs), |qs|, f).Some? && (f.rejectDuplicates ==> Distinct(qs))
    ensures ps != [] && (f.rejectDuplicates ==> Distinct(qs + ps))
    ensures var (v, k) := ParseMembers(Scan(i).0, Scan(i).1, Merged(qs), |qs|, f).value;
            var m := |i.text| - |k.text| - 1;
            && v == JObject(Merged(qs + ps))
            && 0 <= m && i.text[m] == 0x7D && k == In(i.text[m + 1..], i.bad) && Pairs(i.text[..m], ps, f)
    decreases |i.text|, 1
  {
    hide Scan, ParseValue, ParseMembers, SetMember, Around, Pairs, Took, Merged, KeyAt, Distinct;
    var (t, j) := Scan(i);
    MembersStep(t, j, Merged(qs), |qs|, f);
    var key := t.s;
    OneTokenTook(i, JString(key), f);
    var (u, next) := Scan(j);
    ValueAndByte(i, j, JString(key), 0x3A, next, f);
    ScanShrinks(i);
    ScanShrinks(j);
    var (v, l) := ParseValue(Scan(next).0, Scan(next).1, f).value;
    ValueTook(next, f);
    var p := Member(key, |qs|, v);
    MergedNext(qs, p);
    if f.rejectDuplicates { StillDistinct(qs, p); }
    var (w, after) := Scan(l);
    if w == COMMA {
      ValueAndByte(next, l, v, 0x2C, after, f);
      var more := MembersTook(after, qs + [p], f);
      ps := [p] + more;
      assert qs + [p] + more == qs + ps;
      var k := ParseMembers(t, j, Merged(qs), |qs|, f).value.1;
      MorePairsTook(i, next, after, k, p, more, f);
    } else {
      ValueAndByte(next, l, v, 0x7D, after, f);
      ps := [p];
      LastPairTook(i, next, after, p, f);
    }
  }

  lemma StillDistinct(qs: seq<Member>, p: Member)
    requires Distinct(qs) && KeyAt(Merged(qs), p.key).None?
    ensures Distinct(qs + [p])
  {
    hide Merged;
    KeyKnown(qs, p.key);
  }

  lemma LastPairTook(i: In, next: In, k: In, p: Member, f: ParseFlags)
    requires var c := |i.text| - |next.text| - 1;
             0 <= c < |i.text| && i.text[c] == 0x3A && next == In(i.text[c + 1..], i.bad) && Around(i.text[..c], JString(p.key), f)
    requires var n := |next.text| - |k.text| - 1;
             0 <= n < |next.text| && next.text[n] == 0x7D && k == In(next.text[n + 1..], next.bad) && Around(next.text[..n], p.value, f)
    ensures var m := |i.text| - |k.text| - 1;
            0 <= m && i.text[m] == 0x7D && k == In(i.text[m + 1..], i.bad) && Pairs(i.text[..m], [p], f)
  {
    hide Around;
    var c, m := |i.text| - |next.text| - 1, |i.text| - |k.text| - 1;
    var t := i.text[..m];
    assert t[..c] == i.text[..c] && t[c + 1..] == next.text[..m - c - 1] && i.text[m] == next.text[m - c - 1];
    assert i.text[m + 1..] == next.text[m - c..];
    assert t[c + 1..|t|] == t[c + 1..];
    assert PairFirst(t, |t|, c, [p], f);
  }

  lemma MorePairsTook(i: In, next: In, j: In, k: In, p: Member, more: seq<Member>, f: ParseFlags)
    requires var c := |i.text| - |next.text| - 1;
             0 <= c < |i.text| && i.text[c] == 0x3A && next == In(i.text[c + 1..], i.bad) && Around(i.text[..c], JString(p.key), f)
    requires var n := |next.text| - |j.text| - 1;
             0 <= n < |next.text| && next.text[n] == 0x2C && j == In(next.text[n + 1..], next.bad) && Around(next.text[..n], p.value, f)
    requires var m := |j.text| - |k.text| - 1;
             0 <= m && j.text[m] == 0x7D && k == In(j.text[m + 1..], j.bad) && more != [] && Pairs(j.text[..m], more, f)
    ensures var m := |i.text| - |k.text| - 1;
            0 <= m && i.text[m] == 0x7D && k == In(i.text[m + 1..], i.bad) && Pairs(i.text[..m], [p] + more, f)
  {
    hide Around, Pairs;
    var c, d, m := |i.text| - |next.text| - 1, |i.text| - |j.text| - 1, |i.text| - |k.text| - 1;
    var t, ps := i.text[..m], [p] + more;
    assert t[..c] == i.text[..c] && t[c + 1..d] == next.text[..d - c - 1] && i.text[d] == next.text[d - c - 1];
    assert j.text == i.text[d + 1..];
    assert t[d + 1..] == j.text[..m - d - 1] && i.text[m] == j.text[m - d - 1] && i.text[m + 1..] == j.text[m - d..];
    assert ps[0] == p && ps[1..] == more;
    PairsFrom(t, d, c, ps, f);
  }

  lemma PairsFrom(t: Bytes, k: int, c: int, ps: seq<Member>, f: ParseFlags)
    requires |ps| > 1 && 0 <= c < k < |t| && Around(t[..c], JString(ps[0].key), f) && t[c] == 0x3A
    requires Around(t[c + 1..k], ps[0].value, f) && t[k] == 0x2C && Pairs(t[k + 1..], ps[1..], f)
    ensures Pairs(t, ps, f)
  {
    hide Around;
    assert PairFirst(t, k, c, ps, f);
  }

  // Whole texts.

  lemma FrontIsPrefix(data: Bytes)
    ensures |Front(data).text| <= |data| && Front(data).text == data[..|Front(data).text|]
    ensures Front(data).bad == !Valid(data) && (Valid(data) ==> Front(data).text == data)
  {
    hide First;
    if data != [] && First(data).Char? {
      var n := First(data).size;
      FrontIsPrefix(data[n..]);
      var rest := Front(data[n..]).text;
      assert data[..n + |rest|] == data[..n] + data[n..][..|rest|];
      if Valid(data) { assert data[..n] + data[n..] == data; }
    }
  }

  lemma EndIsBlank(i: In)
    ensures Scan(i).0 == EndOfInput <==> !i.bad && Blank(i.text)
  {
    hide Token1, AllBlank;
    BlankIs(i.text);
    if Blanks(i.text) < |i.text| { NotTheEnd(i.text[Blanks(i.text)..]); }
    OnlyBlanks(i.text);
  }

  lemma OnlyBlanks(t: Bytes)
    ensures Blanks(t) == |t| <==> AllBlank(t)
  {
    hide IsBlank;
    BlanksTaken(t);
    BlankIs(t);
    assert t[..|t|] == t && t + [] == t;
    if AllBlank(t) { BlanksInFront(t, []); }
  }

  lemma NotTheEnd(t: Bytes)
    requires t != []
    ensures Token1(t).0 != EndOfInput
  {
    hide StringEnd, Unescape, IntegerEnd, FractionEnd, ExponentEnd, IntegerValue, Letters;
  }

  lemma ParseTop(i: In, f: ParseFlags)
    ensures var (t, j) := Scan(i);
            ParseJson(i, f) ==
            match ParseValue(t, j, f)
            case None => None
            case Some((v, k)) =>
              if (f.decodeAny || v.JArray? || v.JObject?) && (f.disableEofCheck || Scan(k).0 == EndOfInput) then Some(v) else None
  {
    hide Scan, ParseArray, ParseObject;
    var (t, j) := Scan(i);
    if ParseValue(t, j, f).Some? {
      FirstTokenOf(t, j, f);
      ListsOnly(j, f);
    }
  }

  /** A text is accepted, with its value, if and only if it denotes that value. */
  lemma ParsesExactly(data: Bytes, v: Json, f: ParseFlags)
    requires !f.disableEofCheck
    ensures ParseJson(Front(data), f) == Some(v) <==> TextDenotes(data, v, f)
  {
    hide Scan, ParseValue, ParseJson, Front, Around, Valid, Took;
    var i := Front(data);
    FrontIsPrefix(data);
    ParseTop(i, f);
    if ParseJson(i, f) == Some(v) {
      ValueTook(i, f);
      var k := ParseValue(Scan(i).0, Scan(i).1, f).value.1;
      EndIsBlank(k);
      TookAll(i, k, v, f);
    }
    if TextDenotes(data, v, f) {
      AroundRead(data, v, [], false, f);
      assert data + [] == data;
      ScanEnd();
    }
  }

  lemma TookAll(i: In, k: In, v: Json, f: ParseFlags)
    requires Took(i, k, v, f) && !k.bad && Blank(k.text)
    ensures !i.bad && Around(i.text, v, f)
  {
    hide Around, TookAt, Blank;
    var n := |i.text|;
    assert i.text[n - |k.text|..n] == k.text && i.text[..n] == i.text;
    TookAround(i, k, v, n, f);
  }

  /** Without the check for the end, the longest value at the front is accepted: blanks, then a text that denotes the value
      and that what follows does not go on with. */
  ghost predicate PrefixDenotes(data: Bytes, v: Json, f: ParseFlags) {
    && (f.decodeAny || v.JArray? || v.JObject?)
    && exists a, n :: PrefixAt(data, a, n, v, f)
  }

  /** Only characters in front of the first bytes that are not UTF-8 count. */
  ghost predicate PrefixAt(data: Bytes, a: int, n: int, v: Json, f: ParseFlags) {
    var t := data[..|data| - |Broken(data)|];
    0 <= a <= n <= |t| && Blank(t[..a]) && Denotes(t[a..n], v, f) && Ended(t[a..n], t[n..])
  }

  lemma {:induction false} FrontIsUnbroken(data: Bytes)
    ensures Front(data).text == data[..|data| - |Broken(data)|]
  {
    hide First;
    if data != [] && First(data).Char? {
      var n := First(data).size;
      FrontIsUnbroken(data[n..]);
      var m := |data| - |Broken(data)|;
      assert data[..m] == data[..n] + data[n..][..m - n];
    }
  }

  lemma ParsesPrefixExactly(data: Bytes, v: Json, f: ParseFlags)
    requires f.disableEofCheck
    ensures ParseJson(Front(data), f) == Some(v) <==> PrefixDenotes(data, v, f)
  {
    hide Scan, ParseValue, ParseJson, Front, Denotes, Ended, Blank, Parses;
    var i := Front(data);
    FrontIsUnbroken(data);
    ParseTop(i, f);
    if ParseJson(i, f) == Some(v) {
      ValueTook(i, f);
      var k := ParseValue(Scan(i).0, Scan(i).1, f).value.1;
      var a :| TookAt(i, k, a, v, f);
      assert PrefixAt(data, a, |i.text| - |k.text|, v, f);
    }
    if PrefixDenotes(data, v, f) {
      var a, n :| PrefixAt(data, a, n, v, f);
      PrefixRead(i, a, n, v, f);
    }
  }

  lemma PrefixRead(i: In, a: int, n: int, v: Json, f: ParseFlags)
    requires 0 <= a <= n <= |i.text| && Blank(i.text[..a]) && Denotes(i.text[a..n], v, f) && Ended(i.text[a..n], i.text[n..])
    ensures ParseValue(Scan(i).0, Scan(i).1, f) == Some((v, In(i.text[n..], i.bad)))
  {
    hide Scan, ParseValue, Denotes, Ended, Blank;
    var t, rest := i.text[a..n], i.text[n..];
    DenotedRead(t, v, rest, i.bad, f);
    BlankIs(i.text[..a]);
    ScanAfterBlanks(i.text[..a], t + rest, i.bad);
    assert i.text == i.text[..a] + (t + rest);
  }
}
