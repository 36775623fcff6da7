/** The lexer of load.c as it runs: one byte at a time from the stream, with the text of the token saved beside it. */
module JsonScanner {
  import opened MachineWords
  import opened Options
  import opened Utf8
  import opened HexText
  import opened JsonStrings
  import opened JsonLexer
  import opened JsonTokens

  // The character tests of the program, on signed characters and the stream's -1 and -2.

  predicate DigitChar(c: int) { '0' as int <= c <= '9' as int }
  predicate AlphaChar(c: int) { 'A' as int <= c <= 'Z' as int || 'a' as int <= c <= 'z' as int }
  predicate HexChar(c: int) {
    DigitChar(c) || 'A' as int <= c <= 'F' as int || 'a' as int <= c <= 'f' as int
  }

  lemma CharTests(b: Byte)
    ensures DigitChar(Signed(b)) == IsDigit(b) && AlphaChar(Signed(b)) == IsAlpha(b) && HexChar(Signed(b)) == IsHexByte(b)
  {
  }

  function Shift(n: nat, r: Option<nat>): Option<nat> {
    match r case None => None case Some(k) => Some(n + k)
  }

  /** The character at p as the program sees it: a byte, or what ends the text. */
  function CharAt(i: In, p: nat): int
    requires p <= |i.text|
  {
    if p < |i.text| then Signed(i.text[p]) else Ending(i)
  }

  lemma SignedBack(b: Byte)
    ensures b == if Signed(b) < 0 then Signed(b) + 0x100 else Signed(b)
  {
  }

  lemma CharKinds(i: In, p: nat)
    requires p <= |i.text|
    ensures var c := CharAt(i, p);
            if p < |i.text| then
              && DigitChar(c) == IsDigit(i.text[p]) && AlphaChar(c) == IsAlpha(i.text[p]) && HexChar(c) == IsHexByte(i.text[p])
              && (if i.text[p] < 0x80 then c == i.text[p] else c < 0)
            else c < 0 && !DigitChar(c) && !AlphaChar(c) && !HexChar(c)
  {
    if p < |i.text| { CharTests(i.text[p]); }
  }

  class Lexer {
    const stream: Stream
    var saved: Bytes
    var token: Token

    constructor (data: Bytes)
      requires 0 !in data
      ensures fresh(stream) && fresh(stream.buffer) && stream.Valid() && stream.Left() == Front(data)
    {
      stream := new Stream(data);
      saved, token := [], Invalid;
    }

    /** Of the text i, p bytes have been taken and saved. */
    ghost predicate At(i: In, p: nat)
      reads this`saved, stream, stream.buffer
    {
      stream.Valid() && p <= |i.text| && stream.Left() == In(i.text[p..], i.bad) && saved == i.text[..p]
    }

    /** c is the byte at p of the text i, already taken and saved, or what ends the text. */
    ghost predicate Reading(i: In, p: nat, c: int)
      reads this`saved, stream, stream.buffer
    {
      if p < |i.text| then
        && At(i, p + 1) && c == Signed(i.text[p]) && c != EOF && c != ERROR && c != 0
        && stream.state == Ok && stream.bufferPos > 0 && Signed(stream.buffer[stream.bufferPos - 1]) == c
      else
        p == |i.text| && At(i, p) && c == Ending(i)
    }

    method GetSave(ghost i: In, ghost p: nat) returns (c: int)
      requires stream.Valid() && At(i, p)
      modifies this`saved, stream, stream.buffer
      ensures stream.Valid()
      ensures p <= |i.text| && Reading(i, p, c) && c == CharAt(i, p)
    {
      c := stream.Get();
      if c != EOF && c != ERROR {
        saved := saved + [if c < 0 then c + 0x100 else c];
        assert saved == i.text[..p + 1];
      }
    }

    method UngetUnsave(c: int, ghost i: In, ghost p: nat)
      requires Reading(i, p, c)
      modifies this`saved, stream`bufferPos
      ensures stream.Valid()
      ensures At(i, p)
    {
      if c != EOF && c != ERROR {
        stream.Unget(c);
        saved := saved[..|saved| - 1];
        assert i.text[p..] == [i.text[p]] + i.text[p + 1..];
      }
    }

    /** The next character after c. */
    method Next(c: int, ghost i: In, ghost p: nat) returns (d: int)
      requires stream.Valid() && p < |i.text| && Reading(i, p, c)
      modifies this`saved, stream, stream.buffer
      ensures stream.Valid()
      ensures Reading(i, p + 1, d) && d == CharAt(i, p + 1)
    {
      d := GetSave(i, p + 1);
    }

    /** Takes digits as long as there are any. */
    method TakeDigits(c: int, ghost i: In, ghost p: nat) returns (d: int, ghost q: nat)
      requires stream.Valid() && p <= |i.text| && Reading(i, p, c) && c == CharAt(i, p)
      modifies this`saved, stream, stream.buffer
      ensures stream.Valid()
      ensures q == p + Digits(i.text[p..]) && Reading(i, q, d) && d == CharAt(i, q)
    {
      hide At, Reading;
      d, q := c, p;
      CharKinds(i, q);
      while DigitChar(d)
        invariant p <= q <= |i.text| && Reading(i, q, d) && d == CharAt(i, q)
        invariant stream.Valid()
        invariant DigitChar(d) <==> q < |i.text| && IsDigit(i.text[q])
        invariant p + Digits(i.text[p..]) == q + Digits(i.text[q..])
        decreases |i.text| - q
      {
        assert i.text[q..][1..] == i.text[q + 1..];
        d := Next(d, i, q);
        q := q + 1;
        CharKinds(i, q);
      }
    }

    /** Takes letters as long as there are any. */
    method TakeLetters(c: int, ghost i: In, ghost p: nat) returns (d: int, ghost q: nat)
      requires stream.Valid() && p <= |i.text| && Reading(i, p, c) && c == CharAt(i, p)
      modifies this`saved, stream, stream.buffer
      ensures stream.Valid()
      ensures q == p + Letters(i.text[p..]) && Reading(i, q, d) && d == CharAt(i, q)
    {
      hide At, Reading;
      d, q := c, p;
      CharKinds(i, q);
      while AlphaChar(d)
        invariant p <= q <= |i.text| && Reading(i, q, d) && d == CharAt(i, q)
        invariant stream.Valid()
        invariant AlphaChar(d) <==> q < |i.text| && IsAlpha(i.text[q])
        invariant p + Letters(i.text[p..]) == q + Letters(i.text[q..])
        decreases |i.text| - q
      {
        assert i.text[q..][1..] == i.text[q + 1..];
        d := Next(d, i, q);
        q := q + 1;
        CharKinds(i, q);
      }
    }

    /** The rest of a number whose first character c has been taken; false is an invalid token. */
    method ScanNumber(c: int, ghost i: In) returns (ok: bool)
      requires stream.Valid() && i.text != [] && Reading(i, 0, c) && c == CharAt(i, 0)
      modifies this`saved, this`token, stream, stream.buffer
      ensures stream.Valid()
      ensures token == JsonTokens.ScanNumber(i.text).0 && ok == (token != Invalid)
      ensures ok ==> At(i, JsonTokens.ScanNumber(i.text).1)
    {
      hide At, Reading, IntegerValue, IntegerEnd, FractionEnd, ExponentEnd;
      ghost var t := i.text;
      token := Invalid;
      var d;
      ghost var p;
      ok, d, p := ScanSignAndDigits(c, i);
      if !ok { return; }
      CharKinds(i, p);
      if d != '.' as int && d != 'E' as int && d != 'e' as int {
        UngetUnsave(d, i, p);
        SavedText(i, p);
        assert forall k :: 0 <= k < p ==> t[..p][k] == t[k];
        var value := IntegerValue(saved);
        if value.None? { return false; }
        token := Integer(value.value);
        return true;
      }
      ok := ScanReal(d, i, p);
    }

    method ScanSignAndDigits(c: int, ghost i: In) returns (ok: bool, d: int, ghost p: nat)
      requires stream.Valid() && i.text != [] && Reading(i, 0, c) && c == CharAt(i, 0)
      modifies this`saved, stream, stream.buffer
      ensures stream.Valid()
      ensures ok == (IntegerEnd(i.text) > 0)
      ensures ok ==> p == IntegerEnd(i.text) && Reading(i, p, d) && d == CharAt(i, p)
    {
      hide At, Reading, IntegerEnd;
      IntegerAt(i.text);
      ok := false;
      d, p := c, 0;
      CharKinds(i, 0);
      if d == '-' as int {
        d := Next(d, i, 0);
        p := 1;
        CharKinds(i, 1);
      }
      if d == '0' as int {
        d := Next(d, i, p);
        p := p + 1;
        CharKinds(i, p);
        if DigitChar(d) { return; }
        ok := true;
      } else {
        ok, d, p := TakeSomeDigits(d, i, p);
      }
    }

    lemma SavedText(i: In, p: nat)
      requires At(i, p)
      ensures p <= |i.text| && saved == i.text[..p]
    {
    }

    /** Fraction and exponent of a number whose integer part ends before c. */
    method ScanReal(c: int, ghost i: In, ghost n: nat) returns (ok: bool)
      requires stream.Valid() && i.text != [] && n == IntegerEnd(i.text) > 0 && Reading(i, n, c) && c == CharAt(i, n) && token == Invalid
      requires n < |i.text| && (i.text[n] == '.' as int || IsExponent(i.text[n]))
      modifies this`saved, this`token, stream, stream.buffer
      ensures stream.Valid()
      ensures token == JsonTokens.ScanNumber(i.text).0 && ok == (token != Invalid)
      ensures ok ==> At(i, JsonTokens.ScanNumber(i.text).1)
    {
      hide At, Reading, FractionEnd, ExponentEnd, IntegerEnd, IntegerValue;
      var d;
      ghost var f, e;
      ok, d, f := ScanFraction(c, i, n);
      if !ok { return; }
      ok, d, e := ScanExponent(d, i, n + f);
      if !ok { return; }
      UngetUnsave(d, i, n + f + e);
      SavedText(i, n + f + e);
      token := Real(saved);
    }

    method ScanFraction(c: int, ghost i: In, ghost n: nat) returns (ok: bool, d: int, ghost f: nat)
      requires stream.Valid() && n <= |i.text| && Reading(i, n, c) && c == CharAt(i, n)
      modifies this`saved, stream, stream.buffer
      ensures stream.Valid()
      ensures ok == FractionEnd(i.text[n..]).Some?
      ensures ok ==> f == FractionEnd(i.text[n..]).value && Reading(i, n + f, d) && d == CharAt(i, n + f)
    {
      hide At, Reading, FractionEnd;
      FractionAt(i.text, n);
      d, f := c, 0;
      CharKinds(i, n);
      if d != '.' as int { return true, d, 0; }
      d := Next(d, i, n);
      ghost var q;
      ok, d, q := TakeSomeDigits(d, i, n + 1);
      return ok, d, q - n;
    }

    method ScanExponent(c: int, ghost i: In, ghost n: nat) returns (ok: bool, d: int, ghost e: nat)
      requires stream.Valid() && n <= |i.text| && Reading(i, n, c) && c == CharAt(i, n)
      modifies this`saved, stream, stream.buffer
      ensures stream.Valid()
      ensures ok == ExponentEnd(i.text[n..]).Some?
      ensures ok ==> e == ExponentEnd(i.text[n..]).value && Reading(i, n + e, d) && d == CharAt(i, n + e)
    {
      hide At, Reading, ExponentEnd;
      ExponentAt(i.text, n);
      d, e := c, 0;
      CharKinds(i, n);
      if d != 'E' as int && d != 'e' as int { return true, d, 0; }
      d := Next(d, i, n);
      ghost var p := n + 1;
      CharKinds(i, p);
      if d == '+' as int || d == '-' as int {
        d := Next(d, i, p);
        p := p + 1;
      }
      ghost var q;
      ok, d, q := TakeSomeDigits(d, i, p);
      return ok, d, q - n;
    }

    /** Takes at least one digit. */
    method TakeSomeDigits(c: int, ghost i: In, ghost p: nat) returns (ok: bool, d: int, ghost q: nat)
      requires stream.Valid() && p <= |i.text| && Reading(i, p, c) && c == CharAt(i, p)
      modifies this`saved, stream, stream.buffer
      ensures stream.Valid()
      ensures ok == (Digits(i.text[p..]) > 0)
      ensures q == p + Digits(i.text[p..]) && Reading(i, q, d) && d == CharAt(i, q)
    {
      hide At, Reading;
      CharKinds(i, p);
      FrontDigit(i.text[p..]);
      if !DigitChar(c) { return false, c, p; }
      assert i.text[p..][1..] == i.text[p + 1..];
      d := Next(c, i, p);
      d, q := TakeDigits(d, i, p + 1);
      ok := true;
    }

    /** A string whose opening quote has been taken. */
    method ScanString(ghost i: In)
      requires stream.Valid() && i.text != [] && i.text[0] == QUOTE && At(i, 1)
      modifies this`saved, this`token, stream, stream.buffer
      ensures stream.Valid()
      ensures token == JsonTokens.ScanString(i.text[1..]).0
      ensures token != Invalid ==> At(i, 1 + JsonTokens.ScanString(i.text[1..]).1)
    {
      hide At, Reading, StringEnd, Unescape, Body;
      token := Invalid;
      var found;
      ghost var p;
      found, p := FindQuote(i);
      if !found { return; }
      ghost var t := i.text[1..];
      BodyUpToEnd(t);
      AfterQuote(i, p);
      assert saved[1..p] == t[..p - 1];
      var value := UnescapeSaved(saved, p);
      if value.Some? { token := Str(value.value); }
    }

    lemma AfterQuote(i: In, p: nat)
      requires 1 <= p < |i.text| && Reading(i, p, QUOTE)
      ensures At(i, p + 1) && saved == i.text[..p + 1]
    {
    }

    /** First pass: up to the closing quote, checking the form of every escape on the way. */
    method FindQuote(ghost i: In) returns (found: bool, ghost p: nat)
      requires stream.Valid() && i.text != [] && At(i, 1)
      modifies this`saved, stream, stream.buffer
      ensures stream.Valid()
      ensures found == StringEnd(i.text[1..]).Some?
      ensures found ==> p == 1 + StringEnd(i.text[1..]).value && p < |i.text| && i.text[p] == QUOTE && Reading(i, p, QUOTE)
    {
      hide At, Reading, StringEnd, ElementSize;
      ghost var t := i.text;
      var c := GetSave(i, 1);
      p := 1;
      found := false;
      assert StringEnd(t[1..]) == Shift(0, StringEnd(t[1..])) by { ShiftNone(StringEnd(t[1..])); }
      while true
        invariant 1 <= p <= |t| && Reading(i, p, c) && c == CharAt(i, p)
        invariant stream.Valid()
        invariant StringEnd(t[1..]) == Shift(p - 1, StringEnd(t[p..]))
        decreases |t| - p
      {
        CharKinds(i, p);
        EndStep(t[p..]);
        if c == QUOTE { return true, p; }
        if p < |t| { NotEnding(i, p, c); }
        if c == ERROR || c == EOF { return; }
        if 0 <= c <= 0x1F {
          UngetUnsave(c, i, p);
          return;
        }
        var ok;
        ghost var n;
        ok, c, n := TakeElement(c, i, p);
        if !ok { return; }
        assert t[p..][n..] == t[p + n..];
        ShiftTwice(p - 1, n, StringEnd(t[p + n..]));
        p := p + n;
      }
    }

    lemma NotEnding(i: In, p: nat, c: int)
      requires p < |i.text| && Reading(i, p, c)
      ensures c != EOF && c != ERROR
    {
    }

    /** One element of a string: a byte, or an escape with its letter and digits. */
    method TakeElement(c: int, ghost i: In, ghost p: nat) returns (ok: bool, d: int, ghost n: nat)
      requires stream.Valid() && p < |i.text| && Reading(i, p, c) && c == CharAt(i, p) && i.text[p] >= 0x20 && i.text[p] != QUOTE
      modifies this`saved, stream, stream.buffer
      ensures stream.Valid()
      ensures ok == (n > 0) && n == ElementSize(i.text[p..])
      ensures ok ==> p + n <= |i.text| && Reading(i, p + n, d) && d == CharAt(i, p + n)
    {
      hide At, Reading, IsHexByte;
      ghost var t := i.text[p..];
      CharKinds(i, p);
      ok, n := false, 0;
      d := Next(c, i, p);
      if c != BACKSLASH {
        ok, n := true, 1;
        return;
      }
      CharKinds(i, p + 1);
      if d == 'u' as int {
        d := Next(d, i, p + 1);
        ghost var k := p + 2;
        for j := 0 to 4
          invariant k == p + 2 + j <= |i.text| && Reading(i, k, d) && d == CharAt(i, k)
          invariant stream.Valid()
          invariant forall l :: 2 <= l < 2 + j ==> IsHexByte(t[l])
        {
          CharKinds(i, k);
          if !HexChar(d) { return; }
          assert IsHexByte(t[2 + j]);
          d := Next(d, i, k);
          k := k + 1;
        }
        ok, n := true, 6;
      } else if d == QUOTE || d == BACKSLASH || d == SLASH || d == 'b' as int
             || d == 'f' as int || d == 'n' as int || d == 'r' as int || d == 't' as int {
        d := Next(d, i, p + 1);
        ok, n := true, 2;
      }
    }

    /** lex_scan: the next token, after any blanks. */
    method Scan()
      requires stream.Valid()
      modifies this`saved, this`token, stream, stream.buffer
      ensures stream.Valid()
      ensures token == JsonTokens.Scan(old(stream.Left())).0
      ensures token != Invalid ==> stream.Left() == JsonTokens.Scan(old(stream.Left())).1
    {
      hide At, Reading, Token1, AfterBlanks, JsonTokens.Scan;
      ghost var i0 := stream.Left();
      ScanIs(i0);
      saved := [];
      var c;
      ghost var i;
      c, i := SkipBlanks();
      if c == EOF {
        EndTaken(i, c);
        token := EndOfInput;
        return;
      }
      if c == ERROR {
        token := Invalid;
        return;
      }
      ScanOne(c, i);
      if token != Invalid { TextLeft(i, Token1(i.text).1); }
    }

    lemma TextLeft(i: In, p: nat)
      requires At(i, p)
      ensures p <= |i.text| && stream.Left() == In(i.text[p..], i.bad)
    {
    }

    lemma EndTaken(i: In, c: int)
      requires i.text == [] && Reading(i, 0, c)
      ensures stream.Left() == i
    {
    }

    lemma FirstTaken(i: In, c: int)
      requires i.text != [] && Reading(i, 0, c)
      ensures stream.Valid() && At(i, 1)
    {
    }

    /** A word of letters: one of the three literals, or nothing known. */
    method ScanWord(c: int, ghost i: In)
      requires stream.Valid() && i.text != [] && Reading(i, 0, c) && c == CharAt(i, 0)
      modifies this`saved, this`token, stream, stream.buffer
      ensures stream.Valid()
      ensures token == WordToken(i.text[..Letters(i.text)]) && At(i, Letters(i.text))
    {
      hide At, Reading;
      assert i.text[0..] == i.text;
      var d;
      ghost var n;
      d, n := TakeLetters(c, i, 0);
      UngetUnsave(d, i, n);
      SavedText(i, n);
      if saved == TRUE { token := True; }
      else if saved == FALSE { token := False; }
      else if saved == NULL { token := Null; }
      else { token := Invalid; }
    }

    /** c is the first character of the text i, taken but not saved. */
    ghost predicate Taken(i: In, c: int)
      reads this`saved, stream, stream.buffer
    {
      && stream.Valid() && saved == [] && c == CharAt(i, 0)
      && (c == EOF || c == ERROR <==> i.text == [])
      && stream.Left() == In(if i.text == [] then [] else i.text[1..], i.bad)
      && (i.text != [] ==> c != 0 && stream.state == Ok && stream.bufferPos > 0 && Signed(stream.buffer[stream.bufferPos - 1]) == c)
    }

    method Take() returns (c: int)
      requires stream.Valid() && saved == []
      modifies stream, stream.buffer
      ensures Taken(old(stream.Left()), c)
    {
      c := stream.Get();
    }

    method TakeAgain(ghost i: In, ghost d: int) returns (c: int)
      requires Taken(i, d) && i.text != []
      modifies stream, stream.buffer
      ensures Taken(In(i.text[1..], i.bad), c) && c == CharAt(In(i.text[1..], i.bad), 0)
    {
      c := Take();
    }

    method SaveTaken(c: int, ghost i: In)
      requires Taken(i, c)
      modifies this`saved
      ensures stream.Valid() && Reading(i, 0, c) && c == CharAt(i, 0) && (c == EOF || c == ERROR <==> i.text == [])
    {
      hide Signed, Stream.Valid, Stream.Left;
      if i.text != [] {
        SignedBack(i.text[0]);
        assert i.text[..1] == [i.text[0]];
      } else {
        assert i.text[0..] == i.text[..0] == [];
      }
      if c != EOF && c != ERROR { saved := [if c < 0 then c + 0x100 else c]; }
    }

    /** Takes blanks without saving them; the first character that is none is saved. */
    method SkipBlanks() returns (c: int, ghost i: In)
      requires stream.Valid() && saved == []
      modifies this`saved, stream, stream.buffer
      ensures stream.Valid()
      ensures i == In(AfterBlanks(old(stream.Left()).text), old(stream.Left()).bad)
      ensures c == CharAt(i, 0) && Reading(i, 0, c) && (c == EOF || c == ERROR <==> i.text == [])
    {
      hide Taken, Reading, AfterBlanks;
      i := stream.Left();
      ghost var i0 := i;
      c := Take();
      TakenIs(i, c);
      CharKinds(i, 0);
      while c == ' ' as int || c == 9 || c == 10 || c == 13
        invariant Taken(i, c) && c == CharAt(i, 0) && i.bad == i0.bad && AfterBlanks(i0.text) == AfterBlanks(i.text)
        invariant if i.text != [] && i.text[0] < 0x80 then c == i.text[0] else c < 0
        decreases |i.text|
      {
        BlankStep(i.text);
        c := TakeAgain(i, c);
        i := In(i.text[1..], i.bad);
        CharKinds(i, 0);
      }
      BlankStep(i.text);
      SaveTaken(c, i);
    }

    lemma TakenIs(i: In, c: int)
      requires Taken(i, c)
      ensures c == CharAt(i, 0)
    {
    }

    /** The token whose first character c has been taken. */
    method ScanOne(c: int, ghost i: In)
      requires stream.Valid() && i.text != [] && c == CharAt(i, 0) && Reading(i, 0, c)
      modifies this`saved, this`token, stream, stream.buffer
      ensures stream.Valid() && token == Token1(i.text).0
      ensures token != Invalid ==> At(i, Token1(i.text).1)
    {
      hide At, Reading, JsonTokens.ScanNumber, JsonTokens.ScanString, WordToken;
      CharKinds(i, 0);
      FirstTaken(i, c);
      if c == '{' as int || c == '}' as int || c == '[' as int || c == ']' as int || c == ':' as int || c == ',' as int {
        token := Punctuation(c);
      } else if c == QUOTE {
        ScanString(i);
      } else if DigitChar(c) || c == '-' as int {
        var ok := ScanNumber(c, i);
      } else if AlphaChar(c) {
        ScanWord(c, i);
      } else {
        token := Invalid;
      }
    }
  }

  function AfterBlanks(t: Bytes): Bytes { t[Blanks(t)..] }

  lemma ScanIs(i: In)
    ensures var t := AfterBlanks(i.text);
            JsonTokens.Scan(i) ==
            if t == [] then (if i.bad then Invalid else EndOfInput, In([], i.bad))
            else (Token1(t).0, In(t[Token1(t).1..], i.bad))
  {
    hide Token1;
  }

  lemma BlankStep(t: Bytes)
    ensures t != [] && IsBlank(t[0]) ==> AfterBlanks(t) == AfterBlanks(t[1..])
    ensures t == [] || !IsBlank(t[0]) ==> AfterBlanks(t) == t
  {
  }

  lemma ShiftNone(r: Option<nat>)
    ensures Shift(0, r) == r
  {
  }

  lemma ShiftTwice(m: nat, n: nat, r: Option<nat>)
    ensures Shift(m, Shift(n, r)) == Shift(m + n, r)
  {
  }

  lemma EndStep(t: Bytes)
    ensures StringEnd(t) ==
            if t != [] && t[0] == QUOTE then Some(0)
            else if ElementSize(t) == 0 then None else Shift(ElementSize(t), StringEnd(t[ElementSize(t)..]))
    ensures t == [] || t[0] < 0x20 ==> ElementSize(t) == 0
  {
  }

  /** The value of the four digits after "u" at at. */
  method DecodeUnicodeEscape(str: Bytes, at: nat) returns (value: nat)
    requires 1 <= at && at + 5 <= |str| && |str[at - 1..]| >= 6
    ensures value == HexValue(str[at - 1..])
  {
    hide DigitValue;
    value := 0;
    ghost var d := (k: nat) requires k < 4 => DigitValue(str[at + 1 + k] as char);
    for i := 1 to 5
      invariant i == 1 ==> value == 0
      invariant i == 2 ==> value == d(0)
      invariant i == 3 ==> value == d(0) * 16 + d(1)
      invariant i == 4 ==> value == (d(0) * 16 + d(1)) * 16 + d(2)
      invariant i == 5 ==> value == ((d(0) * 16 + d(1)) * 16 + d(2)) * 16 + d(3)
    {
      value := value * 16 + DigitValue(str[at + i] as char);
    }
  }

  /** One element of the saved text, at p: its bytes and its length, or nothing if its escapes name no character. */
  method UnescapeNext(saved: Bytes, p: nat, ghost end: nat) returns (ok: bool, b: Bytes, n: nat)
    requires p < end < |saved| && saved[end] == QUOTE && Body(saved[p..end])
    ensures UnescapeOne(saved[p..end]) == if ok then Some((b, n)) else None
  {
    hide HexValue, Encode, IsHexByte;
    ghost var s := saved[p..end];
    ok, b, n := false, [], 0;
    assert s[0] == saved[p] && ElementSize(s) > 0;
    if saved[p] != BACKSLASH { return true, [saved[p]], 1; }
    assert s[1] == saved[p + 1];
    if saved[p + 1] != 'u' as int { return true, [ShortValue(saved[p + 1])], 2; }
    var value := DecodeUnicodeEscape(saved, p + 1);
    HexValueSame(saved[p..], s);
    if 0xD800 <= value <= 0xDBFF {
      ghost var q := s[6..];
      assert q == saved[p + 6..end] && Body(q);
      if saved[p + 6] == BACKSLASH && saved[p + 7] == 'u' as int {
        assert p + 6 < end;
        assert ElementSize(q) > 0 && q[0] == saved[p + 6] && q[1] == saved[p + 7];
        var value2 := DecodeUnicodeEscape(saved, p + 7);
        HexValueSame(saved[p + 6..], q);
        if 0xDC00 <= value2 <= 0xDFFF {
          return true, Encode((value - 0xD800) * 0x400 + (value2 - 0xDC00) + 0x1_0000), 12;
        }
        return;
      }
      return;
    }
    if 0xDC00 <= value <= 0xDFFF { return; }
    if value == 0 { return; }
    return true, Encode(value), 6;
  }

  lemma HexValueSame(s: Bytes, t: Bytes)
    requires |s| >= 6 && |t| >= 6 && forall k :: 0 <= k < 6 ==> s[k] == t[k]
    ensures HexValue(s) == HexValue(t)
  {
    hide DigitValue;
  }

  /** Second pass: the bytes between the quotes of the saved text, with every escape undone. */
  method UnescapeSaved(saved: Bytes, ghost end: nat) returns (value: Option<Bytes>)
    requires 1 <= end < |saved| && saved[end] == QUOTE && Body(saved[1..end])
    ensures value == Unescape(saved[1..end])
  {
    hide UnescapeOne, Unescape, ElementSize;
    var p, out: Bytes := 1, [];
    ghost var body := saved[1..end];
    AllBefore(out, Unescape(body));
    while true
      invariant 1 <= p <= end && Body(saved[p..end])
      invariant Unescape(body) == Behind(out, Unescape(saved[p..end]))
      decreases end - p
    {
      QuoteOnlyAtEnd(saved, p, end);
      if saved[p] == QUOTE { break; }
      var ok, b, n := UnescapeNext(saved, p, end);
      UnescapeStepAt(saved[p..end]);
      if !ok { return None; }
      assert saved[p..end][n..] == saved[p + n..end];
      BehindBoth(out, b, Unescape(saved[p + n..end]));
      out := out + b;
      p := p + n;
    }
    UnescapeEmpty();
    assert saved[p..end] == [] && out + [] == out;
    value := Some(out);
  }

  function Behind(out: Bytes, r: Option<Bytes>): Option<Bytes> {
    match r case None => None case Some(b) => Some(out + b)
  }

  lemma AllBefore(out: Bytes, r: Option<Bytes>)
    requires out == []
    ensures Behind(out, r) == r
  {
    if r.Some? { assert [] + r.value == r.value; }
  }

  lemma BehindBoth(x: Bytes, y: Bytes, r: Option<Bytes>)
    ensures Behind(x, Behind(y, r)) == Behind(x + y, r)
  {
    if r.Some? { assert x + (y + r.value) == x + y + r.value; }
  }

  lemma UnescapeStepAt(p: Bytes)
    requires Body(p) && p != []
    ensures UnescapeOne(p).None? ==> Unescape(p) == None
    ensures UnescapeOne(p).Some? ==> Unescape(p) == Behind(UnescapeOne(p).value.0, Unescape(p[UnescapeOne(p).value.1..]))
  {
    hide UnescapeOne;
  }

  lemma UnescapeEmpty()
    ensures Unescape([]) == Some([])
  {
  }

  lemma QuoteOnlyAtEnd(saved: Bytes, p: nat, end: nat)
    requires p <= end < |saved| && saved[end] == QUOTE && Body(saved[p..end])
    ensures saved[p] == QUOTE <==> p == end
    ensures p == end ==> saved[p..end] == []
  {
    if p < end { assert saved[p..end][0] == saved[p]; }
  }

  lemma IntegerAt(t: Bytes)
    requires t != []
    ensures var s := if t[0] == '-' as int then 1 else 0;
            IntegerEnd(t) ==
            if s < |t| && t[s] == '0' as int then (if s + 1 < |t| && IsDigit(t[s + 1]) then 0 else s + 1)
            else if Digits(t[s..]) == 0 then 0 else s + Digits(t[s..])
  {
    var s := if t[0] == '-' as int then 1 else 0;
    FrontDigit(t[s..]);
  }

  lemma ExponentAt(t: Bytes, n: nat)
    requires n <= |t|
    ensures n == |t| || !IsExponent(t[n]) ==> ExponentEnd(t[n..]) == Some(0)
    ensures n < |t| && IsExponent(t[n]) ==>
              var p := if n + 1 < |t| && (t[n + 1] == '+' as int || t[n + 1] == '-' as int) then n + 2 else n + 1;
              ExponentEnd(t[n..]) == if Digits(t[p..]) == 0 then None else Some(p - n + Digits(t[p..]))
  {
    if n < |t| {
      assert t[n..][1..] == t[n + 1..];
      if n + 1 < |t| { assert t[n..][2..] == t[n + 2..]; }
    }
  }

  lemma FractionAt(t: Bytes, n: nat)
    requires n <= |t|
    ensures n == |t| || t[n] != '.' as int ==> FractionEnd(t[n..]) == Some(0)
    ensures n < |t| && t[n] == '.' as int ==>
              FractionEnd(t[n..]) == if Digits(t[n + 1..]) == 0 then None else Some(1 + Digits(t[n + 1..]))
  {
    if n < |t| { assert t[n..][1..] == t[n + 1..]; }
  }

  lemma FrontDigit(t: Bytes)
    ensures Digits(t) == if t == [] || !IsDigit(t[0]) then 0 else 1 + Digits(t[1..])
  {
  }
}
