/** JSON strings: how dump_string escapes them, and how lex_scan_string finds their end and undoes the escapes
    (section 7 of RFC 8259). */
module JsonStrings {
  import opened MachineWords
  import opened Options
  import opened Utf8
  import opened HexText
  import opened Powers

  const QUOTE: Byte := 0x22
  const SLASH: Byte := 0x2F
  const BACKSLASH: Byte := 0x5C

  /** The flag bits of json_dumps that shape its output. */
  datatype DumpFlags = DumpFlags(indent: nat, compact: bool, ensureAscii: bool, sortKeys: bool, preserveOrder: bool,
                                 encodeAny: bool, escapeSlash: bool)

  // Escaping.

  predicate NeedsEscape(cp: nat, f: DumpFlags) {
    cp == 0x5C || cp == 0x22 || cp < 0x20 || (f.escapeSlash && cp == 0x2F) || (f.ensureAscii && cp > 0x7F)
  }

  function HexByte(n: nat): Byte
    requires n < 16
  {
    HexDigit(n) as int
  }

  /** "\uXXXX" for a number of 16 bits. */
  function UnicodeEscape(v: nat): (b: Bytes)
    requires v < 0x1_0000
    ensures |b| == 6
  {
    [BACKSLASH, 'u' as int, HexByte(v / 0x1000), HexByte(v / 0x100 % 16), HexByte(v / 0x10 % 16), HexByte(v % 16)]
  }

  /** The letter after the backslash of a short escape, or 0. */
  function ShortEscape(cp: nat): Byte {
    if cp == 0x5C then BACKSLASH
    else if cp == 0x22 then QUOTE
    else if cp == 0x08 then 'b' as int
    else if cp == 0x0C then 'f' as int
    else if cp == 0x0A then 'n' as int
    else if cp == 0x0D then 'r' as int
    else if cp == 0x09 then 't' as int
    else if cp == 0x2F then SLASH
    else 0
  }

  function EscapeText(cp: nat): Bytes
    requires cp < 0x11_0000
  {
    if ShortEscape(cp) != 0 then [BACKSLASH, ShortEscape(cp)]
    else if cp < 0x1_0000 then UnicodeEscape(cp)
    else UnicodeEscape(0xD800 + (cp - 0x1_0000) / 0x400) + UnicodeEscape(0xDC00 + (cp - 0x1_0000) % 0x400)
  }

  /** What is printed for one character. */
  function Printed(cp: nat, f: DumpFlags): Bytes
    requires Scalar(cp)
  {
    if NeedsEscape(cp, f) then EscapeText(cp) else Encode(cp)
  }

  function PrintedAll(cps: seq<nat>, f: DumpFlags): Bytes
    requires forall k :: 0 <= k < |cps| ==> Scalar(cps[k])
  {
    if cps == [] then [] else
      assert Scalar(cps[0]);
      Printed(cps[0], f) + PrintedAll(cps[1..], f)
  }

  /** What dump_string puts out between the quotes: it holds back characters that need no escape until one does, so at
      bytes that are not UTF-8 the ones held back are lost. */
  function Emitted(s: Bytes, held: Bytes, f: DumpFlags): (r: (Bytes, bool))
    decreases |s|
  {
    if s == [] then (held, true)
    else if First(s).Bad? then ([], false)
    else
      FirstIsEncoded(s);
      var cp, n := First(s).codepoint, First(s).size;
      if NeedsEscape(cp, f) then
        var r := Emitted(s[n..], [], f);
        (held + EscapeText(cp) + r.0, r.1)
      else
        Emitted(s[n..], held + s[..n], f)
  }

  function Dumped(s: Bytes, f: DumpFlags): (r: (Bytes, bool)) {
    var e := Emitted(s, [], f);
    ([QUOTE] + e.0 + (if e.1 then [QUOTE] else []), e.1)
  }

  lemma {:induction false} EmittedValid(s: Bytes, held: Bytes, f: DumpFlags)
    ensures Emitted(s, held, f).1 == Valid(s)
    ensures Valid(s) ==> Emitted(s, held, f).0 == held + PrintedAll(DecodeAll(s), f)
    decreases |s|
  {
    hide First, EscapeText, NeedsEscape;
    if s != [] && First(s).Char? {
      FirstIsEncoded(s);
      var cp, n := First(s).codepoint, First(s).size;
      EmittedValid(s[n..], if NeedsEscape(cp, f) then [] else held + s[..n], f);
      if Valid(s) {
        assert DecodeAll(s)[1..] == DecodeAll(s[n..]);
        assert PrintedAll(DecodeAll(s), f) == Printed(cp, f) + PrintedAll(DecodeAll(s[n..]), f);
      }
    }
  }

  /** Valid strings are printed whole, character by character, and only those are accepted. */
  lemma DumpedValid(s: Bytes, f: DumpFlags)
    ensures Dumped(s, f).1 == Valid(s)
    ensures Valid(s) ==> Dumped(s, f).0 == [QUOTE] + PrintedAll(DecodeAll(s), f) + [QUOTE]
  {
    hide Emitted, Valid, PrintedAll, DecodeAll;
    EmittedValid(s, [], f);
  }

  // What is lost at bytes that are not UTF-8.

  /** The characters up to the last one that needs an escape. */
  function Flushed(cps: seq<nat>, f: DumpFlags): (r: seq<nat>)
    ensures |r| <= |cps| && r == cps[..|r|]
  {
    if cps == [] then []
    else
      var r := Flushed(cps[1..], f);
      if r == [] && !NeedsEscape(cps[0], f) then [] else [cps[0]] + r
  }

  lemma {:induction false} FlushedAll(cps: seq<nat>, f: DumpFlags)
    ensures Flushed(cps, f) == cps <==> cps == [] || NeedsEscape(cps[|cps| - 1], f)
  {
    hide NeedsEscape;
    if |cps| > 1 {
      FlushedAll(cps[1..], f);
      assert cps == [cps[0]] + cps[1..];
    }
  }

  /** The first character of a valid text, and what the text after it adds. */
  lemma FirstDecoded(p: Bytes, f: DumpFlags)
    requires Valid(p) && p != []
    ensures First(p).Char?
    ensures var cp, rest := First(p).codepoint, p[First(p).size..];
            && Valid(rest) && Scalar(cp) && p[..First(p).size] == Encode(cp)
            && DecodeAll(p) == [cp] + DecodeAll(rest)
  {
    hide First, Encode;
    FirstIsEncoded(p);
  }

  /** One turn of the loop that holds characters back. */
  lemma EmittedStep(s: Bytes, held: Bytes, f: DumpFlags)
    requires s != [] && First(s).Char?
    ensures var cp, n := First(s).codepoint, First(s).size;
            && Scalar(cp)
            && Emitted(s, held, f) ==
               if NeedsEscape(cp, f) then (held + EscapeText(cp) + Emitted(s[n..], [], f).0, Emitted(s[n..], [], f).1)
               else Emitted(s[n..], held + s[..n], f)
  {
    hide First, EscapeText, NeedsEscape;
    FirstIsEncoded(s);
  }

  lemma PrintedFirst(cp: nat, cps: seq<nat>, f: DumpFlags)
    requires Scalar(cp) && forall k :: 0 <= k < |cps| ==> Scalar(cps[k])
    ensures forall k :: 0 <= k < |[cp] + cps| ==> Scalar(([cp] + cps)[k])
    ensures PrintedAll([cp] + cps, f) == Printed(cp, f) + PrintedAll(cps, f)
  {
    hide Printed, Scalar;
    assert ([cp] + cps)[1..] == cps;
  }

  /** What comes out of a valid text p with bytes behind it that are not UTF-8: everything up to the last character that
      needs an escape, and nothing of what is held back after it. */
  lemma {:induction false} EmittedBroken(p: Bytes, q: Bytes, held: Bytes, f: DumpFlags)
    requires Valid(p) && q != [] && First(q).Bad?
    ensures var out := Flushed(DecodeAll(p), f);
            Emitted(p + q, held, f) == (if out == [] then [] else held + PrintedAll(out, f), false)
    decreases |p|
  {
    hide First, EscapeText, NeedsEscape, Encode, Scalar, DecodeAll, Valid, PrintedAll, Emitted, Flushed, Printed;
    if p == [] {
      BrokenAtOnce(q, held, f);
      assert p + q == q;
    } else {
      FirstDecoded(p, f);
      FirstOfLonger(p, q);
      EmittedStep(p + q, held, f);
      var cp, n := First(p).codepoint, First(p).size;
      var rest := p[n..];
      assert (p + q)[n..] == rest + q && (p + q)[..n] == p[..n];
      EmittedBroken(rest, q, if NeedsEscape(cp, f) then [] else held + p[..n], f);
      var out := Flushed(DecodeAll(rest), f);
      FlushedFirst(cp, DecodeAll(rest), f);
      PrintedFirst(cp, out, f);
      PrintedNothing(f);
      assert [] + PrintedAll(out, f) == PrintedAll(out, f);
      PrintedOne(cp, f);
      Joined(held, Printed(cp, f), PrintedAll(out, f), []);
    }
  }

  lemma BrokenAtOnce(q: Bytes, held: Bytes, f: DumpFlags)
    requires q != [] && First(q).Bad?
    ensures Emitted(q, held, f) == ([], false) && DecodeAll([]) == [] && Flushed([], f) == []
  {
    hide First;
  }

  lemma PrintedOne(cp: nat, f: DumpFlags)
    requires Scalar(cp)
    ensures Printed(cp, f) == if NeedsEscape(cp, f) then EscapeText(cp) else Encode(cp)
  {
  }

  lemma FlushedFirst(cp: nat, cps: seq<nat>, f: DumpFlags)
    ensures var r := Flushed(cps, f);
            Flushed([cp] + cps, f) == if r == [] && !NeedsEscape(cp, f) then [] else [cp] + r
  {
    hide NeedsEscape;
    assert ([cp] + cps)[1..] == cps;
  }

  /** The bytes from the first ones that are not UTF-8 on. */
  function Broken(s: Bytes): (q: Bytes)
    ensures |q| <= |s|
  {
    if s == [] || First(s).Bad? then s else Broken(s[First(s).size..])
  }

  /** Every string is a valid text and what is not UTF-8 behind it. */
  lemma {:induction false} BrokenSplit(s: Bytes)
    ensures var p, q := s[..|s| - |Broken(s)|], Broken(s);
            && s == p + q && Valid(p) && (q == [] || First(q).Bad?)
            && (q == [] <==> Valid(s))
  {
    hide First, Encode;
    if s != [] && First(s).Char? {
      var n := First(s).size;
      BrokenSplit(s[n..]);
      var p, q := s[n..][..|s| - n - |Broken(s)|], Broken(s);
      FirstIsEncoded(s);
      EncodedValid(First(s).codepoint);
      ValidAppend(s[..n], p);
      assert s == s[..n] + (p + q);
      assert s[..|s| - |q|] == s[..n] + p;
    }
  }

  lemma {:induction false} LongerPrinted(cps: seq<nat>, f: DumpFlags, n: nat)
    requires n <= |cps| && forall k :: 0 <= k < |cps| ==> Scalar(cps[k])
    ensures PrintedAll(cps[..n], f) == PrintedAll(cps, f) <==> n == |cps|
    ensures |PrintedAll(cps[..n], f)| <= |PrintedAll(cps, f)|
  {
    hide Printed, Scalar;
    if cps != [] {
      PrintedNotEmpty(cps[0], f);
      if n == 0 {
      } else {
        LongerPrinted(cps[1..], f, n - 1);
        assert cps[..n][1..] == cps[1..][..n - 1];
        SameAfter(Printed(cps[0], f), PrintedAll(cps[1..][..n - 1], f), PrintedAll(cps[1..], f));
      }
    }
  }

  lemma SameAfter(a: Bytes, b: Bytes, c: Bytes)
    ensures a + b == a + c <==> b == c
  {
    assert (a + b)[|a|..] == b && (a + c)[|a|..] == c;
  }

  lemma PrintedNotEmpty(cp: nat, f: DumpFlags)
    requires Scalar(cp)
    ensures |Printed(cp, f)| > 0
  {
    hide NeedsEscape, Encode;
    EscapeNotEmpty(cp);
  }

  /** Printing a string that is not UTF-8 fails, and of the valid text in front of the first bad bytes it prints everything
      up to the last character that needs an escape; the others are lost, so nothing is lost exactly if there are none. */
  lemma LostExactly(s: Bytes, f: DumpFlags)
    requires !Valid(s)
    ensures var p := s[..|s| - |Broken(s)|];
            && Valid(p) && s == p + Broken(s) && Broken(s) != [] && First(Broken(s)).Bad?
            && var cps := DecodeAll(p);
               && Emitted(s, [], f) == (PrintedAll(Flushed(cps, f), f), false)
               && (Emitted(s, [], f).0 == PrintedAll(cps, f) <==> cps == [] || NeedsEscape(cps[|cps| - 1], f))
  {
    hide First, NeedsEscape, Emitted, Scalar, Valid, Flushed, PrintedAll, DecodeAll, Broken;
    BrokenSplit(s);
    var p, q := s[..|s| - |Broken(s)|], Broken(s);
    EmittedBroken(p, q, [], f);
    var cps := DecodeAll(p);
    var out := Flushed(cps, f);
    PrintedNothing(f);
    assert [] + PrintedAll(out, f) == PrintedAll(out, f) && out == cps[..|out|];
    FlushedAll(cps, f);
    LongerPrinted(cps, f, |out|);
  }

  /** For instance: of the letter a in front of the byte 0x80 nothing is printed but the opening quote. */
  lemma LetterLost(f: DumpFlags)
    ensures Valid([0x61]) && !Valid([0x61, 0x80]) && Dumped([0x61, 0x80], f) == ([QUOTE], false)
  {
    assert First([0x61]) == Char(0x61, 1) && First([0x61, 0x80]) == Char(0x61, 1);
    assert [0x61, 0x80][1..] == [0x80] && First([0x80]) == Bad;
    assert Emitted([0x80], [0x61], f) == ([], false);
    assert Emitted([0x61, 0x80], [], f) == ([], false);
    assert [QUOTE] + [] + [] == [QUOTE];
  }

  lemma PrintedNothing(f: DumpFlags)
    ensures PrintedAll([], f) == [] && [] + PrintedAll([], f) == []
  {
  }

  /** What comes out from str on, when the characters up to pos are held back. */
  function Held(s: Bytes, str: nat, pos: nat, f: DumpFlags): (r: (Bytes, bool))
    requires str <= pos <= |s|
  {
    Emitted(s[pos..], s[str..pos], f)
  }

  lemma HeldStart(s: Bytes, f: DumpFlags)
    ensures Held(s, 0, 0, f) == Emitted(s, [], f)
  {
    assert s[0..] == s && s[0..0] == [];
  }

  /** One turn of the inner loop. */
  lemma HeldStep(s: Bytes, str: nat, pos: nat, f: DumpFlags)
    requires str <= pos < |s|
    ensures var c, e := First(s[pos..]), Held(s, str, pos, f);
            if c.Bad? then e == ([], false)
            else
              && c.codepoint < 0x11_0000 && pos + c.size <= |s|
              && if NeedsEscape(c.codepoint, f) then
                   var r := Held(s, pos + c.size, pos + c.size, f);
                   e == (s[str..pos] + EscapeText(c.codepoint) + r.0, r.1)
                 else e == Held(s, str, pos + c.size, f)
  {
    hide First, EscapeText, NeedsEscape;
    var c := First(s[pos..]);
    if c.Char? {
      FirstIsEncoded(s[pos..]);
      assert s[pos..][c.size..] == s[pos + c.size..] && s[pos + c.size..pos + c.size] == [];
      assert s[str..pos] + s[pos..][..c.size] == s[str..pos + c.size];
    }
  }

  lemma HeldEnd(s: Bytes, str: nat, f: DumpFlags)
    requires str <= |s|
    ensures Held(s, str, |s|, f) == (s[str..], true)
  {
    assert s[|s|..] == [] && s[str..|s|] == s[str..];
  }

  // The output of the printer.

  class Sink {
    var text: Bytes

    constructor ()
      ensures text == []
    {
      text := [];
    }

    method Dump(b: Bytes)
      modifies this
      ensures text == old(text) + b
    {
      text := text + b;
    }
  }

  /** dump_string, with its three positions: str is where the characters held back start, pos where the next one
      starts, and end where it ends. */
  method DumpString(sink: Sink, s: Bytes, f: DumpFlags) returns (ok: bool)
    modifies sink
    ensures (sink.text, ok) == (old(sink.text) + Dumped(s, f).0, Dumped(s, f).1)
  {
    hide First, EscapeText, NeedsEscape, Emitted, Held;
    ghost var before, e := sink.text, Emitted(s, [], f);
    sink.Dump([QUOTE]);
    var str, pos, end := 0, 0, 0;
    ghost var start := sink.text;
    ghost var out: Bytes := [];
    HeldStart(s, f);
    while true
      invariant 0 <= str == pos == end <= |s|
      invariant sink.text == start + out && start == before + [QUOTE]
      invariant e.0 == out + Held(s, str, str, f).0 && e.1 == Held(s, str, str, f).1
      decreases |s| - end
    {
      var codepoint;
      ok, pos, end, codepoint := NextEscape(s, str, f);
      if !ok {
        Joined(before, [QUOTE], out, []);
        return;
      }
      if pos != str { sink.Dump(s[str..pos]); } else { assert s[str..pos] == []; }
      Joined(start, out, s[str..pos], []);
      Joined(start, out, [], []);
      if end == pos {
        out := out + s[str..pos];
        break;
      }
      sink.Dump(EscapeText(codepoint));
      Joined(start, out, s[str..pos], EscapeText(codepoint));
      Joined(out, s[str..pos], EscapeText(codepoint), Held(s, end, end, f).0);
      out := out + s[str..pos] + EscapeText(codepoint);
      str, pos := end, end;
    }
    sink.Dump([QUOTE]);
    Joined(before, [QUOTE], out, [QUOTE]);
    assert sink.text == before + [QUOTE] + e.0 + [QUOTE];
    ok := true;
  }

  lemma Joined(a: Bytes, b: Bytes, c: Bytes, d: Bytes)
    ensures c + [] == c && b + c + [] == b + c
    ensures a + b + c == a + (b + c) && a + b + c + d == a + (b + c + d)
  {
  }

  /** Steps over the characters that need no escape: to the end of the text, or to the next one that does. */
  method NextEscape(s: Bytes, str: nat, f: DumpFlags) returns (ok: bool, pos: nat, end: nat, codepoint: nat)
    requires str <= |s|
    ensures str <= pos <= end <= |s| && codepoint < 0x11_0000
    ensures !ok ==> Held(s, str, str, f) == ([], false)
    ensures ok && end == pos ==> Held(s, str, str, f) == (s[str..pos], true)
    ensures ok && end > pos ==>
              Held(s, str, str, f) == (s[str..pos] + EscapeText(codepoint) + Held(s, end, end, f).0, Held(s, end, end, f).1)
  {
    hide First, EscapeText, NeedsEscape, Emitted, Held;
    pos, end, codepoint := str, str, 0;
    while end < |s|
      invariant str <= pos == end <= |s| && codepoint < 0x11_0000
      invariant Held(s, str, str, f) == Held(s, str, pos, f)
    {
      var c := Iterate(s, pos);
      HeldStep(s, str, pos, f);
      if c.Bad? { return false, pos, end, 0; }
      end := pos + c.size;
      codepoint := c.codepoint;
      if NeedsEscape(codepoint, f) { return true, pos, end, codepoint; }
      pos := end;
    }
    HeldEnd(s, str, f);
    assert s[str..] == s[str..pos];
    ok := true;
  }

  // Reading a string back.

  predicate IsHexByte(b: Byte) { IsHex(b as char) }

  predicate IsShortEscape(b: Byte) {
    b == QUOTE || b == BACKSLASH || b == SLASH || b == 'b' as int || b == 'f' as int || b == 'n' as int || b == 'r' as int || b == 't' as int
  }

  /** The length of the first element of a string's body: a byte or a whole escape; 0 at the end and at an error. */
  function ElementSize(t: Bytes): (n: nat)
    ensures n <= |t| && n <= 6
  {
    if t == [] || t[0] < 0x20 || t[0] == QUOTE then 0
    else if t[0] != BACKSLASH then 1
    else if |t| < 2 then 0
    else if t[1] == 'u' as int then
      if |t| >= 6 && IsHexByte(t[2]) && IsHexByte(t[3]) && IsHexByte(t[4]) && IsHexByte(t[5]) then 6 else 0
    else if IsShortEscape(t[1]) then 2
    else 0
  }

  /** Where the closing quote of a string is, if it is well formed. */
  function StringEnd(t: Bytes): (r: Option<nat>)
    ensures r.Some? ==> r.value < |t| && t[r.value] == QUOTE
  {
    if t != [] && t[0] == QUOTE then Some(0)
    else
      var n := ElementSize(t);
      if n == 0 then None
      else
        match StringEnd(t[n..])
        case None => None
        case Some(k) => Some(n + k)
  }

  /** A string's body: elements up to the end. */
  predicate Body(p: Bytes) {
    p == [] || (ElementSize(p) > 0 && Body(p[ElementSize(p)..]))
  }

  function HexValue(p: Bytes): (v: nat)
    requires |p| >= 6
    ensures v < 0x1_0000
  {
    DigitValue(p[2] as char) * 0x1000 + DigitValue(p[3] as char) * 0x100 + DigitValue(p[4] as char) * 0x10 + DigitValue(p[5] as char)
  }

  function ShortValue(b: Byte): Byte {
    if b == 'b' as int then 0x08
    else if b == 'f' as int then 0x0C
    else if b == 'n' as int then 0x0A
    else if b == 'r' as int then 0x0D
    else if b == 't' as int then 0x09
    else b
  }

  /** The escape at the front of p: its bytes and its length; a high surrogate must be followed by the escape of a low
      one, a lone low surrogate and zero are refused. */
  function UnescapeOne(p: Bytes): (r: Option<(Bytes, nat)>)
    requires Body(p) && p != []
    ensures r.Some? ==> 1 <= r.value.1 <= |p| && Body(p[r.value.1..])
  {
    if p[0] != BACKSLASH then Some(([p[0]], 1))
    else if p[1] != 'u' as int then Some(([ShortValue(p[1])], 2))
    else
      var v := HexValue(p);
      if 0xD800 <= v <= 0xDBFF then
        var q := p[6..];
        if |q| >= 2 && q[0] == BACKSLASH && q[1] == 'u' as int then
          assert Body(q) && ElementSize(q) == 6 && p[12..] == q[6..];
          var w := HexValue(q);
          if 0xDC00 <= w <= 0xDFFF then Some((Encode((v - 0xD800) * 0x400 + (w - 0xDC00) + 0x1_0000), 12)) else None
        else None
      else if 0xDC00 <= v <= 0xDFFF then None
      else if v == 0 then None
      else Some((Encode(v), 6))
  }

  function Unescape(p: Bytes): Option<Bytes>
    requires Body(p)
    decreases |p|
  {
    if p == [] then Some([])
    else
      match UnescapeOne(p)
      case None => None
      case Some((b, n)) =>
        match Unescape(p[n..])
        case None => None
        case Some(rest) => Some(b + rest)
  }

  /** The unescaped string is never longer than the text it came from, so the buffer of that length holds it. */
  lemma {:induction false} UnescapedFits(p: Bytes)
    requires Body(p)
    ensures Unescape(p).Some? ==> |Unescape(p).value| <= |p|
    decreases |p|
  {
    hide ElementSize, HexValue;
    if p != [] && UnescapeOne(p).Some? {
      var n := UnescapeOne(p).value.1;
      EncodingsShort(if p[0] == BACKSLASH && p[1] == 'u' as int then HexValue(p) else 0);
      UnescapedFits(p[n..]);
    }
  }

  lemma EncodingsShort(v: nat)
    requires v < 0x1_0000
    ensures |Encode(v)| <= 3
  {
  }

  lemma {:induction false} BodyUpToEnd(t: Bytes)
    requires StringEnd(t).Some?
    ensures Body(t[..StringEnd(t).value])
  {
    hide ElementSize;
    if t != [] && t[0] != QUOTE {
      var n := ElementSize(t);
      BodyUpToEnd(t[n..]);
      var body := t[..StringEnd(t).value];
      ElementOfPrefix(t, body);
      assert body[n..] == t[n..][..StringEnd(t[n..]).value];
    }
  }

  lemma ElementOfPrefix(t: Bytes, s: Bytes)
    requires |s| <= |t| && s == t[..|s|] && ElementSize(t) <= |s|
    ensures s != [] ==> ElementSize(s) == ElementSize(t)
  {
  }

  // Reading back what was printed.

  lemma HexBytesReadBack(v: nat)
    requires v < 0x1_0000
    ensures var b := UnicodeEscape(v); HexValue(b) == v && IsHexByte(b[2]) && IsHexByte(b[3]) && IsHexByte(b[4]) && IsHexByte(b[5])
  {
    hide DigitValue, HexDigit, IsHex;
    forall n | 0 <= n < 16 ensures DigitValue(HexByte(n) as char) == n && IsHex(HexByte(n) as char) { HexByteReadBack(n); }
    FourDigits(v);
  }

  lemma FourDigits(v: nat)
    ensures v == v / 0x1000 * 0x1000 + v / 0x100 % 16 * 0x100 + v / 0x10 % 16 * 0x10 + v % 16
  {
    var a, b := v / 0x10, v / 0x10 / 0x10;
    DivMod(v, 0x10);
    DivMod(a, 0x10);
    DivMod(b, 0x10);
    QuotientUnique(v, 0x100, b, a % 0x10 * 0x10 + v % 0x10);
    QuotientUnique(v, 0x1000, b / 0x10, b % 0x10 * 0x100 + a % 0x10 * 0x10 + v % 0x10);
  }

  lemma HexByteReadBack(n: nat)
    requires n < 16
    ensures DigitValue(HexByte(n) as char) == n && IsHex(HexByte(n) as char)
  {
    DigitReadBack(n);
  }

  lemma PlainByte(b: Byte, rest: Bytes)
    requires b >= 0x20 && b != QUOTE && b != BACKSLASH && Body(rest)
    ensures Body([b] + rest) && UnescapeOne([b] + rest) == Some(([b], 1))
  {
    assert ([b] + rest)[1..] == rest;
  }

  lemma UnescapeStep(p: Bytes)
    requires Body(p) && p != [] && UnescapeOne(p).Some?
    ensures var (b, n) := UnescapeOne(p).value;
            Unescape(p) == match Unescape(p[n..]) case None => None case Some(r) => Some(b + r)
  {
    hide UnescapeOne;
  }

  /** A run of bytes that are neither quotes nor backslashes nor control characters stands for itself. */
  lemma {:induction false} RawRun(raw: Bytes, rest: Bytes)
    requires forall k :: 0 <= k < |raw| ==> raw[k] >= 0x20 && raw[k] != QUOTE && raw[k] != BACKSLASH
    requires Body(rest)
    ensures Body(raw + rest)
    ensures Unescape(raw + rest) == match Unescape(rest) case None => None case Some(r) => Some(raw + r)
  {
    hide UnescapeOne, ElementSize, Unescape, Body;
    if raw == [] {
      assert raw + rest == rest;
      if Unescape(rest).Some? { assert [] + Unescape(rest).value == Unescape(rest).value; }
    } else {
      RawRun(raw[1..], rest);
      PlainByte(raw[0], raw[1..] + rest);
      UnescapeStep([raw[0]] + (raw[1..] + rest));
      assert ([raw[0]] + (raw[1..] + rest))[1..] == raw[1..] + rest;
      assert raw + rest == [raw[0]] + (raw[1..] + rest);
      if Unescape(rest).Some? { assert [raw[0]] + (raw[1..] + Unescape(rest).value) == raw + Unescape(rest).value; }
    }
  }

  lemma OneElement(head: Bytes, rest: Bytes)
    requires |head| > 0 && ElementSize(head + rest) == |head| && Body(rest)
    ensures Body(head + rest)
  {
    assert (head + rest)[|head|..] == rest;
  }

  /** One unicode escape in front of a body. */
  lemma UnicodeEscapeRead(v: nat, rest: Bytes)
    requires v < 0x1_0000 && Body(rest)
    ensures var p := UnicodeEscape(v) + rest;
            Body(p) && p[0] == BACKSLASH && p[1] == 'u' as int && HexValue(p) == v && p[6..] == rest
  {
    hide HexValue, IsHexByte, HexByte;
    HexBytesReadBack(v);
    var b := UnicodeEscape(v);
    HexOfPrefix(b, rest);
    OneElement(b, rest);
  }

  lemma HexOfPrefix(b: Bytes, rest: Bytes)
    requires |b| == 6
    ensures HexValue(b + rest) == HexValue(b)
  {
  }

  lemma SurrogatesMeet(cp: nat)
    requires 0x1_0000 <= cp < 0x11_0000
    ensures var hi, lo := 0xD800 + (cp - 0x1_0000) / 0x400, 0xDC00 + (cp - 0x1_0000) % 0x400;
            0xD800 <= hi <= 0xDBFF && 0xDC00 <= lo <= 0xDFFF && (hi - 0xD800) * 0x400 + (lo - 0xDC00) + 0x1_0000 == cp
  {
  }

  /** The escape of a character in front of a body is read back as its encoding. */
  lemma EscapeRead(cp: nat, rest: Bytes)
    requires Scalar(cp) && cp > 0 && Body(rest)
    ensures Body(EscapeText(cp) + rest)
    ensures UnescapeOne(EscapeText(cp) + rest) == Some((Encode(cp), |EscapeText(cp)|))
  {
    hide HexValue, UnicodeEscape, Encode;
    var p := EscapeText(cp) + rest;
    if ShortEscape(cp) != 0 {
      assert p[0] == BACKSLASH && p[1] == ShortEscape(cp);
      OneElement(EscapeText(cp), rest);
      ShortRead(cp);
    } else if cp < 0x1_0000 {
      UnicodeEscapeRead(cp, rest);
    } else {
      var hi, lo := 0xD800 + (cp - 0x1_0000) / 0x400, 0xDC00 + (cp - 0x1_0000) % 0x400;
      SurrogatesMeet(cp);
      UnicodeEscapeRead(lo, rest);
      UnicodeEscapeRead(hi, UnicodeEscape(lo) + rest);
      assert p == UnicodeEscape(hi) + (UnicodeEscape(lo) + rest);
    }
  }

  lemma ShortRead(cp: nat)
    requires ShortEscape(cp) != 0 && Scalar(cp)
    ensures IsShortEscape(ShortEscape(cp)) && ShortEscape(cp) != 'u' as int && [ShortValue(ShortEscape(cp))] == Encode(cp)
  {
  }

  /** One printed character in front of a body. */
  lemma PrintedRead(cp: nat, rest: Bytes, f: DumpFlags)
    requires Scalar(cp) && cp > 0 && Body(rest)
    ensures Body(Printed(cp, f) + rest)
    ensures Unescape(Printed(cp, f) + rest) == match Unescape(rest) case None => None case Some(r) => Some(Encode(cp) + r)
  {
    hide Encode, EscapeText, UnescapeOne, ElementSize;
    if NeedsEscape(cp, f) {
      EscapeRead(cp, rest);
      EscapeNotEmpty(cp);
      assert (EscapeText(cp) + rest)[|EscapeText(cp)|..] == rest;
    } else {
      PlainBytes(cp);
      RawRun(Encode(cp), rest);
    }
  }

  lemma EscapeNotEmpty(cp: nat)
    requires cp < 0x11_0000
    ensures |EscapeText(cp)| > 0
  {
  }

  lemma PlainBytes(cp: nat)
    requires Scalar(cp) && cp >= 0x20 && cp != 0x22 && cp != 0x5C
    ensures forall k :: 0 <= k < |Encode(cp)| ==> Encode(cp)[k] >= 0x20 && Encode(cp)[k] != QUOTE && Encode(cp)[k] != BACKSLASH
  {
    EncodedBytes(cp);
  }

  lemma {:induction false} PrintedAllRead(cps: seq<nat>, f: DumpFlags)
    requires forall k :: 0 <= k < |cps| ==> Scalar(cps[k]) && cps[k] > 0
    ensures Body(PrintedAll(cps, f)) && Unescape(PrintedAll(cps, f)) == Some(EncodeAll(cps))
  {
    hide Encode, Printed, ElementSize, UnescapeOne;
    if cps != [] {
      PrintedAllRead(cps[1..], f);
      PrintedRead(cps[0], PrintedAll(cps[1..], f), f);
    }
  }

  lemma {:induction false} EndAfterBody(p: Bytes, rest: Bytes)
    requires Body(p)
    ensures StringEnd(p + [QUOTE] + rest) == Some(|p|)
  {
    hide ElementSize;
    var t := p + [QUOTE] + rest;
    if p != [] {
      var n := ElementSize(p);
      ElementInLonger(p, [QUOTE] + rest);
      assert t == p + ([QUOTE] + rest);
      EndAfterBody(p[n..], rest);
      assert t[n..] == p[n..] + [QUOTE] + rest;
    }
  }

  lemma ElementInLonger(p: Bytes, rest: Bytes)
    requires ElementSize(p) > 0
    ensures ElementSize(p + rest) == ElementSize(p) && (p + rest)[0] != QUOTE
  {
  }

  /** The code points of a string without NUL bytes. */
  lemma {:induction false} NoZeros(s: Bytes)
    requires Valid(s) && 0 !in s
    ensures forall k :: 0 <= k < |DecodeAll(s)| ==> DecodeAll(s)[k] > 0
  {
    hide Encode, First;
    if s != [] {
      FirstIsEncoded(s);
      NoZeros(s[First(s).size..]);
      ZeroEncodes();
      assert s[..First(s).size][0] in s;
    }
  }

  lemma ZeroEncodes()
    ensures Encode(0) == [0]
  {
  }

  /** What dump_string prints for a valid string without NUL is scanned up to its own closing quote, and read back as
      the same string, whatever the flags. */
  lemma StringRoundTrip(s: Bytes, rest: Bytes, f: DumpFlags)
    requires Valid(s) && 0 !in s
    ensures var p := PrintedAll(DecodeAll(s), f);
            && Dumped(s, f) == ([QUOTE] + p + [QUOTE], true)
            && StringEnd(p + [QUOTE] + rest) == Some(|p|)
            && Body(p) && Unescape(p) == Some(s)
  {
    hide Encode, Printed, PrintedAll, Dumped;
    DumpedValid(s, f);
    NoZeros(s);
    PrintedAllRead(DecodeAll(s), f);
    DecodeAllEncodes(s);
    EndAfterBody(PrintedAll(DecodeAll(s), f), rest);
  }
}
