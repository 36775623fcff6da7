/** The tokens of load.c as functions of the text that is still to come (sections 2 to 7 of RFC 8259). */
module JsonTokens {
  import opened MachineWords
  import opened Options
  import opened Utf8
  import opened JsonStrings
  import opened JsonLexer

  datatype Token =
    | Invalid
    | EndOfInput
    | Punctuation(c: Byte)
    | Str(s: Bytes)
    | Integer(i: int)
    | Real(digits: Bytes)
    | True
    | False
    | Null

  // Character classes.

  predicate IsBlank(b: Byte) { b == ' ' as int || b == 9 || b == 10 || b == 13 }
  predicate IsDigit(b: Byte) { '0' as int <= b <= '9' as int }
  predicate IsAlpha(b: Byte) { 'A' as int <= b <= 'Z' as int || 'a' as int <= b <= 'z' as int }
  predicate IsPunctuation(b: Byte) {
    b == '{' as int || b == '}' as int || b == '[' as int || b == ']' as int || b == ':' as int || b == ',' as int
  }
  predicate IsExponent(b: Byte) { b == 'E' as int || b == 'e' as int }

  /** How many bytes at the front are of one kind. */
  function Blanks(t: Bytes): (n: nat)
    ensures n <= |t|
  {
    if t != [] && IsBlank(t[0]) then 1 + Blanks(t[1..]) else 0
  }

  function Digits(t: Bytes): (n: nat)
    ensures n <= |t| && forall k :: 0 <= k < n ==> IsDigit(t[k])
  {
    if t != [] && IsDigit(t[0]) then 1 + Digits(t[1..]) else 0
  }

  function Letters(t: Bytes): (n: nat)
    ensures n <= |t|
  {
    if t != [] && IsAlpha(t[0]) then 1 + Letters(t[1..]) else 0
  }

  // Numbers.

  function Decimal(t: Bytes): nat
    requires forall k :: 0 <= k < |t| ==> IsDigit(t[k])
  {
    if t == [] then 0 else
      assert IsDigit(t[|t| - 1]);
      10 * Decimal(t[..|t| - 1]) + (t[|t| - 1] - '0' as int)
  }

  const MAX_INT: int := 0x7fff_ffff_ffff_ffff
  const MIN_INT: int := -0x8000_0000_0000_0000

  /** The value of an optional minus sign and digits, if it fits in 64 bits. */
  function IntegerValue(t: Bytes): Option<int>
    requires t != [] && forall k :: 0 <= k < |t| ==> IsDigit(t[k]) || (k == 0 && t[0] == '-' as int)
  {
    var v := if t[0] == '-' as int then -(Decimal(t[1..]) as int) else Decimal(t);
    if MIN_INT <= v <= MAX_INT then Some(v) else None
  }

  /** The length of sign and integer digits; 0 if they are malformed. */
  function IntegerEnd(t: Bytes): (n: nat)
    ensures n <= |t|
    ensures n > 0 ==> forall k :: 0 <= k < n ==> IsDigit(t[k]) || (k == 0 && t[0] == '-' as int)
  {
    var s := if t != [] && t[0] == '-' as int then 1 else 0;
    if s == |t| || !IsDigit(t[s]) then 0
    else if t[s] == '0' as int then
      if s + 1 < |t| && IsDigit(t[s + 1]) then 0 else s + 1
    else
      var d := Digits(t[s..]);
      assert forall k :: s <= k < s + d ==> t[k] == t[s..][k - s];
      s + d
  }

  /** The length of a fraction, if there is one; none if it is malformed. */
  function FractionEnd(t: Bytes): (n: Option<nat>)
    ensures n.Some? ==> n.value <= |t|
  {
    if t == [] || t[0] != '.' as int then Some(0)
    else if Digits(t[1..]) == 0 then None
    else Some(1 + Digits(t[1..]))
  }

  function ExponentEnd(t: Bytes): (n: Option<nat>)
    ensures n.Some? ==> n.value <= |t|
  {
    if t == [] || !IsExponent(t[0]) then Some(0)
    else
      var s := if |t| > 1 && (t[1] == '+' as int || t[1] == '-' as int) then 2 else 1;
      if Digits(t[s..]) == 0 then None else Some(s + Digits(t[s..]))
  }

  /** The number token at the front and its length. */
  function ScanNumber(t: Bytes): (r: (Token, nat))
    ensures r.1 <= |t|
    ensures r.0 != Invalid ==> r.1 > 0
  {
    var n := IntegerEnd(t);
    if n == 0 then (Invalid, 0)
    else if n == |t| || (t[n] != '.' as int && !IsExponent(t[n])) then
      assert forall k :: 0 <= k < n ==> t[..n][k] == t[k];
      match IntegerValue(t[..n])
      case None => (Invalid, 0)
      case Some(v) => (Integer(v), n)
    else
      match FractionEnd(t[n..])
      case None => (Invalid, 0)
      case Some(f) =>
        match ExponentEnd(t[n + f..])
        case None => (Invalid, 0)
        case Some(e) => (Real(t[..n + f + e]), n + f + e)
  }

  // Words.

  const TRUE: Bytes := ['t' as int, 'r' as int, 'u' as int, 'e' as int]
  const FALSE: Bytes := ['f' as int, 'a' as int, 'l' as int, 's' as int, 'e' as int]
  const NULL: Bytes := ['n' as int, 'u' as int, 'l' as int, 'l' as int]

  function WordToken(w: Bytes): Token {
    if w == TRUE then True else if w == FALSE then False else if w == NULL then Null else Invalid
  }

  // One token.

  /** The string token after an opening quote, and how many bytes it takes with its closing quote. */
  function ScanString(t: Bytes): (r: (Token, nat))
    ensures r.1 <= |t|
  {
    match StringEnd(t)
    case None => (Invalid, 0)
    case Some(k) =>
      BodyUpToEnd(t);
      match Unescape(t[..k])
      case None => (Invalid, 0)
      case Some(s) => (Str(s), k + 1)
  }

  /** The token at the front of a text that starts with no blank, and its length. */
  function Token1(t: Bytes): (r: (Token, nat))
    requires t != []
    ensures r.1 <= |t|
    ensures r.0 != Invalid ==> r.1 > 0
  {
    var c := t[0];
    if IsPunctuation(c) then (Punctuation(c), 1)
    else if c == QUOTE then
      var r := ScanString(t[1..]);
      if r.0 == Invalid then (Invalid, 0) else (r.0, 1 + r.1)
    else if IsDigit(c) || c == '-' as int then ScanNumber(t)
    else if IsAlpha(c) then
      var n := Letters(t);
      if WordToken(t[..n]) == Invalid then (Invalid, 0) else (WordToken(t[..n]), n)
    else (Invalid, 0)
  }

  /** The next token and what is left after it; after an invalid token nothing is said about the rest. */
  function Scan(i: In): (r: (Token, In))
    ensures r.0 != Invalid && r.0 != EndOfInput ==> |r.1.text| < |i.text|
    ensures |r.1.text| <= |i.text|
  {
    var t := i.text[Blanks(i.text)..];
    if t == [] then (if i.bad then Invalid else EndOfInput, In([], i.bad))
    else
      var r := Token1(t);
      (r.0, In(t[r.1..], i.bad))
  }
}
