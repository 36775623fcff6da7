/** The grammar of JSON texts (RFC 8259), said once without lexer or parser: which bytes denote which value. */
module JsonGrammar {
  import opened MachineWords
  import opened Options
  import opened Utf8
  import opened JsonParser

  // Literals, white space and numbers, sections 2, 3 and 6.

  function Ascii(s: string): Bytes
    requires forall k :: 0 <= k < |s| ==> s[k] as int < 0x80
  {
    seq(|s|, k requires 0 <= k < |s| => s[k] as int)
  }

  predicate Blank(t: Bytes) {
    forall k :: 0 <= k < |t| ==> t[k] == 0x20 || t[k] == 0x09 || t[k] == 0x0A || t[k] == 0x0D
  }

  predicate Digit(b: Byte) { 0x30 <= b <= 0x39 }

  predicate Letter(b: Byte) { 0x41 <= b <= 0x5A || 0x61 <= b <= 0x7A }

  predicate DigitsOnly(t: Bytes) { t != [] && forall k :: 0 <= k < |t| ==> Digit(t[k]) }

  /** Digits without a leading zero, after an optional minus sign. */
  predicate WholeNumber(t: Bytes) {
    var d := if t != [] && t[0] == 0x2D then t[1..] else t;
    DigitsOnly(d) && (d[0] == 0x30 ==> |d| == 1)
  }

  function NumberOf(t: Bytes): int {
    if t == [] then 0 else 10 * NumberOf(t[..|t| - 1]) + (t[|t| - 1] as int - 0x30)
  }

  function WholeValue(t: Bytes): int {
    if t != [] && t[0] == 0x2D then -NumberOf(t[1..]) else NumberOf(t)
  }

  predicate Fraction(t: Bytes) { t == [] || (t[0] == 0x2E && DigitsOnly(t[1..])) }

  predicate Exponent(t: Bytes) {
    t == [] || ((t[0] == 0x45 || t[0] == 0x65) && (DigitsOnly(t[1..]) || (|t| > 1 && (t[1] == 0x2B || t[1] == 0x2D) && DigitsOnly(t[2..]))))
  }

  /** A number with a fraction, an exponent or both. */
  ghost predicate RealNumber(t: Bytes) { exists i, j :: RealParts(t, i, j) }

  predicate RealParts(t: Bytes, i: int, j: int) {
    0 < i <= j <= |t| && i < |t| && WholeNumber(t[..i]) && Fraction(t[i..j]) && Exponent(t[j..])
  }

  // Strings, section 7.

  function Nibble(b: Byte): Option<nat> {
    if 0x30 <= b <= 0x39 then Some(b - 0x30)
    else if 0x41 <= b <= 0x46 then Some(b - 0x41 + 10)
    else if 0x61 <= b <= 0x66 then Some(b - 0x61 + 10)
    else None
  }

  /** The value of an escape of a backslash, the letter u and four hexadecimal digits at the front of p. */
  function UnicodeValue(p: Bytes): (v: Option<nat>)
    ensures v.Some? ==> v.value < 0x1_0000
  {
    if |p| < 6 || p[0] != 0x5C || p[1] != 0x75 then None
    else
      match (Nibble(p[2]), Nibble(p[3]), Nibble(p[4]), Nibble(p[5]))
      case (Some(a), Some(b), Some(c), Some(d)) => if a < 16 && b < 16 && c < 16 && d < 16 then Some(0x1000 * a + 0x100 * b + 0x10 * c + d) else None
      case _ => None
  }

  /** What a backslash and one letter stand for. */
  function LetterValue(b: Byte): Option<Byte> {
    if b == 0x22 then Some(0x22) else if b == 0x5C then Some(0x5C) else if b == 0x2F then Some(0x2F)
    else if b == 0x62 then Some(0x08) else if b == 0x66 then Some(0x0C) else if b == 0x6E then Some(0x0A)
    else if b == 0x72 then Some(0x0D) else if b == 0x74 then Some(0x09)
    else None
  }

  /** The text p between quotes denotes the string s.  Escapes of surrogates must form a pair, and none may be zero. */
  predicate Chars(p: Bytes, s: Bytes)
    decreases |p|
  {
    if p == [] then s == []
    else if p[0] != 0x5C then
      p[0] >= 0x20 && p[0] != 0x22 && s != [] && s[0] == p[0] && Chars(p[1..], s[1..])
    else if |p| < 2 then false
    else if p[1] != 0x75 then
      LetterValue(p[1]).Some? && s != [] && s[0] == LetterValue(p[1]).value && Chars(p[2..], s[1..])
    else
      match UnicodeValue(p)
      case None => false
      case Some(v) =>
        if 0xD800 <= v <= 0xDBFF then
          match UnicodeValue(p[6..])
          case None => false
          case Some(w) => 0xDC00 <= w <= 0xDFFF && Starts(s, 0x1_0000 + (v - 0xD800) * 0x400 + (w - 0xDC00), p[12..])
        else
          v != 0 && !(0xDC00 <= v <= 0xDFFF) && Starts(s, v, p[6..])
  }

  /** s starts with the encoding of cp, and rest denotes what follows. */
  predicate Starts(s: Bytes, cp: nat, rest: Bytes)
    decreases |rest| + 1
  {
    0 <= cp < 0x11_0000 && |Encode(cp)| <= |s| && s[..|Encode(cp)|] == Encode(cp) && Chars(rest, s[|Encode(cp)|..])
  }

  // Values, sections 3, 4 and 5.

  predicate Enclosed(t: Bytes, open: Byte, close: Byte) { |t| >= 2 && t[0] == open && t[|t| - 1] == close }

  function Inner(t: Bytes): Bytes
    requires |t| >= 2
  {
    t[1..|t| - 1]
  }

  ghost predicate Denotes(t: Bytes, v: Json, f: ParseFlags)
    decreases |t|, 1
  {
    match v
    case JNull => t == Ascii("null")
    case JTrue => t == Ascii("true")
    case JFalse => t == Ascii("false")
    case JInteger(i) => WholeNumber(t) && WholeValue(t) == i && -0x8000_0000_0000_0000 <= i < 0x8000_0000_0000_0000
    case JReal(digits) => RealNumber(t) && digits == t
    case JString(s) => Enclosed(t, 0x22, 0x22) && Chars(Inner(t), s)
    case JArray(elems) =>
      Enclosed(t, 0x5B, 0x5D) && if elems == [] then Blank(Inner(t)) else Elements(Inner(t), elems, f)
    case JObject(ms) => Enclosed(t, 0x7B, 0x7D) && exists ps: seq<Member> :: ObjectText(t, ps, ms, f)
  }

  /** The pairs of the text, in its order, and the object they make. */
  ghost predicate ObjectText(t: Bytes, ps: seq<Member>, ms: seq<Member>, f: ParseFlags)
    requires |t| >= 2
    decreases |t|, 0
  {
    && Collected(ps, ms)
    && (f.rejectDuplicates ==> Distinct(ps))
    && if ps == [] then Blank(Inner(t)) else Pairs(Inner(t), ps, f)
  }

  ghost predicate Distinct(ps: seq<Member>) { forall i, j :: 0 <= i < j < |ps| ==> ps[i].key != ps[j].key }

  /** A value with blanks around it. */
  ghost predicate Around(t: Bytes, v: Json, f: ParseFlags)
    decreases |t|, 3
  {
    exists i, j :: AroundAt(t, i, j, v, f)
  }

  ghost predicate AroundAt(t: Bytes, i: int, j: int, v: Json, f: ParseFlags)
    decreases |t|, 2
  {
    0 <= i <= j <= |t| && Blank(t[..i]) && Blank(t[j..]) && Denotes(t[i..j], v, f)
  }

  /** Values separated by commas. */
  ghost predicate Elements(t: Bytes, elems: seq<Json>, f: ParseFlags)
    requires elems != []
    decreases |t|, 5
  {
    exists k :: ElementFirst(t, k, elems, f)
  }

  ghost predicate ElementFirst(t: Bytes, k: int, elems: seq<Json>, f: ParseFlags)
    requires elems != []
    decreases |t|, 4
  {
    && 0 <= k <= |t| && Around(t[..k], elems[0], f)
    && if |elems| == 1 then k == |t| else k < |t| && t[k] == 0x2C && Elements(t[k + 1..], elems[1..], f)
  }

  /** Pairs of a string, a colon and a value, separated by commas. */
  ghost predicate Pairs(t: Bytes, ps: seq<Member>, f: ParseFlags)
    requires ps != []
    decreases |t|, 5
  {
    exists k, c :: PairFirst(t, k, c, ps, f)
  }

  ghost predicate PairFirst(t: Bytes, k: int, c: int, ps: seq<Member>, f: ParseFlags)
    requires ps != []
    decreases |t|, 4
  {
    && 0 <= c < k <= |t| && Around(t[..c], JString(ps[0].key), f) && t[c] == 0x3A && Around(t[c + 1..k], ps[0].value, f)
    && if |ps| == 1 then k == |t| else k < |t| && t[k] == 0x2C && Pairs(t[k + 1..], ps[1..], f)
  }

  /** The text behind t does not go on with the number or word that t is. */
  predicate Ended(t: Bytes, rest: Bytes) {
    rest == [] || t == [] ||
    if Letter(t[0]) then !Letter(rest[0])
    else if Digit(t[0]) || t[0] == 0x2D then
      && !Digit(rest[0])
      && (rest[0] == 0x2E ==> HasByte(t, 0x2E) || HasByte(t, 0x45) || HasByte(t, 0x65))
      && (rest[0] == 0x45 || rest[0] == 0x65 ==> HasByte(t, 0x45) || HasByte(t, 0x65))
    else true
  }

  predicate HasByte(t: Bytes, b: Byte) { exists k :: 0 <= k < |t| && t[k] == b }

  // Repeated keys: the object has each key once, where it came first, with the value that came last.

  ghost predicate Collected(ps: seq<Member>, ms: seq<Member>) {
    && Rising(ms)
    && (forall i :: 0 <= i < |ms| ==> FromPairs(ps, ms[i]))
    && (forall a :: 0 <= a < |ps| ==> HasKey(ms, ps[a].key))
  }

  ghost predicate Rising(ms: seq<Member>) { forall i, j :: 0 <= i < j < |ms| ==> ms[i].serial < ms[j].serial }

  ghost predicate FromPairs(ps: seq<Member>, m: Member) {
    exists a: nat, b: nat :: FirstAndLast(ps, m.key, a, b) && m.serial == a && m.value == ps[b].value
  }

  /** a is the first and b the last place of the key. */
  ghost predicate FirstAndLast(ps: seq<Member>, key: Bytes, a: nat, b: nat) {
    && a <= b < |ps| && ps[a].key == ps[b].key == key
    && (forall i :: 0 <= i < a ==> ps[i].key != key)
    && (forall i :: b < i < |ps| ==> ps[i].key != key)
  }

  /** A whole text. */
  ghost predicate TextDenotes(data: Bytes, v: Json, f: ParseFlags) {
    Valid(data) && (f.decodeAny || v.JArray? || v.JObject?) && Around(data, v, f)
  }
}
