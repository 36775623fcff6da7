/** JSON values and the parser of load.c. */
module JsonParser {
  import opened Options
  import opened Utf8
  import opened JsonLexer
  import opened JsonTokens
  import opened JsonScanner

  datatype Json =
    | JNull
    | JTrue
    | JFalse
    | JInteger(i: int)
    | JReal(digits: Bytes)
    | JString(s: Bytes)
    | JArray(elems: seq<Json>)
    | JObject(members: seq<Member>)

  /** A pair of an object, with the number that tells in which order pairs were added. */
  datatype Member = Member(key: Bytes, serial: nat, value: Json)

  datatype ParseFlags = ParseFlags(rejectDuplicates: bool, decodeAny: bool, disableEofCheck: bool)

  function KeyAt(ms: seq<Member>, key: Bytes): Option<nat> {
    if ms == [] then None
    else if ms[|ms| - 1].key == key then Some(|ms| - 1)
    else KeyAt(ms[..|ms| - 1], key)
  }

  predicate HasKey(ms: seq<Member>, key: Bytes) { exists k :: 0 <= k < |ms| && ms[k].key == key }

  lemma KeyAtFinds(ms: seq<Member>, key: Bytes)
    ensures match KeyAt(ms, key)
            case None => !HasKey(ms, key)
            case Some(k) => k < |ms| && ms[k].key == key
  {
    if ms != [] && ms[|ms| - 1].key != key { KeyAtFinds(ms[..|ms| - 1], key); }
  }

  /** A new key goes to the end; the value of a key that is there is replaced. */
  function SetMember(ms: seq<Member>, key: Bytes, serial: nat, value: Json): seq<Member> {
    match KeyAt(ms, key)
    case None => ms + [Member(key, serial, value)]
    case Some(k) =>
      KeyAtFinds(ms, key);
      ms[k := ms[k].(value := value)]
  }

  const OPEN_BRACE: Token := Punctuation('{' as int)
  const CLOSE_BRACE: Token := Punctuation('}' as int)
  const OPEN_BRACKET: Token := Punctuation('[' as int)
  const CLOSE_BRACKET: Token := Punctuation(']' as int)
  const COLON: Token := Punctuation(':' as int)
  const COMMA: Token := Punctuation(',' as int)

  // The grammar, on what is left of the text.

  function ParseValue(t: Token, i: In, f: ParseFlags): (r: Option<(Json, In)>)
    ensures r.Some? ==> |r.value.1.text| <= |i.text|
    decreases |i.text|, 1
  {
    if t.Str? then Some((JString(t.s), i))
    else if t.Integer? then Some((JInteger(t.i), i))
    else if t.Real? then Some((JReal(t.digits), i))
    else if t == True then Some((JTrue, i))
    else if t == False then Some((JFalse, i))
    else if t == Null then Some((JNull, i))
    else if t == OPEN_BRACE then ParseObject(i, f)
    else if t == OPEN_BRACKET then ParseArray(i, f)
    else None
  }

  function ParseArray(i: In, f: ParseFlags): (r: Option<(Json, In)>)
    ensures r.Some? ==> |r.value.1.text| <= |i.text|
    decreases |i.text|, 0
  {
    var (t, j) := Scan(i);
    if t == CLOSE_BRACKET then Some((JArray([]), j))
    else if t == Invalid || t == EndOfInput then None
    else ParseElements(t, j, [], f)
  }

  function ParseElements(t: Token, i: In, elems: seq<Json>, f: ParseFlags): (r: Option<(Json, In)>)
    ensures r.Some? ==> |r.value.1.text| <= |i.text|
    decreases |i.text|, 2
  {
    match ParseValue(t, i, f)
    case None => None
    case Some(p) =>
      var (u, j) := Scan(p.1);
      if u == COMMA then
        var (v, k) := Scan(j);
        ParseElements(v, k, elems + [p.0], f)
      else if u == CLOSE_BRACKET then Some((JArray(elems + [p.0]), j))
      else None
  }

  function ParseObject(i: In, f: ParseFlags): (r: Option<(Json, In)>)
    ensures r.Some? ==> |r.value.1.text| <= |i.text|
    decreases |i.text|, 0
  {
    var (t, j) := Scan(i);
    if t == CLOSE_BRACE then Some((JObject([]), j))
    else if t == Invalid || t == EndOfInput then None
    else ParseMembers(t, j, [], 0, f)
  }

  function ParseMembers(t: Token, i: In, ms: seq<Member>, serial: nat, f: ParseFlags): (r: Option<(Json, In)>)
    ensures r.Some? ==> |r.value.1.text| <= |i.text|
    decreases |i.text|, 2
  {
    if !t.Str? then None
    else if f.rejectDuplicates && KeyAt(ms, t.s).Some? then None
    else
      var (u, j) := Scan(i);
      if u != COLON then None
      else
        var (v, k) := Scan(j);
        match ParseValue(v, k, f)
        case None => None
        case Some(p) =>
          var more := SetMember(ms, t.s, serial, p.0);
          var (w, l) := Scan(p.1);
          if w == COMMA then
            var (x, m) := Scan(l);
            ParseMembers(x, m, more, serial + 1, f)
          else if w == CLOSE_BRACE then Some((JObject(more), l))
          else None
  }

  function ParseJson(i: In, f: ParseFlags): Option<Json> {
    var (t, j) := Scan(i);
    if !f.decodeAny && t != OPEN_BRACKET && t != OPEN_BRACE then None
    else
      match ParseValue(t, j, f)
      case None => None
      case Some(p) =>
        if !f.disableEofCheck && Scan(p.1).0 != EndOfInput then None else Some(p.0)
  }

  // The program's functions, driving the lexer. The text that was left when the current token had been scanned is i.

  /** Token and text agree with what is left in the lexer; after an invalid token the text is not known. */
  ghost predicate Holds(lex: Lexer, i: In)
    reads lex, lex.stream, lex.stream.buffer
  {
    lex.stream.Valid() && (lex.token != Invalid ==> lex.stream.Left() == i)
  }

  /** The result of a parsing function in terms of the grammar. */
  ghost predicate Agrees(lex: Lexer, r: Option<Json>, spec: Option<(Json, In)>)
    reads lex, lex.stream, lex.stream.buffer
  {
    && lex.stream.Valid()
    && r == (match spec case None => None case Some(p) => Some(p.0))
    && (spec.Some? ==> lex.stream.Left() == spec.value.1)
  }

  method NextToken(lex: Lexer, ghost i: In) returns (ghost j: In)
    requires lex.stream.Valid() && lex.stream.Left() == i
    modifies lex`saved, lex`token, lex.stream, lex.stream.buffer
    ensures lex.token == Scan(i).0 && j == Scan(i).1 && Holds(lex, j)
  {
    lex.Scan();
    j := Scan(i).1;
  }

  method ValueOf(lex: Lexer, f: ParseFlags, ghost i: In) returns (r: Option<Json>)
    requires Holds(lex, i)
    modifies lex`saved, lex`token, lex.stream, lex.stream.buffer
    ensures Agrees(lex, r, ParseValue(old(lex.token), i, f))
    decreases |i.text|, 1
  {
    hide ParseArray, ParseObject;
    match lex.token {
      case Str(s) => r := Some(JString(s));
      case Integer(n) => r := Some(JInteger(n));
      case Real(digits) => r := Some(JReal(digits));
      case True => r := Some(JTrue);
      case False => r := Some(JFalse);
      case Null => r := Some(JNull);
      case Punctuation(c) =>
        if c == '{' as int {
          r := ObjectOf(lex, f, i);
        } else if c == '[' as int {
          r := ArrayOf(lex, f, i);
        } else {
          r := None;
        }
      case Invalid => r := None;
      case EndOfInput => r := None;
    }
  }

  method ArrayOf(lex: Lexer, f: ParseFlags, ghost i: In) returns (r: Option<Json>)
    requires Holds(lex, i) && lex.token == OPEN_BRACKET
    modifies lex`saved, lex`token, lex.stream, lex.stream.buffer
    ensures Agrees(lex, r, ParseArray(i, f))
    decreases |i.text|, 0
  {
    hide ParseValue, ParseElements, Scan;
    ghost var j := NextToken(lex, i);
    if lex.token == CLOSE_BRACKET { return Some(JArray([])); }
    ScanShrinks(i);
    if lex.token == Invalid || lex.token == EndOfInput { return None; }
    var elems: seq<Json> := [];
    while lex.token != EndOfInput
      invariant Holds(lex, j) && |j.text| < |i.text|
      invariant ParseArray(i, f) == ParseElements(lex.token, j, elems, f)
      decreases |j.text|
    {
      ghost var t, start := lex.token, j;
      ElementsStep(t, start, elems, f);
      var elem := ValueOf(lex, f, j);
      if elem.None? { return None; }
      j := ParseValue(t, start, f).value.1;
      ScanShrinks(j);
      j := NextToken(lex, j);
      elems := elems + [elem.value];
      if lex.token != COMMA { break; }
      ScanShrinks(j);
      j := NextToken(lex, j);
    }
    NoElementAtEnd(j, elems, f);
    if lex.token != CLOSE_BRACKET { return None; }
    return Some(JArray(elems));
  }

  lemma ScanShrinks(i: In)
    ensures var (t, j) := Scan(i); |j.text| <= |i.text| && (t != Invalid && t != EndOfInput ==> |j.text| < |i.text|)
  {
  }

  lemma NoElementAtEnd(i: In, elems: seq<Json>, f: ParseFlags)
    ensures ParseElements(EndOfInput, i, elems, f) == None
  {
  }

  lemma ElementsStep(t: Token, i: In, elems: seq<Json>, f: ParseFlags)
    ensures match ParseValue(t, i, f)
            case None => ParseElements(t, i, elems, f) == None
            case Some(p) =>
              var (u, j) := Scan(p.1);
              && |p.1.text| <= |i.text|
              && ParseElements(t, i, elems, f) ==
                 if u == COMMA then ParseElements(Scan(j).0, Scan(j).1, elems + [p.0], f)
                 else if u == CLOSE_BRACKET then Some((JArray(elems + [p.0]), j))
                 else None
  {
    hide ParseValue, Scan;
  }

  method ObjectOf(lex: Lexer, f: ParseFlags, ghost i: In) returns (r: Option<Json>)
    requires Holds(lex, i) && lex.token == OPEN_BRACE
    modifies lex`saved, lex`token, lex.stream, lex.stream.buffer
    ensures Agrees(lex, r, ParseObject(i, f))
    decreases |i.text|, 0
  {
    hide ParseValue, ParseMembers, Scan, SetMember;
    ghost var j := NextToken(lex, i);
    if lex.token == CLOSE_BRACE { return Some(JObject([])); }
    ScanShrinks(i);
    MembersNeedKey(j, f);
    var ms: seq<Member> := [];
    var serial := 0;
    while true
      invariant Holds(lex, j) && (|j.text| < |i.text| || !lex.token.Str?)
      invariant ParseObject(i, f) == ParseMembers(lex.token, j, ms, serial, f)
      decreases |j.text|
    {
      MembersStep(lex.token, j, ms, serial, f);
      if !lex.token.Str? { return None; }
      var key := lex.token.s;
      if f.rejectDuplicates && KeyAt(ms, key).Some? { return None; }
      ghost var start := j;
      ScanShrinks(j);
      j := NextToken(lex, j);
      if lex.token != COLON { return None; }
      ScanShrinks(j);
      j := NextToken(lex, j);
      ghost var t, from := lex.token, j;
      var value := ValueOf(lex, f, j);
      if value.None? { return None; }
      j := ParseValue(t, from, f).value.1;
      ms := SetMember(ms, key, serial, value.value);
      serial := serial + 1;
      ScanShrinks(j);
      j := NextToken(lex, j);
      if lex.token != COMMA { break; }
      ScanShrinks(j);
      j := NextToken(lex, j);
    }
    if lex.token != CLOSE_BRACE { return None; }
    return Some(JObject(ms));
  }

  /** Where no key follows, an object cannot go on. */
  lemma MembersNeedKey(i: In, f: ParseFlags)
    ensures ParseMembers(Invalid, i, [], 0, f) == None && ParseMembers(EndOfInput, i, [], 0, f) == None
  {
  }

  lemma MembersStep(t: Token, i: In, ms: seq<Member>, serial: nat, f: ParseFlags)
    ensures ParseMembers(t, i, ms, serial, f) ==
            if !t.Str? || (f.rejectDuplicates && KeyAt(ms, t.s).Some?) then None
            else
              var (u, j) := Scan(i);
              if u != COLON then None
              else
                match ParseValue(Scan(j).0, Scan(j).1, f)
                case None => None
                case Some(p) =>
                  var more := SetMember(ms, t.s, serial, p.0);
                  var (w, l) := Scan(p.1);
                  if w == COMMA then ParseMembers(Scan(l).0, Scan(l).1, more, serial + 1, f)
                  else if w == CLOSE_BRACE then Some((JObject(more), l))
                  else None
    ensures ParseValue(Scan(Scan(i).1).0, Scan(Scan(i).1).1, f).Some? ==>
              |ParseValue(Scan(Scan(i).1).0, Scan(Scan(i).1).1, f).value.1.text| <= |Scan(Scan(i).1).1.text|
  {
    hide ParseValue, Scan, SetMember;
  }

  /** parse_json on a text held in memory, as json_loads runs it. */
  method JsonLoads(data: Bytes, f: ParseFlags) returns (r: Option<Json>)
    requires 0 !in data
    ensures r == ParseJson(Front(data), f)
  {
    hide ParseValue, Scan;
    var lex := new Lexer(data);
    ghost var i := Front(data);
    ghost var j := NextToken(lex, i);
    if !f.decodeAny {
      if lex.token != OPEN_BRACKET && lex.token != OPEN_BRACE { return None; }
    }
    ghost var t := lex.token;
    r := ValueOf(lex, f, j);
    if r.None? { return None; }
    if !f.disableEofCheck {
      j := NextToken(lex, ParseValue(t, j, f).value.1);
      if lex.token != EndOfInput { return None; }
    }
  }
}
