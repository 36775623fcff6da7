/** The printer of dump.c. */
module JsonDump {
  import opened Options
  import opened Utf8
  import opened JsonStrings
  import opened JsonTokens
  import opened JsonParser

  // Integers in decimal.

  function DigitsOf(n: nat): (b: Bytes)
    ensures |b| >= 1
  {
    if n < 10 then [n + '0' as int] else DigitsOf(n / 10) + [n % 10 + '0' as int]
  }

  function IntegerText(i: int): (b: Bytes)
    ensures |b| >= 1
  {
    if i < 0 then ['-' as int] + DigitsOf(-i) else DigitsOf(i)
  }

  // The order in which the pairs of an object are printed.

  /** strcmp(a, b) < 0. */
  predicate Before(a: Bytes, b: Bytes) {
    if b == [] then false
    else if a == [] then true
    else a[0] < b[0] || (a[0] == b[0] && Before(a[1..], b[1..]))
  }

  /** Whether a goes before b in the chosen order. */
  predicate Precedes(a: Member, b: Member, byKey: bool) {
    if byKey then Before(a.key, b.key) else a.serial < b.serial
  }

  function Insert(m: Member, ms: seq<Member>, byKey: bool): (r: seq<Member>)
    ensures |r| == |ms| + 1
  {
    if ms == [] || Precedes(m, ms[0], byKey) then [m] + ms else [ms[0]] + Insert(m, ms[1..], byKey)
  }

  function Sorted(ms: seq<Member>, byKey: bool): (r: seq<Member>)
    ensures |r| == |ms|
  {
    if ms == [] then [] else Insert(ms[0], Sorted(ms[1..], byKey), byKey)
  }

  /** Sorted by key or by serial number if asked for, otherwise as the table holds them. */
  function Ordered(ms: seq<Member>, f: DumpFlags): (r: seq<Member>)
    ensures |r| == |ms|
  {
    if f.sortKeys then Sorted(ms, true) else if f.preserveOrder then Sorted(ms, false) else ms
  }

  lemma {:induction false} SortedSame(ms: seq<Member>, byKey: bool)
    ensures multiset(Sorted(ms, byKey)) == multiset(ms)
  {
    if ms != [] {
      SortedSame(ms[1..], byKey);
      InsertSame(ms[0], Sorted(ms[1..], byKey), byKey);
      assert ms == [ms[0]] + ms[1..];
    }
  }

  lemma {:induction false} InsertSame(m: Member, ms: seq<Member>, byKey: bool)
    ensures multiset(Insert(m, ms, byKey)) == multiset(ms) + multiset{m}
  {
    if ms != [] && !Precedes(m, ms[0], byKey) {
      InsertSame(m, ms[1..], byKey);
      assert ms == [ms[0]] + ms[1..];
    }
  }

  /** No pair of a sorted list belongs before an earlier one. */
  ghost predicate InOrder(ms: seq<Member>, byKey: bool) {
    forall i, j :: 0 <= i < j < |ms| ==> !Precedes(ms[j], ms[i], byKey)
  }

  lemma {:induction false} SortedInOrder(ms: seq<Member>, byKey: bool)
    ensures InOrder(Sorted(ms, byKey), byKey)
  {
    if ms != [] {
      SortedInOrder(ms[1..], byKey);
      InsertInOrder(ms[0], Sorted(ms[1..], byKey), byKey);
    }
  }

  lemma {:induction false} InsertInOrder(m: Member, ms: seq<Member>, byKey: bool)
    requires InOrder(ms, byKey)
    ensures InOrder(Insert(m, ms, byKey), byKey)
  {
    var r := Insert(m, ms, byKey);
    if ms == [] {
    } else if Precedes(m, ms[0], byKey) {
      forall i, j | 0 <= i < j < |r| ensures !Precedes(r[j], r[i], byKey) {
        BeforeIrreflexive(ms[0].key);
        if i == 0 { PrecedesSkips(m, ms[0], ms[j - 1], byKey); }
      }
    } else {
      InsertInOrder(m, ms[1..], byKey);
      InsertSame(m, ms[1..], byKey);
      forall i, j | 0 <= i < j < |r| ensures !Precedes(r[j], r[i], byKey) {
        if i == 0 {
          var x := Insert(m, ms[1..], byKey)[j - 1];
          assert x in multiset(Insert(m, ms[1..], byKey));
          assert x == m || x in ms[1..];
        }
      }
    }
  }

  /** What precedes a does not come after something that a precedes or equals. */
  lemma PrecedesSkips(m: Member, a: Member, b: Member, byKey: bool)
    requires Precedes(m, a, byKey) && !Precedes(b, a, byKey)
    ensures !Precedes(b, m, byKey)
  {
    if byKey && Before(b.key, m.key) { BeforeTransitive(b.key, m.key, a.key); }
  }

  lemma BeforeIrreflexive(a: Bytes)
    ensures !Before(a, a)
  {
    if a != [] { BeforeIrreflexive(a[1..]); }
  }

  lemma BeforeTransitive(a: Bytes, b: Bytes, c: Bytes)
    requires Before(a, b) && Before(b, c)
    ensures Before(a, c)
  {
    if a != [] && b != [] && c != [] && a[0] == b[0] == c[0] { BeforeTransitive(a[1..], b[1..], c[1..]); }
  }

  // What is printed, and whether printing succeeds.

  function Spaces(n: nat): (b: Bytes)
    ensures |b| == n
  {
    seq(n, _ => ' ' as int)
  }

  function Repeated(b: Bytes, n: nat): Bytes { if n == 0 then [] else Repeated(b, n - 1) + b }

  /** A new line, indented; or a space if one is wanted and output is not compact. */
  function Indent(f: DumpFlags, depth: nat, space: bool): Bytes {
    if f.indent > 0 then [10] + Repeated(Spaces(f.indent), depth)
    else if space && !f.compact then [' ' as int]
    else []
  }

  function Separator(f: DumpFlags): Bytes { if f.compact then [':' as int] else [':' as int, ' ' as int] }

  /** What comes after element k of n: a comma and a new line, or only a new line after the last. */
  function After(f: DumpFlags, depth: nat, last: bool): Bytes {
    if last then Indent(f, depth, false) else [',' as int] + Indent(f, depth + 1, true)
  }

  /** The number of values and pairs in a value. */
  function Size(v: Json): (n: nat)
    ensures n >= 1
    decreases v, 0
  {
    match v
    case JArray(elems) => 1 + SizeOfAll(elems)
    case JObject(ms) => 1 + SizeOfMembers(ms)
    case _ => 1
  }

  function SizeOfAll(elems: seq<Json>): nat
    decreases elems, 0
  {
    if elems == [] then 0 else
      Size(elems[0]) + SizeOfAll(elems[1..])
  }

  function SizeOfMembers(ms: seq<Member>): nat
    decreases ms, 0
  {
    if ms == [] then 0 else
      Size(ms[0].value) + 1 + SizeOfMembers(ms[1..])
  }

  lemma {:induction false} SizeOfSorted(ms: seq<Member>, byKey: bool)
    ensures SizeOfMembers(Sorted(ms, byKey)) == SizeOfMembers(ms)
  {
    if ms != [] {
      SizeOfSorted(ms[1..], byKey);
      SizeOfInsert(ms[0], Sorted(ms[1..], byKey), byKey);
    }
  }

  lemma {:induction false} SizeOfInsert(m: Member, ms: seq<Member>, byKey: bool)
    ensures SizeOfMembers(Insert(m, ms, byKey)) == SizeOfMembers(ms) + Size(m.value) + 1
  {
    hide Size, Precedes;
    var r := Insert(m, ms, byKey);
    if ms == [] || Precedes(m, ms[0], byKey) {
      assert r[1..] == ms;
    } else {
      SizeOfInsert(m, ms[1..], byKey);
      assert r[1..] == Insert(m, ms[1..], byKey);
    }
  }

  lemma SizeOfOrdered(ms: seq<Member>, f: DumpFlags)
    ensures SizeOfMembers(Ordered(ms, f)) == SizeOfMembers(ms)
  {
    SizeOfSorted(ms, true);
    SizeOfSorted(ms, false);
  }

  /** do_dump: what it puts out, and whether it succeeds. */
  function Dump(v: Json, f: DumpFlags, depth: nat): (r: (Bytes, bool))
    decreases Size(v), 0
  {
    match v
    case JNull => (NULL, true)
    case JTrue => (TRUE, true)
    case JFalse => (FALSE, true)
    case JInteger(i) => (IntegerText(i), true)
    case JReal(digits) => (digits, true)
    case JString(s) => Dumped(s, f)
    case JArray(elems) =>
      if elems == [] then (['[' as int, ']' as int], true)
      else
        var e := DumpElements(elems, f, depth);
        (['[' as int] + Indent(f, depth + 1, false) + e.0 + (if e.1 then [']' as int] else []), e.1)
    case JObject(ms) =>
      if ms == [] then (['{' as int, '}' as int], true)
      else
        SizeOfOrdered(ms, f);
        var e := DumpMembers(Ordered(ms, f), f, depth);
        (['{' as int] + Indent(f, depth + 1, false) + e.0 + (if e.1 then ['}' as int] else []), e.1)
  }

  function DumpElements(elems: seq<Json>, f: DumpFlags, depth: nat): (r: (Bytes, bool))
    requires elems != []
    decreases SizeOfAll(elems), 1
  {
    var r := Dump(elems[0], f, depth + 1);
    if !r.1 then r
    else if |elems| == 1 then (r.0 + After(f, depth, true), true)
    else
      var rest := DumpElements(elems[1..], f, depth);
      (r.0 + After(f, depth, false) + rest.0, rest.1)
  }

  /** A key, the separator and the value; whether the key could be printed is not looked at. */
  function DumpPair(m: Member, f: DumpFlags, depth: nat): (r: (Bytes, bool))
    decreases Size(m.value), 1
  {
    var r := Dump(m.value, f, depth + 1);
    (Dumped(m.key, f).0 + Separator(f) + r.0, r.1)
  }

  function DumpMembers(ms: seq<Member>, f: DumpFlags, depth: nat): (r: (Bytes, bool))
    requires ms != []
    decreases SizeOfMembers(ms), 1
  {
    var r := DumpPair(ms[0], f, depth);
    if !r.1 then r
    else if |ms| == 1 then (r.0 + After(f, depth, true), true)
    else
      var rest := DumpMembers(ms[1..], f, depth);
      (r.0 + After(f, depth, false) + rest.0, rest.1)
  }

  // When printing succeeds.

  /** Every string that is a value is UTF-8; keys do not matter. */
  predicate ValuesValid(v: Json)
    decreases Size(v), 0
  {
    match v
    case JString(s) => Valid(s)
    case JArray(elems) => AllValuesValid(elems)
    case JObject(ms) => MemberValuesValid(ms)
    case _ => true
  }

  predicate AllValuesValid(elems: seq<Json>)
    decreases SizeOfAll(elems), 1
  {
    elems == [] || (ValuesValid(elems[0]) && AllValuesValid(elems[1..]))
  }

  predicate MemberValuesValid(ms: seq<Member>)
    decreases SizeOfMembers(ms), 1
  {
    ms == [] || (ValuesValid(ms[0].value) && MemberValuesValid(ms[1..]))
  }

  /** Printing succeeds exactly when every string value is valid: a bad key goes unnoticed. */
  lemma {:induction false} DumpSucceeds(v: Json, f: DumpFlags, depth: nat)
    ensures Dump(v, f, depth).1 == ValuesValid(v)
    decreases Size(v), 0
  {
    hide Indent, Dumped, Ordered;
    match v
    case JString(s) => DumpedValid(s, f);
    case JArray(elems) => if elems != [] { ElementsSucceed(elems, f, depth); }
    case JObject(ms) =>
      if ms != [] {
        SizeOfOrdered(ms, f);
        MembersSucceed(Ordered(ms, f), f, depth);
        OrderedValues(ms, f);
      }
    case _ =>
  }

  lemma {:induction false} ElementsSucceed(elems: seq<Json>, f: DumpFlags, depth: nat)
    requires elems != []
    ensures DumpElements(elems, f, depth).1 == AllValuesValid(elems)
    decreases SizeOfAll(elems), 1
  {
    hide Dump, After;
    DumpSucceeds(elems[0], f, depth + 1);
    if |elems| > 1 { ElementsSucceed(elems[1..], f, depth); } else { assert elems[1..] == []; }
  }

  lemma {:induction false} MembersSucceed(ms: seq<Member>, f: DumpFlags, depth: nat)
    requires ms != []
    ensures DumpMembers(ms, f, depth).1 == MemberValuesValid(ms)
    decreases SizeOfMembers(ms), 1
  {
    hide Dump, After, Dumped;
    DumpSucceeds(ms[0].value, f, depth + 1);
    if |ms| > 1 { MembersSucceed(ms[1..], f, depth); } else { assert ms[1..] == []; }
  }

  lemma {:induction false} ValuesEach(ms: seq<Member>)
    ensures MemberValuesValid(ms) <==> forall m :: m in ms ==> ValuesValid(m.value)
    decreases |ms|
  {
    if ms != [] { ValuesEach(ms[1..]); }
  }

  lemma OrderedValues(ms: seq<Member>, f: DumpFlags)
    ensures MemberValuesValid(Ordered(ms, f)) == MemberValuesValid(ms)
  {
    hide ValuesValid;
    var os := Ordered(ms, f);
    SortedSame(ms, true);
    SortedSame(ms, false);
    ValuesEach(ms);
    ValuesEach(os);
    forall m ensures m in ms <==> m in os { assert m in multiset(ms) <==> m in multiset(os); }
  }

  /** For instance: an object whose only key is the byte 0x80 is printed, with success, as text whose only string
      never ends. */
  lemma BadKeyPrinted(f: DumpFlags)
    requires f.compact && f.indent == 0 && !f.sortKeys && !f.preserveOrder
    ensures Dump(JObject([Member([0x80], 0, JNull)]), f, 0) ==
            (['{' as int, QUOTE, ':' as int, 'n' as int, 'u' as int, 'l' as int, 'l' as int, '}' as int], true)
  {
    assert First([0x80]) == Bad;
    assert Emitted([0x80], [], f) == ([], false);
    assert [QUOTE] + [] + [] == [QUOTE];
    var m := Member([0x80], 0, JNull);
    assert Dump(JNull, f, 1) == (NULL, true);
    assert DumpPair(m, f, 0).0 == [QUOTE, ':' as int, 'n' as int, 'u' as int, 'l' as int, 'l' as int];
    assert Indent(f, 1, false) == [] && After(f, 0, true) == [];
    assert DumpMembers([m], f, 0) == (DumpPair(m, f, 0).0 + After(f, 0, true), true);
    assert Ordered([m], f) == [m];
    var e := DumpMembers([m], f, 0);
    assert Dump(JObject([m]), f, 0).0 == ['{' as int] + [] + e.0 + ['}' as int];
    assert e.0 == DumpPair(m, f, 0).0;
    assert ['{' as int] + [] + DumpPair(m, f, 0).0 + ['}' as int] ==
           ['{' as int, QUOTE, ':' as int, 'n' as int, 'u' as int, 'l' as int, 'l' as int, '}' as int];
  }

  // The program's functions.

  method PutIndent(sink: Sink, f: DumpFlags, depth: nat, space: bool)
    modifies sink
    ensures sink.text == old(sink.text) + Indent(f, depth, space)
  {
    if f.indent > 0 {
      sink.Dump([10]);
      ghost var before := sink.text;
      for i := 0 to depth
        invariant sink.text == before + Repeated(Spaces(f.indent), i)
      {
        sink.Dump(Spaces(f.indent));
      }
    } else if space && !f.compact {
      sink.Dump([' ' as int]);
    }
  }

  method DoDump(sink: Sink, v: Json, f: DumpFlags, depth: nat) returns (ok: bool)
    modifies sink
    ensures sink.text == old(sink.text) + Dump(v, f, depth).0 && ok == Dump(v, f, depth).1
    decreases Size(v), 0
  {
    hide Dumped, Indent, DumpElements, DumpMembers, Ordered;
    match v {
      case JNull => sink.Dump(NULL); ok := true;
      case JTrue => sink.Dump(TRUE); ok := true;
      case JFalse => sink.Dump(FALSE); ok := true;
      case JInteger(i) => sink.Dump(IntegerText(i)); ok := true;
      case JReal(digits) => sink.Dump(digits); ok := true;
      case JString(s) => ok := DumpString(sink, s, f);
      case JArray(elems) =>
        sink.Dump(['[' as int]);
        if elems == [] {
          sink.Dump([']' as int]);
          return true;
        }
        PutIndent(sink, f, depth + 1, false);
        ok := DoElements(sink, elems, f, depth);
        if ok { sink.Dump([']' as int]); }
      case JObject(ms) =>
        sink.Dump(['{' as int]);
        if ms == [] {
          sink.Dump(['}' as int]);
          return true;
        }
        PutIndent(sink, f, depth + 1, false);
        SizeOfOrdered(ms, f);
        ok := DoMembers(sink, Ordered(ms, f), f, depth);
        if ok { sink.Dump(['}' as int]); }
    }
  }

  /** A comma and the next line, or the end of the last line. */
  method PutAfter(sink: Sink, f: DumpFlags, depth: nat, last: bool)
    modifies sink
    ensures sink.text == old(sink.text) + After(f, depth, last)
  {
    hide Indent;
    if !last {
      sink.Dump([',' as int]);
      PutIndent(sink, f, depth + 1, true);
    } else {
      PutIndent(sink, f, depth, false);
    }
  }

  method DoElements(sink: Sink, elems: seq<Json>, f: DumpFlags, depth: nat) returns (ok: bool)
    requires elems != []
    modifies sink
    ensures sink.text == old(sink.text) + DumpElements(elems, f, depth).0 && ok == DumpElements(elems, f, depth).1
    decreases SizeOfAll(elems), 1
  {
    hide Dump, DumpPair, Indent, DumpElements, After;
    var n := |elems|;
    ghost var before, all := sink.text, DumpElements(elems, f, depth);
    ghost var out: Bytes := [];
    for i := 0 to n
      invariant sink.text == before + out
      invariant i < n ==> all.0 == out + DumpElements(elems[i..], f, depth).0 && all.1 == DumpElements(elems[i..], f, depth).1
      invariant i == n ==> all.0 == out && all.1
      invariant SizeOfAll(elems[i..]) <= SizeOfAll(elems)
    {
      assert elems[i..][1..] == elems[i + 1..];
      DumpElementsStep(elems[i..], f, depth);
      ok := DoDump(sink, elems[i], f, depth + 1);
      if !ok { return; }
      ghost var piece := Dump(elems[i], f, depth + 1).0;
      PutAfter(sink, f, depth, i == n - 1);
      Joined(before, out, piece, After(f, depth, i == n - 1));
      out := out + piece + After(f, depth, i == n - 1);
    }
    ok := true;
  }

  lemma DumpElementsStep(elems: seq<Json>, f: DumpFlags, depth: nat)
    requires elems != []
    ensures var r := Dump(elems[0], f, depth + 1);
            DumpElements(elems, f, depth) ==
            if !r.1 then r
            else if |elems| == 1 then (r.0 + After(f, depth, true), true)
            else (r.0 + After(f, depth, false) + DumpElements(elems[1..], f, depth).0, DumpElements(elems[1..], f, depth).1)
  {
    hide Dump, DumpPair, After;
  }

  method DoPair(sink: Sink, m: Member, f: DumpFlags, depth: nat) returns (ok: bool)
    modifies sink
    ensures sink.text == old(sink.text) + DumpPair(m, f, depth).0 && ok == DumpPair(m, f, depth).1
    decreases Size(m.value), 1
  {
    hide Dump, Dumped;
    var printed := DumpString(sink, m.key, f);
    sink.Dump(Separator(f));
    ok := DoDump(sink, m.value, f, depth + 1);
  }

  method DoMembers(sink: Sink, ms: seq<Member>, f: DumpFlags, depth: nat) returns (ok: bool)
    requires ms != []
    modifies sink
    ensures sink.text == old(sink.text) + DumpMembers(ms, f, depth).0 && ok == DumpMembers(ms, f, depth).1
    decreases SizeOfMembers(ms), 1
  {
    hide Dump, DumpPair, Indent, DumpMembers, After;
    var n := |ms|;
    ghost var before, all := sink.text, DumpMembers(ms, f, depth);
    ghost var out: Bytes := [];
    for i := 0 to n
      invariant sink.text == before + out
      invariant i < n ==> all.0 == out + DumpMembers(ms[i..], f, depth).0 && all.1 == DumpMembers(ms[i..], f, depth).1
      invariant i == n ==> all.0 == out && all.1
      invariant SizeOfMembers(ms[i..]) <= SizeOfMembers(ms)
    {
      assert ms[i..][1..] == ms[i + 1..];
      DumpMembersStep(ms[i..], f, depth);
      ok := DoPair(sink, ms[i], f, depth);
      if !ok { return; }
      ghost var piece := DumpPair(ms[i], f, depth).0;
      PutAfter(sink, f, depth, i == n - 1);
      Joined(before, out, piece, After(f, depth, i == n - 1));
      out := out + piece + After(f, depth, i == n - 1);
    }
    ok := true;
  }

  lemma DumpMembersStep(ms: seq<Member>, f: DumpFlags, depth: nat)
    requires ms != []
    ensures var r := DumpPair(ms[0], f, depth);
            DumpMembers(ms, f, depth) ==
            if !r.1 then r
            else if |ms| == 1 then (r.0 + After(f, depth, true), true)
            else (r.0 + After(f, depth, false) + DumpMembers(ms[1..], f, depth).0, DumpMembers(ms[1..], f, depth).1)
  {
    hide Dump, DumpPair, After;
  }

  /** json_dumps: only arrays and objects, unless any value is asked for. */
  method JsonDumps(v: Json, f: DumpFlags) returns (r: Option<Bytes>)
    ensures r == if (f.encodeAny || v.JArray? || v.JObject?) && Dump(v, f, 0).1 then Some(Dump(v, f, 0).0) else None
  {
    hide Dump;
    var sink := new Sink();
    if !f.encodeAny {
      if !v.JArray? && !v.JObject? { return None; }
    }
    var ok := DoDump(sink, v, f, 0);
    if !ok { return None; }
    assert [] + Dump(v, f, 0).0 == Dump(v, f, 0).0;
    return Some(sink.text);
  }
}
