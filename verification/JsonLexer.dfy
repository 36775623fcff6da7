/** The byte stream and the lexer of load.c. */
module JsonLexer {
  import opened MachineWords
  import opened Utf8

  // What a stream will still deliver.

  /** The bytes up to the end of the input or to the first bytes that are not UTF-8, and whether it is the latter. */
  datatype In = In(text: Bytes, bad: bool)

  function Front(data: Bytes): In {
    if data == [] then In([], false)
    else if First(data).Bad? then In([], true)
    else
      var n := First(data).size;
      var rest := Front(data[n..]);
      In(data[..n] + rest.text, rest.bad)
  }

  lemma {:induction false} FrontOfValid(data: Bytes)
    requires Valid(data)
    ensures Front(data) == In(data, false)
  {
    hide First;
    if data != [] { FrontOfValid(data[First(data).size..]); }
  }

  /** A byte as the signed character that the lexer sees. */
  function Signed(b: Byte): int { if b < 0x80 then b else b - 0x100 }

  const EOF: int := -1
  const ERROR: int := -2

  function Ending(i: In): int { if i.bad then ERROR else EOF }

  datatype StreamState = Ok | AtEof | AtError

  class Stream {
    const data: Bytes
    var next: nat
    const buffer: array<Byte>
    var bufferPos: nat
    var state: StreamState
    /** How many bytes of the current character are in the buffer. */
    ghost var fill: nat

    ghost predicate Valid()
      reads this, buffer
    {
      && buffer.Length == 5 && 0 !in data && next <= |data|
      && (state == Ok ==> bufferPos <= fill <= 4 && buffer[fill] == 0 && forall k :: 0 <= k < fill ==> 0 < buffer[k] <= 0xF4)
    }

    ghost function Left(): In
      requires Valid()
      reads this, buffer
    {
      if state == AtEof then In([], false)
      else if state == AtError then In([], true)
      else In(buffer[bufferPos..fill] + Front(data[next..]).text, Front(data[next..]).bad)
    }

    constructor (data: Bytes)
      requires 0 !in data
      ensures Valid() && Left() == Front(data) && fresh(buffer)
    {
      this.data := data;
      next, bufferPos, state, fill := 0, 0, Ok, 0;
      buffer := new Byte[5](_ => 0);
      new;
      assert data[0..] == data && buffer[0..0] == [];
    }

    /** The source: bytes, then the end for ever. */
    method Source() returns (c: int)
      requires Valid()
      modifies this`next
      ensures Valid() && state == old(state) && bufferPos == old(bufferPos) && fill == old(fill)
      ensures old(next) < |data| ==> c == data[old(next)] && next == old(next) + 1
      ensures old(next) == |data| ==> c == EOF && next == old(next)
    {
      if next == |data| { return EOF; }
      c := data[next];
      next := next + 1;
    }

    /** The next byte of the text as a signed character, or what ends the text. */
    method Get() returns (c: int)
      requires Valid()
      modifies this, buffer
      ensures Valid()
      ensures var i := old(Left());
              if i.text == [] then c == Ending(i) && Left() == i
              else
                && c == Signed(i.text[0]) && c != EOF && c != ERROR && c != 0
                && Left() == In(i.text[1..], i.bad)
                && state == Ok && bufferPos > 0 && Signed(buffer[bufferPos - 1]) == c
    {
      hide First, Front;
      if state != Ok { return if state == AtEof then EOF else ERROR; }
      if buffer[bufferPos] == 0 {
        var ok := Fetch();
        assert Left() == old(Left());
        if !ok { return if state == AtEof then EOF else ERROR; }
      }
      var b := buffer[bufferPos];
      ghost var waiting, later := buffer[bufferPos..fill], Front(data[next..]).text;
      assert waiting[0] == b && (waiting + later)[1..] == waiting[1..] + later;
      bufferPos := bufferPos + 1;
      return Signed(b);
    }

    /** Puts the next character into the empty buffer; at the end or at bytes that are not UTF-8 the state says so. */
    method Fetch() returns (ok: bool)
      requires Valid() && state == Ok && bufferPos == fill
      modifies this, buffer
      ensures Valid() && Left() == old(Left())
      ensures ok ==> state == Ok && bufferPos == 0 && fill > 0
      ensures !ok ==> state != Ok
    {
      hide FullOk, RawValue, Front;
      ghost var rest := data[next..];
      assert Left() == Front(rest) by { assert buffer[bufferPos..fill] == []; }
      FrontCases(rest);
      var c := Source();
      if c == EOF {
        state := AtEof;
        return false;
      }
      var count := FillBuffer(c, rest);
      if count == 0 {
        state := AtError;
        return false;
      }
      NextCharacter(rest);
      fill := count;
      assert data[next..] == rest[fill..];
      assert buffer[0..fill] == rest[..fill];
      assert forall k :: 0 <= k < fill ==> buffer[k] == buffer[..fill][k] == rest[k];
      return true;
    }

    /** The character that starts with c goes into the buffer, with a zero byte behind it; 0 if there is none. */
    method FillBuffer(c: Byte, ghost rest: Bytes) returns (count: nat)
      requires buffer.Length == 5 && next <= |data| && next > 0 && rest == data[next - 1..] && rest[0] == c
      modifies this`next, this`bufferPos, buffer
      ensures bufferPos == 0 && next <= |data|
      ensures count == 0 ==> First(rest).Bad?
      ensures count > 0 ==>
                && First(rest).Char? && First(rest).size == count <= 4
                && next == old(next) + count - 1 && buffer[..count] == rest[..count] && buffer[count] == 0
    {
      hide FullOk, RawValue;
      buffer[0] := c;
      bufferPos := 0;
      if 0x80 <= c <= 0xFF {
        count := CheckFirst(c);
        if count == 0 { return 0; }
        FetchMore(count, rest);
        var full, _ := CheckFull(buffer[..], count);
        if !full { return 0; }
        buffer[count] := 0;
      } else {
        buffer[1] := 0;
        count := 1;
      }
    }

    /** The other bytes of a character; past the end of the input a byte that belongs to no character is stored. */
    method FetchMore(count: nat, ghost rest: Bytes)
      requires buffer.Length == 5 && next <= |data| && 2 <= count <= 4 && next > 0 && rest == data[next - 1..] && buffer[0] == rest[0]
      requires CheckFirst(rest[0]) == count
      modifies this`next, buffer
      ensures buffer.Length == 5 && next <= |data| && buffer[0] == rest[0]
      ensures (count <= |rest| && FullOk(rest, count)) == FullOk(buffer[..], count)
      ensures FullOk(buffer[..], count) ==> next == old(next) + count - 1 && buffer[..count] == rest[..count]
    {
      hide FullOk, RawValue;
      for i := 1 to count
        invariant buffer.Length == 5 && next <= |data| && buffer[0] == rest[0]
        invariant next == if old(next) + i - 1 <= |data| then old(next) + i - 1 else |data|
        invariant forall k :: 0 <= k < i ==> buffer[k] == if k < |rest| then rest[k] else 0xFF
      {
        if next < |data| {
          buffer[i] := data[next];
          next := next + 1;
        } else {
          buffer[i] := 0xFF;
        }
      }
      if count <= |rest| {
        FullOkSame(rest, buffer[..], count);
      } else {
        NotFull(buffer[..], count, |rest|);
      }
    }

    /** Takes back the byte that was read last. */
    method Unget(c: int)
      requires Valid()
      requires c != EOF && c != ERROR ==> state == Ok && bufferPos > 0 && Signed(buffer[bufferPos - 1]) == c
      modifies this`bufferPos
      ensures Valid()
      ensures c == EOF || c == ERROR ==> Left() == old(Left())
      ensures c != EOF && c != ERROR ==> exists b: Byte :: Signed(b) == c && Left() == In([b] + old(Left()).text, old(Left()).bad)
    {
      hide Front;
      if c == EOF || c == ERROR { return; }
      ghost var rest := buffer[bufferPos..fill];
      bufferPos := bufferPos - 1;
      assert buffer[bufferPos..fill] == [buffer[bufferPos]] + rest;
      assert Signed(buffer[bufferPos]) == c;
      PutBack(buffer[bufferPos], rest, Front(data[next..]).text);
    }
  }

  lemma PutBack(b: Byte, rest: Bytes, more: Bytes)
    ensures [b] + rest + more == [b] + (rest + more)
  {
  }

  lemma FullOkSame(s: Bytes, t: Bytes, n: nat)
    requires 2 <= n <= 4 && n <= |s| && n <= |t| && forall k :: 0 <= k < n ==> s[k] == t[k]
    ensures FullOk(s, n) == FullOk(t, n) && RawValue(s, n, n) == RawValue(t, n, n)
  {
    RawValueSame(s, t, n, n);
  }

  lemma {:induction false} RawValueSame(s: Bytes, t: Bytes, size: nat, n: nat)
    requires 2 <= size <= 4 && 1 <= n <= |s| && n <= |t| && forall k :: 0 <= k < n ==> s[k] == t[k]
    ensures RawValue(s, size, n) == RawValue(t, size, n)
  {
    if n > 1 { RawValueSame(s, t, size, n - 1); }
  }

  lemma NotFull(s: Bytes, n: nat, k: nat)
    requires 2 <= n <= 4 && n <= |s| && 1 <= k < n && s[k] == 0xFF
    ensures !FullOk(s, n)
  {
    hide RawValue;
    assert !Continuation(s[k]);
  }

  lemma FrontCases(data: Bytes)
    ensures data == [] ==> Front(data) == In([], false)
    ensures data != [] && First(data).Bad? ==> Front(data) == In([], true)
  {
  }

  /** The bytes of the first character: none is zero, and none is 0xF5 or above. */
  lemma NextCharacter(data: Bytes)
    requires data != [] && First(data).Char? && 0 !in data
    ensures var n := First(data).size;
            && n <= 4 && n == CheckFirst(data[0])
            && (forall k :: 0 <= k < n ==> 0 < data[k] <= 0xF4)
            && Front(data) == In(data[..n] + Front(data[n..]).text, Front(data[n..]).bad)
  {
    hide FullOk, RawValue, Encode;
    FirstIsEncoded(data);
    var c := First(data);
    EncodedBytes(c.codepoint);
    forall k | 0 <= k < c.size ensures 0 < data[k] <= 0xF4 { assert data[..c.size][k] == data[k] && data[k] in data; }
  }
}
