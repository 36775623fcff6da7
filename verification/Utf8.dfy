/** utf.c: the encoding of code points and the checks on bytes (sections 3 and 4 of RFC 3629). */
module Utf8 {
  import opened MachineWords

  type Bytes = seq<Byte>

  /** A Unicode scalar value: a code point that is no surrogate. */
  predicate Scalar(cp: int) { 0 <= cp < 0xD800 || 0xE000 <= cp < 0x11_0000 }

  datatype Encoding = NoCodePoint | Encoded(bytes: Bytes)

  /** utf8_encode: it takes surrogates too, and refuses what lies outside the code points. */
  function Utf8Encode(cp: int): Encoding {
    if cp < 0 then NoCodePoint
    else if cp < 0x80 then Encoded([cp])
    else if cp < 0x800 then Encoded([0xC0 + cp / 0x40, 0x80 + cp % 0x40])
    else if cp < 0x1_0000 then Encoded([0xE0 + cp / 0x1000, 0x80 + cp / 0x40 % 0x40, 0x80 + cp % 0x40])
    else if cp <= 0x10_FFFF then
      Encoded([0xF0 + cp / 0x4_0000, 0x80 + cp / 0x1000 % 0x40, 0x80 + cp / 0x40 % 0x40, 0x80 + cp % 0x40])
    else NoCodePoint
  }

  function Encode(cp: int): (b: Bytes)
    requires 0 <= cp < 0x11_0000
    ensures 1 <= |b| <= 4
  {
    Utf8Encode(cp).bytes
  }

  function CheckFirst(u: Byte): (n: nat)
    ensures n <= 4
  {
    if u < 0x80 then 1
    else if u <= 0xBF then 0
    else if u == 0xC0 || u == 0xC1 then 0
    else if u <= 0xDF then 2
    else if u <= 0xEF then 3
    else if u <= 0xF4 then 4
    else 0
  }

  predicate Continuation(u: Byte) { 0x80 <= u <= 0xBF }

  // Decoding one character.

  /** The bits of a lead byte, and of a continuation byte. */
  function LeadBits(u: Byte, size: nat): nat {
    u % (if size == 2 then 0x20 else if size == 3 then 0x10 else 0x08)
  }

  function LowBits(u: Byte): nat { u % 0x40 }

  /** The value of the first n bytes: the bits of the lead byte, and six bits of every other byte. */
  function RawValue(s: Bytes, size: nat, n: nat): nat
    requires 1 <= n <= |s| && 2 <= size <= 4
  {
    if n == 1 then LeadBits(s[0], size) else RawValue(s, size, n - 1) * 0x40 + LowBits(s[n - 1])
  }

  predicate FullOk(s: Bytes, size: nat)
    requires 2 <= size <= 4 && size <= |s|
  {
    && (forall k :: 1 <= k < size ==> Continuation(s[k]))
    && var v := RawValue(s, size, size);
       && Scalar(v)
       && v >= (if size == 2 then 0x80 else if size == 3 then 0x800 else 0x1_0000)
  }

  datatype Character = Bad | Char(codepoint: nat, size: nat)

  /** The first character of a string of bytes. */
  function First(s: Bytes): (c: Character)
    requires s != []
    ensures c.Char? ==> 1 <= c.size <= |s|
  {
    var n := CheckFirst(s[0]);
    if n == 0 || n > |s| then Bad
    else if n == 1 then Char(s[0], 1)
    else if FullOk(s, n) then Char(RawValue(s, n, n), n)
    else Bad
  }

  lemma RawValues(s: Bytes)
    ensures |s| >= 2 ==> RawValue(s, 2, 2) == LeadBits(s[0], 2) * 0x40 + LowBits(s[1])
    ensures |s| >= 3 ==> RawValue(s, 3, 3) == LeadBits(s[0], 3) * 0x1000 + LowBits(s[1]) * 0x40 + LowBits(s[2])
    ensures |s| >= 4 ==> RawValue(s, 4, 4) == LeadBits(s[0], 4) * 0x4_0000 + LowBits(s[1]) * 0x1000 + LowBits(s[2]) * 0x40 + LowBits(s[3])
  {
    hide LeadBits, LowBits;
    if |s| >= 2 { assert RawValue(s, 2, 1) == LeadBits(s[0], 2); }
    if |s| >= 3 {
      assert RawValue(s, 3, 1) == LeadBits(s[0], 3);
      assert RawValue(s, 3, 2) == LeadBits(s[0], 3) * 0x40 + LowBits(s[1]);
    }
    if |s| >= 4 {
      assert RawValue(s, 4, 1) == LeadBits(s[0], 4);
      assert RawValue(s, 4, 2) == LeadBits(s[0], 4) * 0x40 + LowBits(s[1]);
      assert RawValue(s, 4, 3) == LeadBits(s[0], 4) * 0x1000 + LowBits(s[1]) * 0x40 + LowBits(s[2]);
    }
  }

  /** The parts of a code point of two, three and four bytes. */
  lemma Parts(v: nat)
    ensures v == v / 0x40 * 0x40 + v % 0x40
    ensures v == v / 0x1000 * 0x1000 + v / 0x40 % 0x40 * 0x40 + v % 0x40
    ensures v == v / 0x4_0000 * 0x4_0000 + v / 0x1000 % 0x40 * 0x1000 + v / 0x40 % 0x40 * 0x40 + v % 0x40
  {
    assert v / 0x1000 == v / 0x40 / 0x40;
    assert v / 0x4_0000 == v / 0x1000 / 0x40;
  }

  lemma PartsUnique2(a: nat, b: nat)
    requires b < 0x40
    ensures var v := a * 0x40 + b; v / 0x40 == a && v % 0x40 == b
  {
  }

  lemma PartsUnique3(a: nat, b: nat, c: nat)
    requires b < 0x40 && c < 0x40
    ensures var v := a * 0x1000 + b * 0x40 + c; v / 0x1000 == a && v / 0x40 % 0x40 == b && v % 0x40 == c
  {
    PartsUnique2(a * 0x40 + b, c);
    PartsUnique2(a, b);
    assert (a * 0x1000 + b * 0x40 + c) / 0x1000 == (a * 0x40 + b) / 0x40;
  }

  lemma PartsUnique4(a: nat, b: nat, c: nat, d: nat)
    requires b < 0x40 && c < 0x40 && d < 0x40
    ensures var v := a * 0x4_0000 + b * 0x1000 + c * 0x40 + d;
            v / 0x4_0000 == a && v / 0x1000 % 0x40 == b && v / 0x40 % 0x40 == c && v % 0x40 == d
  {
    var w := a * 0x1000 + b * 0x40 + c;
    PartsUnique2(w, d);
    PartsUnique3(a, b, c);
    assert (w * 0x40 + d) / 0x1000 == w / 0x40 && (w * 0x40 + d) / 0x4_0000 == w / 0x1000;
  }

  lemma ByteBits(u: Byte)
    ensures Continuation(u) ==> u == 0x80 + LowBits(u)
    ensures CheckFirst(u) == 2 ==> u == 0xC0 + LeadBits(u, 2)
    ensures CheckFirst(u) == 3 ==> u == 0xE0 + LeadBits(u, 3)
    ensures CheckFirst(u) == 4 ==> u == 0xF0 + LeadBits(u, 4)
    ensures LowBits(u) < 0x40
  {
  }

  /** What is decoded encodes to the bytes it was read from. */
  lemma FirstIsEncoded(s: Bytes)
    requires s != [] && First(s).Char?
    ensures var c := First(s); Scalar(c.codepoint) && s[..c.size] == Encode(c.codepoint)
  {
    hide LeadBits, LowBits, RawValue, Encode, FullOk;
    var n := First(s).size;
    if n == 1 {
      AsciiEncoded(s[0]);
      assert s[..1] == [s[0]];
    } else {
      FullIsEncoded(s, n);
    }
  }

  lemma AsciiEncoded(u: Byte)
    requires CheckFirst(u) == 1
    ensures Scalar(u) && Encode(u) == [u]
  {
  }

  lemma FullIsEncoded(s: Bytes, n: nat)
    requires s != [] && n == CheckFirst(s[0]) && 2 <= n <= |s| && FullOk(s, n)
    ensures var v := RawValue(s, n, n); Scalar(v) && s[..n] == Encode(v)
  {
    hide LeadBits, LowBits, RawValue;
    RawValues(s);
    ByteBits(s[0]);
    ByteBits(s[1]);
    if n == 2 {
      PartsUnique2(LeadBits(s[0], 2), LowBits(s[1]));
      assert s[..2] == [s[0], s[1]];
    } else if n == 3 {
      ByteBits(s[2]);
      PartsUnique3(LeadBits(s[0], 3), LowBits(s[1]), LowBits(s[2]));
      assert s[..3] == [s[0], s[1], s[2]];
    } else {
      ByteBits(s[2]);
      ByteBits(s[3]);
      PartsUnique4(LeadBits(s[0], 4), LowBits(s[1]), LowBits(s[2]), LowBits(s[3]));
      assert s[..4] == [s[0], s[1], s[2], s[3]];
    }
  }

  /** A scalar value is decoded from its encoding, whatever follows. */
  lemma EncodedIsFirst(cp: nat, rest: Bytes)
    requires Scalar(cp)
    ensures First(Encode(cp) + rest) == Char(cp, |Encode(cp)|)
  {
    hide RawValue, FullOk;
    var s := Encode(cp) + rest;
    EncodedBytes(cp);
    if cp >= 0x80 { EncodedIsFull(cp, s); }
  }

  lemma EncodedIsFull(cp: nat, s: Bytes)
    requires Scalar(cp) && cp >= 0x80 && |Encode(cp)| <= |s| && s[..|Encode(cp)|] == Encode(cp)
    ensures var n := |Encode(cp)|; FullOk(s, n) && RawValue(s, n, n) == cp
  {
    hide RawValue, LeadBits, LowBits;
    var n := |Encode(cp)|;
    forall k | 0 <= k < n ensures s[k] == Encode(cp)[k] { assert s[k] == s[..n][k]; }
    RawValues(s);
    Parts(cp);
    EncodedBits(cp);
    EncodedContinuations(cp);
  }

  lemma EncodedBits(cp: nat)
    requires Scalar(cp) && cp >= 0x80
    ensures var b := Encode(cp);
            && LowBits(b[1]) == (if |b| == 2 then cp % 0x40 else if |b| == 3 then cp / 0x40 % 0x40 else cp / 0x1000 % 0x40)
            && (|b| == 3 ==> LowBits(b[2]) == cp % 0x40)
            && (|b| == 4 ==> LowBits(b[2]) == cp / 0x40 % 0x40 && LowBits(b[3]) == cp % 0x40)
            && LeadBits(b[0], |b|) == (if |b| == 2 then cp / 0x40 else if |b| == 3 then cp / 0x1000 else cp / 0x4_0000)
  {
    hide LowBits, LeadBits;
    if cp < 0x800 { LeadBitsOf(cp / 0x40); } else if cp < 0x1_0000 { LeadBitsOf(cp / 0x1000); } else { LeadBitsOf(cp / 0x4_0000); }
    LowBitsOf(cp % 0x40);
    LowBitsOf(cp / 0x40 % 0x40);
    LowBitsOf(cp / 0x1000 % 0x40);
  }

  lemma LeadBitsOf(x: nat)
    requires x < 0x20
    ensures LeadBits(0xC0 + x, 2) == x
    ensures x < 0x10 ==> LeadBits(0xE0 + x, 3) == x
    ensures x < 0x08 ==> LeadBits(0xF0 + x, 4) == x
  {
  }

  lemma LowBitsOf(x: nat)
    requires x < 0x40
    ensures LowBits(0x80 + x) == x
  {
  }

  lemma EncodedContinuations(cp: nat)
    requires Scalar(cp)
    ensures forall k :: 1 <= k < |Encode(cp)| ==> Continuation(Encode(cp)[k])
  {
  }

  /** Every byte of an encoding is below 0xF5, so it is never mistaken for the stream's -1 or -2. */
  lemma EncodedBytes(cp: nat)
    requires Scalar(cp)
    ensures forall k :: 0 <= k < |Encode(cp)| ==> Encode(cp)[k] <= 0xF4
    ensures CheckFirst(Encode(cp)[0]) == |Encode(cp)|
    ensures cp >= 0x80 ==> forall k :: 0 <= k < |Encode(cp)| ==> Encode(cp)[k] >= 0x80
    ensures cp > 0 ==> forall k :: 0 <= k < |Encode(cp)| ==> Encode(cp)[k] > 0
  {
  }

  /** The six bits of a later byte. */
  function Bits(b: Byte): int { b as int - 0x80 }

  /** The table of section 3 of RFC 3629: how many bytes, their ranges, and the bits they hold. */
  predicate InTable(cp: int, b: Bytes) {
    && (forall k :: 1 <= k < |b| ==> 0x80 <= b[k] <= 0xBF)
    && if |b| == 1 then cp == b[0] < 0x80
       else if |b| == 2 then 0x80 <= cp < 0x800 && cp == (b[0] as int - 0xC0) * 0x40 + Bits(b[1])
       else if |b| == 3 then 0x800 <= cp < 0x1_0000 && cp == (b[0] as int - 0xE0) * 0x1000 + Bits(b[1]) * 0x40 + Bits(b[2])
       else
         |b| == 4 && 0x1_0000 <= cp <= 0x10_FFFF
         && cp == (b[0] as int - 0xF0) * 0x4_0000 + Bits(b[1]) * 0x1000 + Bits(b[2]) * 0x40 + Bits(b[3])
  }

  lemma EncodedInTable(cp: nat)
    requires Scalar(cp)
    ensures InTable(cp, Encode(cp)) && cp <= 0x10_FFFF && !(0xD800 <= cp <= 0xDFFF)
  {
    SixBitParts(cp);
  }

  lemma SixBitParts(cp: nat)
    ensures cp == cp / 0x40 * 0x40 + cp % 0x40
    ensures cp / 0x40 == cp / 0x1000 * 0x40 + cp / 0x40 % 0x40
    ensures cp / 0x1000 == cp / 0x4_0000 * 0x40 + cp / 0x1000 % 0x40
  {
    assert cp / 0x40 / 0x40 == cp / 0x1000 && cp / 0x1000 / 0x40 == cp / 0x4_0000;
  }

  // Strings.

  function EncodeAll(cps: seq<nat>): Bytes
    requires forall k :: 0 <= k < |cps| ==> Scalar(cps[k])
  {
    if cps == [] then [] else
      assert Scalar(cps[0]);
      Encode(cps[0]) + EncodeAll(cps[1..])
  }

  predicate Valid(s: Bytes) {
    s == [] || (First(s).Char? && Valid(s[First(s).size..]))
  }

  function DecodeAll(s: Bytes): (cps: seq<nat>)
    requires Valid(s)
    ensures forall k :: 0 <= k < |cps| ==> Scalar(cps[k])
  {
    if s == [] then [] else
      FirstIsEncoded(s);
      [First(s).codepoint] + DecodeAll(s[First(s).size..])
  }

  lemma {:induction false} EncodeAllValid(cps: seq<nat>)
    requires forall k :: 0 <= k < |cps| ==> Scalar(cps[k])
    ensures Valid(EncodeAll(cps)) && DecodeAll(EncodeAll(cps)) == cps
  {
    hide Encode, First;
    if cps != [] {
      var rest := EncodeAll(cps[1..]);
      EncodedIsFirst(cps[0], rest);
      EncodeAllValid(cps[1..]);
      assert (Encode(cps[0]) + rest)[|Encode(cps[0])|..] == rest;
    }
  }

  lemma EncodedValid(cp: nat)
    requires Scalar(cp)
    ensures Valid(Encode(cp))
  {
    hide Encode, First;
    EncodeAllValid([cp]);
    assert [cp][1..] == [] && EncodeAll([]) == [];
    assert EncodeAll([cp]) == Encode(cp) + [] == Encode(cp);
  }

  lemma {:induction false} DecodeAllEncodes(s: Bytes)
    requires Valid(s)
    ensures EncodeAll(DecodeAll(s)) == s
  {
    hide Encode, First;
    if s != [] {
      FirstIsEncoded(s);
      DecodeAllEncodes(s[First(s).size..]);
      assert s == s[..First(s).size] + s[First(s).size..];
      assert DecodeAll(s)[1..] == DecodeAll(s[First(s).size..]);
    }
  }

  lemma {:induction false} ValidAppend(s: Bytes, t: Bytes)
    requires Valid(s) && Valid(t)
    ensures Valid(s + t) && DecodeAll(s + t) == DecodeAll(s) + DecodeAll(t)
  {
    hide First;
    if s == [] {
      assert s + t == t;
    } else {
      FirstOfLonger(s, t);
      var n := First(s).size;
      ValidAppend(s[n..], t);
      assert (s + t)[n..] == s[n..] + t;
    }
  }

  lemma FirstOfLonger(s: Bytes, t: Bytes)
    requires s != [] && First(s).Char?
    ensures First(s + t) == First(s)
  {
    hide Encode;
    FirstIsEncoded(s);
    var c := First(s);
    EncodedIsFirst(c.codepoint, s[c.size..] + t);
    assert s + t == Encode(c.codepoint) + (s[c.size..] + t);
  }

  /** utf8_check_full, for the size that the first byte announces. */
  method CheckFull(buffer: Bytes, size: nat) returns (ok: bool, codepoint: nat)
    requires 2 <= size <= 4 && size <= |buffer| && CheckFirst(buffer[0]) == size
    ensures ok == FullOk(buffer, size)
    ensures ok ==> codepoint == RawValue(buffer, size, size)
    ensures !ok ==> codepoint == 0
  {
    var value := LeadBits(buffer[0], size);
    codepoint := 0;
    for i := 1 to size
      invariant value == RawValue(buffer, size, i)
      invariant forall k :: 1 <= k < i ==> Continuation(buffer[k])
    {
      var u := buffer[i];
      if u < 0x80 || u > 0xBF { return false, 0; }
      value := value * 0x40 + LowBits(u);
    }
    if value > 0x10FFFF { return false, 0; }
    else if 0xD800 <= value <= 0xDFFF { return false, 0; }
    else if (size == 2 && value < 0x80) || (size == 3 && value < 0x800) || (size == 4 && value < 0x1_0000) { return false, 0; }
    return true, value;
  }

  /** utf8_iterate: the next character, or none at the end or at bytes that are not UTF-8. */
  method Iterate(s: Bytes, at: nat) returns (c: Character)
    requires at < |s|
    ensures c == First(s[at..])
  {
    var count := CheckFirst(s[at]);
    if count == 0 || count > |s| - at { return Bad; }
    if count == 1 { return Char(s[at], 1); }
    var ok, value := CheckFull(s[at..], count);
    if !ok { return Bad; }
    return Char(value, count);
  }

  /** utf8_check_string accepts exactly the encodings of sequences of scalar values. */
  method CheckString(s: Bytes) returns (ok: bool)
    ensures ok == Valid(s)
  {
    hide FullOk, RawValue;
    var i := 0;
    while i < |s|
      invariant 0 <= i <= |s| && Valid(s) == Valid(s[i..])
    {
      var count := CheckFirst(s[i]);
      assert s[i..][0] == s[i];
      if count == 0 { return false; }
      else if count > 1 {
        if i + count > |s| { return false; }
        var full, _ := CheckFull(s[i..], count);
        if !full { return false; }
        assert s[i..][count..] == s[i + count..];
        i := i + count - 1;
      } else {
        assert s[i..][1..] == s[i + 1..];
      }
      i := i + 1;
    }
    return true;
  }

  lemma ValidExactly(s: Bytes)
    ensures Valid(s) <==> exists cps: seq<nat> :: (forall k :: 0 <= k < |cps| ==> Scalar(cps[k])) && s == EncodeAll(cps)
  {
    if Valid(s) { DecodeAllEncodes(s); }
    if cps: seq<nat> :| (forall k :: 0 <= k < |cps| ==> Scalar(cps[k])) && s == EncodeAll(cps) { EncodeAllValid(cps); }
  }
}
