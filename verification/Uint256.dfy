/** The arithmetic of base_uint: any number of 32-bit limbs, updated in place, computes modulo 2^(32 WIDTH). */
module Uint256 {
  import opened MachineWords
  import opened Limbs
  import opened Powers
  import opened Shifts
  import opened HexText

  // One limb at a time.

  lemma AddStep(r: seq<Word>, a: seq<Word>, b: seq<Word>, x: Word, y: Word, carry: nat)
    requires |r| == |a| == |b|
    requires Value(r) + carry * Worth(|r|) == Value(a) + Value(b)
    ensures var n := carry + x + y;
            Value(r + [n % WORDS]) + n / WORDS * Worth(|r| + 1) == Value(a + [x]) + Value(b + [y])
  {
    hide Worth, Value;
    ValueSnoc(r, (carry + x + y) % WORDS);
    ValueSnoc(a, x);
    ValueSnoc(b, y);
    WorthNext(|r|);
    CarryMoves(carry, x, y, Worth(|r|));
  }

  lemma CarryMoves(carry: nat, x: nat, y: nat, w: nat)
    ensures var n := carry + x + y; n % WORDS * w + n / WORDS * (WORDS * w) == carry * w + x * w + y * w
  {
    var n := carry + x + y;
    var q, r := n / WORDS, n % WORDS;
    DivMod(n, WORDS);
    Associate(q, WORDS, w);
    Distribute(q * WORDS, r, w);
    Distribute(carry + x, y, w);
    Distribute(carry, x, w);
  }

  lemma ComplementStep(r: seq<Word>, a: seq<Word>, x: Word)
    requires |r| == |a| && Value(r) + Value(a) == Worth(|a|) - 1
    ensures Value(r + [WORDS - 1 - x]) + Value(a + [x]) == Worth(|a| + 1) - 1
  {
    hide Worth, Value;
    ValueSnoc(r, WORDS - 1 - x);
    ValueSnoc(a, x);
    WorthNext(|a|);
    OnesMinus(x, Worth(|a|));
  }

  lemma OnesMinus(x: int, w: int)
    ensures (WORDS - 1 - x) * w + x * w == WORDS * w - w
  {
    Distribute(WORDS - 1 - x, x, w);
    Distribute(WORDS, -1, w);
  }

  /** A carry that reaches limb i has turned every limb below it from all ones to zero. */
  lemma CarryStops(a: seq<Word>, r: seq<Word>, i: nat, up: bool)
    requires |a| == |r| && i < |a|
    requires forall k :: 0 <= k < i ==> a[k] == (if up then WORDS - 1 else 0) && r[k] == (if up then 0 else WORDS - 1)
    requires forall k :: i < k < |a| ==> r[k] == a[k]
    requires r[i] as int == a[i] as int + (if up then 1 else -1)
    ensures Value(r) == Value(a) + (if up then 1 else -1)
  {
    if i > 0 {
      CarryStops(a[1..], r[1..], i - 1, up);
    } else {
      assert a[1..] == r[1..];
    }
  }

  /** A carry that leaves at the top wraps the number around. */
  lemma CarryLeaves(a: seq<Word>, up: bool)
    requires forall k :: 0 <= k < |a| ==> a[k] == if up then WORDS - 1 else 0
    ensures Value(a) == if up then Worth(|a|) - 1 else 0
  {
    hide Worth;
    WorthNext(0);
    if a != [] {
      CarryLeaves(a[1..], up);
      WorthNext(|a| - 1);
    }
  }

  class BaseUint {
    const pn: array<Word>

    ghost predicate Valid() { pn.Length >= 2 }

    ghost function Number(): nat
      reads pn
    {
      Value(pn[..])
    }

    /** One more than the largest number that fits. */
    ghost function Modulus(): nat { Worth(pn.Length) }

    constructor (width: nat)
      requires width >= 2
      ensures Valid() && fresh(pn) && pn.Length == width
    {
      pn := new Word[width];
    }

    method IsZero() returns (r: bool)
      requires Valid()
      ensures r <==> Number() == 0
    {
      hide Value;
      for i := 0 to pn.Length
        invariant forall k :: 0 <= k < i ==> pn[k] == 0
      {
        if pn[i] != 0 {
          NonZeroLimb(pn[..], i);
          return false;
        }
      }
      ValueOfZeros(pn[..]);
      return true;
    }

    method Complement() returns (ret: BaseUint)
      requires Valid()
      ensures ret.Valid() && fresh(ret) && fresh(ret.pn) && ret.pn.Length == pn.Length
      ensures ret.Number() == Modulus() - 1 - Number()
    {
      hide Value, Worth;
      ret := new BaseUint(pn.Length);
      ghost var a := pn[..];
      ValueOfZeros([]);
      WorthNext(0);
      for i := 0 to pn.Length
        invariant pn[..] == a
        invariant Value(ret.pn[..i]) + Value(a[..i]) == Worth(i) - 1
        modifies ret.pn
      {
        ghost var r := ret.pn[..i];
        ret.pn[i] := WORDS - 1 - pn[i];
        ComplementStep(r, a[..i], a[i]);
        assert ret.pn[..i + 1] == r + [WORDS - 1 - a[i]] && a[..i + 1] == a[..i] + [a[i]];
      }
      assert ret.pn[..] == ret.pn[..pn.Length] && a == a[..pn.Length];
    }

    method Negate() returns (ret: BaseUint)
      requires Valid()
      ensures ret.Valid() && fresh(ret) && fresh(ret.pn) && ret.pn.Length == pn.Length
      ensures ret.Number() == (Modulus() - Number()) % Modulus()
    {
      hide Value, Worth;
      ghost var n := Number();
      ret := Complement();
      ValueBound(pn[..]);
      ret.Increment();
    }

    method AddAssign(b: BaseUint)
      requires Valid() && b.pn.Length == pn.Length
      modifies pn
      ensures Number() == (old(Number()) + old(b.Number())) % Modulus()
    {
      hide Value, Worth;
      ghost var x, y := pn[..], b.pn[..];
      var carry := 0;
      ValueOfZeros([]);
      for i := 0 to pn.Length
        invariant 0 <= carry <= 1
        invariant forall k :: i <= k < pn.Length ==> pn[k] == x[k] && b.pn[k] == y[k]
        invariant Value(pn[..i]) + carry * Worth(i) == Value(x[..i]) + Value(y[..i])
      {
        ghost var r := pn[..i];
        var n := carry + pn[i] + b.pn[i];
        AddStep(r, x[..i], y[..i], x[i], y[i], carry);
        pn[i] := n % WORDS;
        assert pn[..i + 1] == r + [n % WORDS];
        assert x[..i + 1] == x[..i] + [x[i]] && y[..i + 1] == y[..i] + [y[i]];
        carry := n / WORDS;
      }
      assert pn[..] == pn[..pn.Length] && x == x[..pn.Length] && y == y[..pn.Length];
      ValueBound(pn[..]);
      QuotientUnique(Value(x) + Value(y), Worth(pn.Length), carry, Value(pn[..]));
    }

    method SubAssign(b: BaseUint)
      requires Valid() && b.pn.Length == pn.Length
      modifies pn
      ensures Number() == (old(Number()) - old(b.Number())) % Modulus()
    {
      hide Value, Worth;
      var minus := b.Negate();
      ValueBound(pn[..]);
      ValueBound(b.pn[..]);
      AddOfNegated(Number(), b.Number(), Modulus());
      AddAssign(minus);
    }

    method Increment()
      requires Valid()
      modifies pn
      ensures Number() == (old(Number()) + 1) % Modulus()
    {
      hide Value, Worth;
      ghost var a := pn[..];
      ValueBound(a);
      var i := 0;
      pn[0] := (pn[0] + 1) % WORDS;
      while pn[i] == 0 && i < pn.Length - 1
        invariant 0 <= i < pn.Length
        invariant forall k :: 0 <= k < i ==> a[k] == WORDS - 1 && pn[k] == 0
        invariant pn[i] == (a[i] + 1) % WORDS
        invariant forall k :: i < k < pn.Length ==> pn[k] == a[k]
      {
        i := i + 1;
        pn[i] := (pn[i] + 1) % WORDS;
      }
      if pn[i] == 0 {
        CarryLeaves(a, true);
        ValueOfZeros(pn[..]);
        QuotientUnique(Modulus(), Modulus(), 1, 0);
      } else {
        CarryStops(a, pn[..], i, true);
        ValueBound(pn[..]);
        QuotientUnique(Number(), Modulus(), 0, Number());
      }
    }

    method Decrement()
      requires Valid()
      modifies pn
      ensures Number() == (old(Number()) - 1) % Modulus()
    {
      hide Value, Worth;
      ghost var a := pn[..];
      ValueBound(a);
      var i := 0;
      pn[0] := (pn[0] - 1) % WORDS;
      while pn[i] == WORDS - 1 && i < pn.Length - 1
        invariant 0 <= i < pn.Length
        invariant forall k :: 0 <= k < i ==> a[k] == 0 && pn[k] == WORDS - 1
        invariant pn[i] == (a[i] - 1) % WORDS
        invariant forall k :: i < k < pn.Length ==> pn[k] == a[k]
      {
        i := i + 1;
        pn[i] := (pn[i] - 1) % WORDS;
      }
      if pn[i] == WORDS - 1 {
        CarryLeaves(a, false);
        CarryLeaves(pn[..], true);
        QuotientUnique(-1, Modulus(), -1, Modulus() - 1);
      } else {
        CarryStops(a, pn[..], i, false);
        ValueBound(pn[..]);
        QuotientUnique(Number(), Modulus(), 0, Number());
      }
    }

    /** Assignment from a 64-bit number. */
    method Assign64(b: nat)
      requires Valid() && b < WORDS * WORDS
      modifies pn
      ensures Number() == b
    {
      hide Worth;
      pn[0] := b % WORDS;
      pn[1] := b / WORDS;
      for i := 2 to pn.Length
        invariant pn[0] == b % WORDS && pn[1] == b / WORDS
        invariant forall k :: 2 <= k < i ==> pn[k] == 0
      {
        pn[i] := 0;
      }
      SmallNumber(pn[..], b);
    }

    method AddAssign64(b: nat)
      requires Valid() && b < WORDS * WORDS
      modifies pn
      ensures Number() == (old(Number()) + b) % Modulus()
    {
      var other := new BaseUint(pn.Length);
      other.Assign64(b);
      AddAssign(other);
    }

    method SubAssign64(b: nat)
      requires Valid() && b < WORDS * WORDS
      modifies pn
      ensures Number() == (old(Number()) - b) % Modulus()
    {
      var other := new BaseUint(pn.Length);
      other.Assign64(b);
      SubAssign(other);
    }

    /** A copy of the limbs, and zeros in their place. */
    method Clear() returns (a: array<Word>)
      modifies pn
      ensures fresh(a) && a[..] == old(pn[..])
      ensures forall j :: 0 <= j < pn.Length ==> pn[j] == 0
    {
      a := new Word[pn.Length](i requires 0 <= i < pn.Length reads pn => pn[i]);
      assert a[..] == pn[..];
      for i := 0 to pn.Length
        invariant forall j :: 0 <= j < i ==> pn[j] == 0
        invariant a[..] == old(pn[..])
      {
        pn[i] := 0;
      }
    }

    method ShiftLeftAssign(shift: nat)
      requires Valid()
      modifies pn
      ensures Number() == old(Number()) * Pow2(shift) % Modulus()
    {
      hide Value, Worth, Pow2, BitOr, ShiftLeft, ShiftRight;
      ghost var was := pn[..];
      var a := Clear();
      var k, s := shift / 32, shift % 32;
      for i := 0 to pn.Length
        invariant a[..] == was
        invariant forall j :: 0 <= j < pn.Length ==> pn[j] == LeftLimb(was, k, s, i, j)
        modifies pn
      {
        LeftLimbsMove(was, k, s, i);
        if i + k + 1 < pn.Length && s != 0 {
          pn[i + k + 1] := BitOr(pn[i + k + 1], ShiftRight(a[i], 32 - s));
        }
        if i + k < pn.Length {
          pn[i + k] := BitOr(pn[i + k], ShiftLeft(a[i], s));
        }
      }
      LeftShifts(was, pn[..], shift);
    }

    method ShiftRightAssign(shift: nat)
      requires Valid()
      modifies pn
      ensures Number() == old(Number()) / Pow2(shift)
    {
      hide Value, Worth, Pow2, BitOr, ShiftLeft, ShiftRight;
      ghost var was := pn[..];
      var a := Clear();
      var k, s := shift / 32, shift % 32;
      for i := 0 to pn.Length
        invariant a[..] == was
        invariant forall j :: 0 <= j < pn.Length ==> pn[j] == RightLimb(was, k, s, i, j)
        modifies pn
      {
        RightLimbsMove(was, k, s, i);
        if i - k - 1 >= 0 && s != 0 {
          pn[i - k - 1] := BitOr(pn[i - k - 1], ShiftLeft(a[i], 32 - s));
        }
        if i - k >= 0 {
          pn[i - k] := BitOr(pn[i - k], ShiftRight(a[i], s));
        }
      }
      RightShifts(was, pn[..], shift);
    }

    /** Byte j of the limbs, as memory holds them. */
    method GetByte(j: nat) returns (b: Byte)
      requires j < 4 * pn.Length
      ensures b == ByteOf(pn[j / 4], j % 4)
    {
      b := ByteOf(pn[j / 4], j % 4);
    }

    method SetByte(j: nat, b: Byte)
      requires j < 4 * pn.Length
      modifies pn
      ensures pn[..] == old(pn[..])[j / 4 := WithByte(old(pn[j / 4]), j % 4, b)]
    {
      hide WithByte;
      pn[j / 4] := WithByte(pn[j / 4], j % 4, b);
    }

    /** All the digits, two for each byte, from the top byte down. */
    method GetHex() returns (text: string)
      requires Valid()
      ensures text == HexOf(Number(), 8 * pn.Length)
    {
      hide Value, Shown, ByteOf, HexDigit, HexOf, Worth;
      ghost var v, n := Number(), 4 * pn.Length;
      WorthOfBytes(pn.Length);
      ValueBound(pn[..]);
      ShownEnds(v, n);
      text := "";
      for i := 0 to 4 * pn.Length
        invariant text == Shown(v, n, i)
      {
        ByteShown(pn[..], i);
        var b := GetByte(4 * pn.Length - i - 1);
        text := text + [HexDigit(b / 16), HexDigit(b % 16)];
      }
    }

    /** The number that the digits after white space and "0x" stand for, as far as it fits. */
    method SetHex(text: string)
      requires Valid()
      modifies pn
      ensures Number() == HexNumber(DigitsOf(text)) % Modulus()
    {
      hide Value, Pow2, HexNumber;
      for i := 0 to pn.Length
        invariant forall k :: 0 <= k < i ==> pn[k] == 0
      {
        pn[i] := 0;
      }
      var p := 0;
      while p < |text| && IsSpace(text[p])
        invariant p <= |text| && SkipSpaces(text, 0) == SkipSpaces(text, p)
      {
        p := p + 1;
      }
      if p + 1 < |text| && text[p] == '0' && (text[p + 1] == 'x' || text[p + 1] == 'X') {
        p := p + 2;
      }
      var begin := p;
      while p < |text| && IsHex(text[p])
        invariant begin <= p <= |text| && DigitsEnd(text, begin) == DigitsEnd(text, p)
      {
        p := p + 1;
      }
      ReadDigits(text, begin, p);
    }

    /** Digits two at a time from the right, each pair making a byte, until the text or the limbs run out. */
    method ReadDigits(text: string, begin: nat, end: nat)
      requires Valid() && begin <= end <= |text|
      requires forall k :: 0 <= k < pn.Length ==> pn[k] == 0
      modifies pn
      ensures Number() == HexNumber(text[begin..end]) % Modulus()
    {
      hide Value, Worth, HexNumber, WithByte, ByteOf, BitOr, ZeroFrom, DigitValue;
      ghost var digits := text[begin..end];
      NothingRead(pn[..], digits);
      var p := end - 1;
      var at := 0;
      while p >= begin && at < 4 * pn.Length
        invariant begin - 1 <= p < end && at <= 4 * pn.Length && end - 1 - p <= 8 * pn.Length
        invariant p >= begin ==> end - 1 - p == 2 * at && ZeroFrom(pn[..], at)
        invariant Number() == HexNumber(digits[p + 1 - begin..])
        decreases p
      {
        ghost var a, k := pn[..], p - begin;
        OneDigit(a, at, digits, k);
        if k > 0 { TwoDigits(a, at, digits, k); }
        SetByte(at, DigitValue(text[p]));
        p := p - 1;
        if p >= begin {
          var b := GetByte(at);
          SetByte(at, BitOr(b, DigitValue(text[p]) * 16));
          p := p - 1;
          at := at + 1;
        }
      }
      AllRead(digits, p + 1 - begin, pn.Length, Number());
    }

    // Comparison, from the top limb down.

    method Less(b: BaseUint) returns (r: bool)
      requires Valid() && b.pn.Length == pn.Length
      ensures r <==> Number() < b.Number()
    {
      hide Value;
      for i := pn.Length downto 0
        invariant forall k :: i <= k < pn.Length ==> pn[k] == b.pn[k]
      {
        if pn[i] < b.pn[i] {
          TopLimbDecides(pn[..], b.pn[..], i);
          return true;
        } else if pn[i] > b.pn[i] {
          TopLimbDecides(b.pn[..], pn[..], i);
          return false;
        }
      }
      assert pn[..] == b.pn[..];
      return false;
    }

    method AtMost(b: BaseUint) returns (r: bool)
      requires Valid() && b.pn.Length == pn.Length
      ensures r <==> Number() <= b.Number()
    {
      hide Value;
      for i := pn.Length downto 0
        invariant forall k :: i <= k < pn.Length ==> pn[k] == b.pn[k]
      {
        if pn[i] < b.pn[i] {
          TopLimbDecides(pn[..], b.pn[..], i);
          return true;
        } else if pn[i] > b.pn[i] {
          TopLimbDecides(b.pn[..], pn[..], i);
          return false;
        }
      }
      assert pn[..] == b.pn[..];
      return true;
    }

    method Equals(b: BaseUint) returns (r: bool)
      requires Valid() && b.pn.Length == pn.Length
      ensures r <==> Number() == b.Number()
    {
      hide Value;
      for i := 0 to pn.Length
        invariant forall k :: 0 <= k < i ==> pn[k] == b.pn[k]
      {
        if pn[i] != b.pn[i] {
          LimbsDiffer(pn[..], b.pn[..], i);
          return false;
        }
      }
      assert pn[..] == b.pn[..];
      return true;
    }

    method Equals64(b: nat) returns (r: bool)
      requires Valid() && b < WORDS * WORDS
      ensures r <==> Number() == b
    {
      SmallNumber(pn[..], b);
      if pn[0] != b % WORDS { return false; }
      if pn[1] != b / WORDS { return false; }
      for i := 2 to pn.Length
        invariant forall k :: 2 <= k < i ==> pn[k] == 0
      {
        if pn[i] != 0 { return false; }
      }
      return true;
    }
  }

  lemma LimbsDiffer(a: seq<Word>, b: seq<Word>, i: nat)
    requires |a| == |b| && i < |a| && a[i] != b[i]
    ensures Value(a) != Value(b)
  {
    if Value(a) == Value(b) { ValueInjective(a, b); }
  }

  /** A number below 2^64 lies in the two lowest limbs. */
  lemma SmallNumber(a: seq<Word>, b: nat)
    requires |a| >= 2 && b < WORDS * WORDS
    ensures Value(a) == b <==> a[0] == b % WORDS && a[1] == b / WORDS && forall k :: 2 <= k < |a| ==> a[k] == 0
  {
    var z := [b % WORDS, b / WORDS] + seq(|a| - 2, _ => 0);
    ValueOfZeros(z[2..]);
    assert z[1..][1..] == z[2..];
    DivMod(b, WORDS);
    assert Value(z) == b;
    if Value(a) == b { ValueInjective(a, z); }
    if a[0] == b % WORDS && a[1] == b / WORDS && forall k :: 2 <= k < |a| ==> a[k] == 0 { assert a == z; }
  }

  /** What one turn of the left shift does to every limb. */
  lemma LeftLimbsMove(a: seq<Word>, k: nat, s: nat, i: nat)
    requires s < 32 && i < |a|
    ensures forall j :: 0 <= j < |a| && j != i + k && j != i + k + 1 ==> LeftLimb(a, k, s, i + 1, j) == LeftLimb(a, k, s, i, j)
    ensures LeftLimb(a, k, s, i + 1, i + k + 1) == if s != 0 then BitOr(LeftLimb(a, k, s, i, i + k + 1), ShiftRight(a[i], 32 - s)) else LeftLimb(a, k, s, i, i + k + 1)
    ensures LeftLimb(a, k, s, i + 1, i + k) == BitOr(LeftLimb(a, k, s, i, i + k), ShiftLeft(a[i], s))
  {
    hide ShiftLeft, ShiftRight, Or;
    if s != 0 { OrZero(ShiftRight(a[i], 32 - s)); }
  }

  lemma RightLimbsMove(a: seq<Word>, k: nat, s: nat, i: nat)
    requires s < 32 && i < |a|
    ensures forall j :: 0 <= j < |a| && j != i - k && j != i - k - 1 ==> RightLimb(a, k, s, i + 1, j) == RightLimb(a, k, s, i, j)
    ensures i - k - 1 >= 0 && s != 0 ==>
              RightLimb(a, k, s, i + 1, i - k - 1) == BitOr(RightLimb(a, k, s, i, i - k - 1), ShiftLeft(a[i], 32 - s))
    ensures i - k - 1 >= 0 && s == 0 ==> RightLimb(a, k, s, i + 1, i - k - 1) == RightLimb(a, k, s, i, i - k - 1)
    ensures i - k >= 0 ==> RightLimb(a, k, s, i + 1, i - k) == BitOr(RightLimb(a, k, s, i, i - k), ShiftRight(a[i], s))
  {
    hide ShiftLeft, ShiftRight, Or;
    OrZero(ShiftRight(a[i], s));
  }

  lemma NonZeroLimb(a: seq<Word>, i: nat)
    requires i < |a| && a[i] != 0
    ensures Value(a) > 0
  {
    if i > 0 { NonZeroLimb(a[1..], i - 1); }
  }

  lemma AddOfNegated(x: nat, y: nat, m: nat)
    requires m > 0 && x < m && y < m
    ensures (x + (m - y) % m) % m == (x - y) % m
  {
    if y == 0 {
      QuotientUnique(m, m, 1, 0);
    } else {
      QuotientUnique(m - y, m, 0, m - y);
      if x >= y {
        QuotientUnique(x + m - y, m, 1, x - y);
        QuotientUnique(x - y, m, 0, x - y);
      } else {
        QuotientUnique(x + m - y, m, 0, x + m - y);
        QuotientUnique(x - y, m, -1, x - y + m);
      }
    }
  }

  lemma WorthOfBytes(width: nat)
    ensures Worth(width) == Pow2(8 * (4 * width))
  {
  }

  lemma NothingRead(a: seq<Word>, digits: string)
    requires forall k :: 0 <= k < |a| ==> a[k] == 0
    ensures Value(a) == HexNumber(digits[|digits|..]) && ZeroFrom(a, 0)
  {
    ValueOfZeros(a);
  }

  /** A digit in the low half of an empty byte. */
  lemma OneDigit(a: seq<Word>, at: nat, digits: string, k: nat)
    requires at < 4 * |a| && ZeroFrom(a, at)
    requires k < |digits| && |digits| - k - 1 == 2 * at && Value(a) == HexNumber(digits[k + 1..])
    ensures var w := WithByte(a[at / 4], at % 4, DigitValue(digits[k]));
            Value(a[at / 4 := w]) == HexNumber(digits[k..]) && ByteOf(w, at % 4) == DigitValue(digits[k])
  {
    hide Value, Pow2, HexNumber, WithByte, ByteOf;
    var low := DigitValue(digits[k]);
    DigitInFront(digits, k);
    ByteWritten(a[at / 4], at % 4, low, low);
    ByteAdded(a, at, low);
  }

  /** A second digit in the high half. */
  lemma TwoDigits(a: seq<Word>, at: nat, digits: string, k: nat)
    requires at < 4 * |a| && ZeroFrom(a, at)
    requires 1 <= k < |digits| && |digits| - k - 1 == 2 * at && Value(a) == HexNumber(digits[k + 1..])
    ensures DigitValue(digits[k - 1]) * 16 < 0x100
    ensures var low, high := DigitValue(digits[k]), DigitValue(digits[k - 1]);
            var w := WithByte(a[at / 4], at % 4, low);
            && BitOr(low, high * 16) < 0x100
            && var r := a[at / 4 := w][at / 4 := WithByte(w, at % 4, BitOr(low, high * 16))];
               Value(r) == HexNumber(digits[k - 1..]) && ZeroFrom(r, at + 1)
  {
    hide Value, Pow2, HexNumber, WithByte, ByteOf, BitOr;
    var low, high := DigitValue(digits[k]), DigitValue(digits[k - 1]);
    DigitInFront(digits, k);
    DigitInFront(digits, k - 1);
    DigitsAdded(at, low, high);
    ByteWritten(a[at / 4], at % 4, low, low + 16 * high);
    ByteAdded(a, at, low + 16 * high);
    var w := WithByte(a[at / 4], at % 4, low);
    assert a[at / 4 := w][at / 4 := WithByte(w, at % 4, low + 16 * high)] == a[at / 4 := WithByte(a[at / 4], at % 4, low + 16 * high)];
  }

  /** Either every digit has been read, or as many as there are places. */
  lemma AllRead(digits: string, rest: nat, width: nat, v: nat)
    requires rest <= |digits| && v == HexNumber(digits[rest..])
    requires |digits| - rest <= 8 * width && (rest > 0 ==> |digits| - rest == 8 * width)
    ensures v == HexNumber(digits) % Worth(width)
  {
    hide HexNumber;
    if rest > 0 {
      LastDigits(digits, 8 * width);
    } else {
      assert digits[0..] == digits;
      HexNumberBound(digits);
      Pow2Sum(4 * |digits|, 32 * width - 4 * |digits|);
      Larger(Pow2(32 * width - 4 * |digits|), Pow2(4 * |digits|));
      Commute(Pow2(32 * width - 4 * |digits|), Pow2(4 * |digits|));
      QuotientUnique(v, Worth(width), 0, v);
    }
  }

  /** What SetHex makes of the text that GetHex printed for the number v. */
  lemma HexRoundTrip(v: nat, width: nat)
    requires v < Worth(width)
    ensures HexNumber(DigitsOf(HexOf(v, 8 * width))) % Worth(width) == v
  {
    DigitsOfHexOf(v, 8 * width);
    HexNumberOfHexOf(v, 8 * width);
    QuotientUnique(v, Worth(width), 0, v);
  }
}
