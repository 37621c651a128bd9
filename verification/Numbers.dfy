/**
 Number printing in lib.c: itoa writes digits from the lowest up and reverses them in place;
 printf pads %#x to eight digits.
 */
module Numbers {
  import opened Bytes

  const ZERO: byte := 48

  /** The lookup string 0-9A-Z. */
  function DigitChar(d: int): (c: byte)
    requires 0 <= d < 36
  {
    if d < 10 then ZERO + d else 55 + d
  }

  /** The digit a character stands for; -1 for any other character. */
  function DigitValue(c: byte): (d: int)
    ensures -1 <= d < 36
  {
    if 48 <= c <= 57 then c - 48 else if 65 <= c <= 90 then c - 55 else -1
  }

  predicate Digits(s: seq<byte>, radix: int) {
    forall i :: 0 <= i < |s| ==> 0 <= DigitValue(s[i]) < radix
  }

  /** The number a string of digits denotes, most significant digit first. */
  function Value(s: seq<byte>, radix: int): int
    decreases |s|
  {
    if s == [] then 0 else Value(s[..|s| - 1], radix) * radix + DigitValue(s[|s| - 1])
  }

  /** A digit string without superfluous zeros in front. */
  predicate IsNumeral(s: seq<byte>, radix: int) {
    s != [] && Digits(s, radix) && (|s| > 1 ==> s[0] != ZERO)
  }

  /** The digits of v from the lowest up, none for zero. */
  function LowFirst(v: nat, radix: int): (s: seq<byte>)
    requires 2 <= radix <= 36
    decreases v
  {
    if v == 0 then [] else [DigitChar(v % radix)] + LowFirst(v / radix, radix)
  }

  function Reverse(s: seq<byte>): (r: seq<byte>)
    ensures |r| == |s| && forall i :: 0 <= i < |r| ==> r[i] == s[|s| - 1 - i]
  {
    seq(|s|, i requires 0 <= i < |s| => s[|s| - 1 - i])
  }

  function Numeral(v: nat, radix: int): seq<byte>
    requires 2 <= radix <= 36
  {
    if v == 0 then [ZERO] else Reverse(LowFirst(v, radix))
  }

  function Pow2(n: nat): (p: int)
    ensures p >= 1
  {
    if n == 0 then 1 else 2 * Pow2(n - 1)
  }

  // ---------------------------------------------------------------- round trip

  lemma Split(v: nat, radix: int)
    requires 2 <= radix
    ensures v == v / radix * radix + v % radix && 0 <= v % radix < radix && 0 <= 2 * (v / radix) <= v
  {
    var q := v / radix;
    assert q >= 0;
    assert q * radix == q * 2 + q * (radix - 2);
  }

  lemma {:induction false} LowFirstIsNumeral(v: nat, radix: int)
    requires 2 <= radix <= 36 && v > 0
    ensures var r := Reverse(LowFirst(v, radix)); IsNumeral(r, radix) && r[0] != ZERO && Value(r, radix) == v
    decreases v
  {
    Split(v, radix);
    var rest, r := LowFirst(v / radix, radix), Reverse(LowFirst(v, radix));
    assert r == Reverse(rest) + [DigitChar(v % radix)];
    assert r[..|r| - 1] == Reverse(rest);
    if v / radix > 0 {
      LowFirstIsNumeral(v / radix, radix);
    }
  }

  /** Reading back what is printed gives the number, and it is a numeral. */
  lemma NumeralValue(v: nat, radix: int)
    requires 2 <= radix <= 36
    ensures IsNumeral(Numeral(v, radix), radix) && Value(Numeral(v, radix), radix) == v
  {
    if v > 0 {
      LowFirstIsNumeral(v, radix);
    } else {
      assert [ZERO][..0] == [];
    }
  }

  lemma {:induction false} ValueBounds(s: seq<byte>, radix: int)
    requires 2 <= radix <= 36 && Digits(s, radix)
    ensures Value(s, radix) >= 0 && (s != [] && s[0] != ZERO ==> Value(s, radix) > 0)
    decreases |s|
  {
    if s != [] {
      ValueBounds(s[..|s| - 1], radix);
      if |s| == 1 {
        assert Value(s[..0], radix) == 0;
      }
    }
  }

  /** The numeral of a number is unique. */
  lemma {:induction false} NumeralUnique(s: seq<byte>, radix: int)
    requires 2 <= radix <= 36 && IsNumeral(s, radix)
    ensures Value(s, radix) >= 0 && s == Numeral(Value(s, radix), radix)
    decreases |s|
  {
    var init, d := s[..|s| - 1], DigitValue(s[|s| - 1]);
    var q := Value(init, radix);
    ValueBounds(init, radix);
    DivModUnique(q * radix + d, radix, q, d);
    if |s| == 1 {
      assert init == [];
      if d > 0 {
        assert LowFirst(d, radix) == [DigitChar(d)];
      }
    } else {
      ValueBounds(s, radix);
      NumeralUnique(init, radix);
      assert q > 0;
      assert Reverse(LowFirst(Value(s, radix), radix)) == Reverse(LowFirst(q, radix)) + [DigitChar(d)];
    }
  }

  lemma {:induction false} Pow2Sum(m: nat, n: nat)
    ensures Pow2(m + n) == Pow2(m) * Pow2(n)
    decreases n
  {
    if n > 0 {
      Pow2Sum(m, n - 1);
    }
  }

  lemma Pow2Of32()
    ensures Pow2(32) == TWO32
  {
    assert Pow2(2) == 4;
    Pow2Sum(2, 2);
    Pow2Sum(4, 4);
    Pow2Sum(8, 8);
    Pow2Sum(16, 16);
  }

  lemma {:induction false} LengthBound(v: nat, radix: int, n: nat)
    requires 2 <= radix <= 36 && v < Pow2(n)
    ensures |LowFirst(v, radix)| <= n
    decreases v
  {
    if v > 0 {
      Split(v, radix);
      LengthBound(v / radix, radix, n - 1);
    }
  }

  /** Eight hexadecimal digits suffice for 32 bits. */
  lemma {:induction false} HexLength(v: nat, n: nat)
    requires v < Pow2(4 * n)
    ensures |LowFirst(v, 16)| <= n
    decreases n
  {
    if v > 0 {
      assert Pow2(4 * n) == 2 * Pow2(4 * n - 1) == 4 * Pow2(4 * n - 2) == 8 * Pow2(4 * n - 3) == 16 * Pow2(4 * n - 4);
      HexLength(v / 16, n - 1);
    }
  }

  lemma {:induction false} LeadingZeros(s: seq<byte>, k: nat, radix: int)
    ensures Value(seq(k, _ => ZERO) + s, radix) == Value(s, radix)
    decreases |s|, k
  {
    var zs := seq(k, _ => ZERO);
    if s != [] {
      assert (zs + s)[..|zs + s| - 1] == zs + s[..|s| - 1];
      LeadingZeros(s[..|s| - 1], k, radix);
    } else if k > 0 {
      assert (zs + s)[..k - 1] == seq(k - 1, _ => ZERO) + s;
      LeadingZeros(s, k - 1, radix);
    }
  }

  // ---------------------------------------------------------------- lib.c

  /** The string at buf + at is s, NUL-terminated. */
  ghost predicate StringAt(buf: array<byte>, at: int, s: seq<byte>)
    reads buf
  {
    && 0 <= at && at + |s| < buf.Length && buf[at + |s|] == 0
    && forall i {:trigger s[i]} :: 0 <= i < |s| ==> buf[at + i] == s[i] != 0
  }

  method StrlenAt(buf: array<byte>, at: int, ghost s: seq<byte>) returns (n: int)
    requires StringAt(buf, at, s)
    ensures n == |s|
  {
    n := 0;
    while buf[at + n] != 0
      invariant 0 <= n <= |s|
      invariant n < |s| ==> buf[at + n] == s[n] != 0
      decreases |s| - n
    {
      n := n + 1;
      assert n < |s| ==> s[n] != 0;
    }
  }

  method Strrev(buf: array<byte>, at: int, ghost s: seq<byte>)
    requires StringAt(buf, at, s)
    modifies buf
    ensures StringAt(buf, at, Reverse(s))
    ensures forall i :: 0 <= i < at ==> buf[i] == old(buf[i])
  {
    var n := StrlenAt(buf, at, s);
    var beg, end := 0, n - 1;
    while beg < end
      invariant 0 <= beg && beg + end == n - 1 && beg <= end + 2
      invariant forall i {:trigger s[i]} :: 0 <= i < n ==>
                  buf[at + i] == if i < beg || end < i then s[n - 1 - i] else s[i]
      invariant buf[at + n] == 0
      invariant forall i :: 0 <= i < at ==> buf[i] == old(buf[i])
    {
      var tmp := buf[at + end];
      assert buf[at + end] == s[end] && buf[at + beg] == s[beg];
      buf[at + end] := buf[at + beg];
      buf[at + beg] := tmp;
      beg, end := beg + 1, end - 1;
    }
    forall i | 0 <= i < n ensures buf[at + i] == Reverse(s)[i] != 0 {
      assert s[i] != 0 && s[n - 1 - i] != 0;
    }
  }

  lemma {:induction false} LowFirstNonZero(v: nat, radix: int)
    requires 2 <= radix <= 36
    ensures 0 !in LowFirst(v, radix)
    decreases v
  {
    if v > 0 {
      Split(v, radix);
      LowFirstNonZero(v / radix, radix);
    }
  }

  lemma LowFirstFits(v: nat, radix: int)
    requires 2 <= radix <= 36 && v < TWO32
    ensures |LowFirst(v, radix)| <= 32 && 0 !in LowFirst(v, radix)
  {
    Pow2Of32();
    LengthBound(v, radix, 32);
    LowFirstNonZero(v, radix);
  }

  lemma HexFits(v: nat)
    requires v < TWO32
    ensures |Numeral(v, 16)| <= 8
  {
    Pow2Of32();
    HexLength(v, 8);
  }

  lemma PaddedValue(s: seq<byte>, k: nat, radix: int)
    requires Digits(s, radix) && radix > 0
    ensures var padded := seq(k, _ => ZERO) + s; Digits(padded, radix) && Value(padded, radix) == Value(s, radix)
  {
    LeadingZeros(s, k, radix);
  }

  /** itoa into buf + at: the numeral of value, NUL-terminated; 33 bytes are enough for any radix. */
  method Itoa(value: int, buf: array<byte>, at: int, radix: int)
    requires 0 <= value < TWO32 && 2 <= radix <= 36 && 0 <= at && at + 33 <= buf.Length
    modifies buf
    ensures StringAt(buf, at, Numeral(value, radix))
    ensures forall i :: 0 <= i < at ==> buf[i] == old(buf[i])
  {
    if value == 0 {
      buf[at] := ZERO;
      buf[at + 1] := 0;
      return;
    }
    ghost var digits := LowFirst(value, radix);
    LowFirstFits(value, radix);
    var newval, n := value, 0;
    while newval > 0
      invariant 0 <= newval && 0 <= n <= |digits| && digits[n..] == LowFirst(newval, radix)
      invariant forall i {:trigger digits[i]} :: 0 <= i < n ==> buf[at + i] == digits[i]
      invariant forall i :: 0 <= i < at ==> buf[i] == old(buf[i])
      decreases newval
    {
      Split(newval, radix);
      assert digits[n] == DigitChar(newval % radix) && digits[n + 1..] == LowFirst(newval / radix, radix);
      buf[at + n] := DigitChar(newval % radix);
      n := n + 1;
      newval := newval / radix;
    }
    buf[at + n] := 0;
    Strrev(buf, at, digits);
  }

  function SignedText(value: int): seq<byte> {
    if value < 0 then [45] + Numeral(-value, 10) else Numeral(value, 10)
  }

  /** The number a signed decimal text denotes. */
  function SignedValue(text: seq<byte>): int {
    if text != [] && text[0] == 45 then -Value(text[1..], 10) else Value(text, 10)
  }

  /** A signed text is a minus sign exactly for a negative number, then a decimal numeral, and denotes that number. */
  lemma SignedTextValue(value: int)
    ensures var text := SignedText(value);
            && text != [] && (text[0] == 45 <==> value < 0)
            && IsNumeral(if value < 0 then text[1..] else text, 10)
            && SignedValue(text) == value
  {
    NumeralValue(if value < 0 then -value else value, 10);
    var text := SignedText(value);
    assert value < 0 ==> text[1..] == Numeral(-value, 10);
  }

  /** Eight hexadecimal digits that denote the number. */
  lemma PaddedHexValue(value: nat)
    requires value < TWO32
    ensures var text := PaddedHex(value); |text| == 8 && Digits(text, 16) && Value(text, 16) == value
  {
    HexFits(value);
    NumeralValue(value, 16);
    PaddedValue(Numeral(value, 16), 8 - |Numeral(value, 16)|, 16);
  }

  function PaddedHex(value: nat): seq<byte> {
    var s := Numeral(value, 16);
    seq(Max(0, 8 - |s|), _ => ZERO) + s
  }

  /** %u and %x: the conversion buffer holds the numeral. */
  method Unsigned(value: int, radix: int) returns (text: seq<byte>)
    requires 0 <= value < TWO32 && (radix == 10 || radix == 16)
    ensures text == Numeral(value, radix)
  {
    var convBuf := new byte[64];
    Itoa(value, convBuf, 0, radix);
    text := ReadString(convBuf, 0, Numeral(value, radix));
  }

  /** %d: a minus sign and the magnitude, also for the least number, whose negation wraps to itself. */
  method SignedDecimal(value: int) returns (text: seq<byte>)
    requires -0x8000_0000 <= value < 0x8000_0000
    ensures text == SignedText(value)
  {
    var convBuf := new byte[36];
    if value < 0 {
      convBuf[0] := 45;
      Itoa(U32(-value), convBuf, 1, 10);
      text := ReadString(convBuf, 1, Numeral(-value, 10));
      text := [convBuf[0]] + text;
    } else {
      Itoa(value, convBuf, 0, 10);
      text := ReadString(convBuf, 0, Numeral(value, 10));
    }
  }

  /** %#x: always eight hexadecimal digits, denoting the value. */
  method Hex8(value: int) returns (text: seq<byte>)
    requires 0 <= value < TWO32
    ensures text == PaddedHex(value)
    ensures |text| == 8 && Digits(text, 16) && Value(text, 16) == value
  {
    var convBuf := new byte[64];
    ghost var s := Numeral(value, 16);
    Itoa(value, convBuf, 8, 16);
    HexFits(value);
    var start := Pad(convBuf, s);
    text := ReadString(convBuf, start, seq(8 - start, _ => ZERO) + s);
    NumeralValue(value, 16);
    PaddedValue(s, 8 - start, 16);
  }

  /** The zeros between the end of the digit count and position 8, where the digits stand. */
  method Pad(convBuf: array<byte>, ghost s: seq<byte>) returns (start: int)
    requires convBuf.Length == 64 && |s| <= 8 && StringAt(convBuf, 8, s)
    modifies convBuf
    ensures start == |s| && StringAt(convBuf, start, seq(8 - start, _ => ZERO) + s)
  {
    start := StrlenAt(convBuf, 8, s);
    var i := start;
    while i < 8
      invariant start <= i <= 8
      invariant StringAt(convBuf, 8, s)
      invariant forall k :: start <= k < i ==> convBuf[k] == ZERO
    {
      convBuf[i] := ZERO;
      i := i + 1;
    }
    ghost var padded := seq(8 - start, _ => ZERO) + s;
    forall k | 0 <= k < |padded| ensures convBuf[start + k] == padded[k] != 0 {
      if k >= 8 - start {
        assert padded[k] == s[k - (8 - start)];
      }
    }
  }

  /** What puts prints of the string at buf + at. */
  method ReadString(buf: array<byte>, at: int, ghost s: seq<byte>) returns (text: seq<byte>)
    requires StringAt(buf, at, s)
    ensures text == s
  {
    var n := StrlenAt(buf, at, s);
    text := buf[at..at + n];
    assert forall i :: 0 <= i < n ==> text[i] == buf[at + i] == s[i];
  }
}
