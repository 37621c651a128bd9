/**
 The format strings of printf and printf_terminal_active: which text they print for a buffer and
 the words on the stack, and where they stop.
 */
module Formats {
  import opened Bytes
  import opened Numbers

  const PERCENT: byte := 37
  const HASH: byte := 35

  /** A word on the stack, and the memory at that address if it is taken as a string. */
  datatype Arg = Arg(word: int, pointee: seq<byte>)

  predicate ArgsOk(args: seq<Arg>) {
    forall i :: 0 <= i < |args| ==> 0 <= args[i].word < TWO32 && 0 in args[i].pointee
  }

  /** The specifiers x, u, d, c and s. */
  predicate TakesArg(c: byte) {
    c == 120 || c == 117 || c == 100 || c == 99 || c == 115
  }

  function Converted(c: byte, alternate: bool, a: Arg): seq<byte>
    requires TakesArg(c) && ArgsOk([a])
  {
    assert [a][0] == a;
    if c == 120 then if alternate then PaddedHex(a.word) else Numeral(a.word, 16)
    else if c == 117 then Numeral(a.word, 10)
    else if c == 100 then SignedText(S32(a.word))
    else if c == 99 then [a.word % 256]
    else CStr(a.pointee)
  }

  /** What is printed, and the index of the NUL it stops at; -1 if buffer or stack are too short for it to stop. */
  datatype Output = Output(text: seq<byte>, end: int)

  function After(text: seq<byte>, rest: Output): Output {
    Output(text + rest.text, rest.end)
  }

  lemma AfterAfter(a: seq<byte>, b: seq<byte>, rest: Output)
    ensures After(a, After(b, rest)) == After(a + b, rest)
  {
    assert a + (b + rest.text) == a + b + rest.text;
  }

  function Formatted(buf: seq<byte>, args: seq<Arg>, at: nat): Output
    requires ArgsOk(args)
    decreases |buf| - at
  {
    if at >= |buf| then Output([], -1)
    else if buf[at] == 0 then Output([], at)
    else if buf[at] == PERCENT then Conversion(buf, args, at + 1, false)
    else After([buf[at]], Formatted(buf, args, at + 1))
  }

  /** Behind a percent sign; a NUL there is an unknown specifier and does not stop the scan. */
  function Conversion(buf: seq<byte>, args: seq<Arg>, at: nat, alternate: bool): Output
    requires ArgsOk(args)
    decreases |buf| - at
  {
    if at >= |buf| then Output([], -1)
    else if buf[at] == HASH then Conversion(buf, args, at + 1, true)
    else if TakesArg(buf[at]) then
      if args == [] then Output([], -1)
      else After(Converted(buf[at], alternate, args[0]), Formatted(buf, args[1..], at + 1))
    else After(if buf[at] == PERCENT then [PERCENT] else [], Formatted(buf, args, at + 1))
  }

  // ---------------------------------------------------------------- what the format promises

  /** Text without percent signs is printed as it is, up to its NUL. */
  lemma {:induction false} PlainText(buf: seq<byte>, args: seq<Arg>, at: nat)
    requires ArgsOk(args) && at <= |buf| && 0 in buf[at..] && PERCENT !in CStr(buf[at..])
    ensures Formatted(buf, args, at) == Output(CStr(buf[at..]), at + |CStr(buf[at..])|)
    decreases |buf| - at
  {
    if buf[at] != 0 {
      assert buf[at..][1..] == buf[at + 1..] && buf[at..] == [buf[at]] + buf[at + 1..];
      assert CStr(buf[at..])[0] == buf[at];
      PlainText(buf, args, at + 1);
    }
  }

  /**
   What each specifier prints: x a hexadecimal and u a decimal numeral of the word, #x eight
   hexadecimal digits, d the word as a signed number, c its low byte, s the string it points to.
   */
  lemma SpecifierPrints(c: byte, alternate: bool, a: Arg)
    requires TakesArg(c) && ArgsOk([a])
    ensures var text := Converted(c, alternate, a);
            && (c == 'x' as int && !alternate ==> IsNumeral(text, 16) && Value(text, 16) == a.word)
            && (c == 'x' as int && alternate ==> |text| == 8 && Digits(text, 16) && Value(text, 16) == a.word)
            && (c == 'u' as int ==> IsNumeral(text, 10) && Value(text, 10) == a.word)
            && (c == 'd' as int ==> SignedValue(text) == S32(a.word))
            && (c == 'c' as int ==> |text| == 1 && (a.word - text[0]) % 256 == 0)
            && (c == 's' as int ==> 0 !in text && |text| < |a.pointee| && a.pointee[|text|] == 0
                                    && text == a.pointee[..|text|])
  {
    assert [a][0] == a;
    hide Numeral, Value, IsNumeral, Digits, PaddedHex, SignedText, SignedValue;
    if c == 'x' as int {
      NumeralValue(a.word, 16);
      PaddedHexValue(a.word);
    } else if c == 'u' as int {
      NumeralValue(a.word, 10);
    } else if c == 'd' as int {
      SignedTextValue(S32(a.word));
    } else if c == 'c' as int {
      DivModUnique(a.word - a.word % 256, 256, a.word / 256, 0);
    }
  }

  /** Text in front of whatever stands at index at. */
  lemma {:induction false} TextFirst(buf: seq<byte>, args: seq<Arg>, from: nat, at: nat)
    requires ArgsOk(args) && from <= at <= |buf|
    requires forall i :: from <= i < at ==> buf[i] != 0 && buf[i] != PERCENT
    ensures Formatted(buf, args, from) == After(buf[from..at], Formatted(buf, args, at))
    decreases at - from
  {
    if from < at {
      TextFirst(buf, args, from + 1, at);
      AfterAfter([buf[from]], buf[from + 1..at], Formatted(buf, args, at));
      assert [buf[from]] + buf[from + 1..at] == buf[from..at];
    }
  }

  /** One conversion between plain texts prints the first, then its argument, then the second. */
  lemma OneConversion(before: seq<byte>, alternate: bool, c: byte, after: seq<byte>, rest: seq<byte>, args: seq<Arg>)
    requires ArgsOk(args) && args != [] && TakesArg(c)
    requires 0 !in before && PERCENT !in before && 0 !in after && PERCENT !in after
    ensures var spec := if alternate then [PERCENT, HASH, c] else [PERCENT, c];
            Formatted(before + spec + after + [0] + rest, args, 0) ==
            Output(before + Converted(c, alternate, args[0]) + after, |before| + |spec| + |after|)
  {
    hide Converted, Formatted, TakesArg;
    var spec, text := if alternate then [PERCENT, HASH, c] else [PERCENT, c], Converted(c, alternate, args[0]);
    var buf, m := before + spec + after + [0] + rest, |before| + |spec|;
    assert buf[0..|before|] == before && buf[m..m + |after|] == after && buf[m + |after|] == 0;
    assert buf[|before|..m] == spec;
    TextFirst(buf, args, 0, |before|);
    SpecAt(buf, args, |before|, alternate, c);
    TextLast(buf, args[1..], m, after);
    AfterAfter(before, text, Output(after, m + |after|));
  }

  /** Plain text up to the terminator. */
  lemma TextLast(buf: seq<byte>, args: seq<Arg>, from: nat, text: seq<byte>)
    requires ArgsOk(args) && 0 !in text && PERCENT !in text
    requires from + |text| < |buf| && buf[from..from + |text|] == text && buf[from + |text|] == 0
    ensures Formatted(buf, args, from) == Output(text, from + |text|)
  {
    assert forall i :: from <= i < from + |text| ==> buf[i] == buf[from..from + |text|][i - from];
    TextFirst(buf, args, from, from + |text|);
  }

  lemma SpecAt(buf: seq<byte>, args: seq<Arg>, at: nat, alternate: bool, c: byte)
    requires ArgsOk(args) && args != [] && TakesArg(c)
    requires var spec := if alternate then [PERCENT, HASH, c] else [PERCENT, c];
             at + |spec| <= |buf| && buf[at..at + |spec|] == spec
    ensures Formatted(buf, args, at) ==
            After(Converted(c, alternate, args[0]), Formatted(buf, args[1..], at + if alternate then 3 else 2))
  {
    var spec := if alternate then [PERCENT, HASH, c] else [PERCENT, c];
    var part := buf[at..at + |spec|];
    assert buf[at] == part[0] && buf[at + 1] == part[1] && buf[at + |spec| - 1] == part[|spec| - 1];
    hide Converted;
    assert Formatted(buf, args, at) == Conversion(buf, args, at + 1, false);
    if alternate {
      assert buf[at + 2] == c;
      assert Conversion(buf, args, at + 1, false) == Conversion(buf, args, at + 2, true);
    }
  }

  /** Every percent sign doubled. */
  function Escaped(text: seq<byte>): seq<byte> {
    if text == [] then [] else
      (if text[0] == PERCENT then [PERCENT, PERCENT] else [text[0]]) + Escaped(text[1..])
  }

  /** Escaping is undone by printing: any text comes out as it is, without looking at the stack. */
  lemma {:induction false} EscapedPrints(before: seq<byte>, text: seq<byte>, after: seq<byte>, args: seq<Arg>)
    requires ArgsOk(args) && 0 !in text
    ensures var buf := before + Escaped(text) + [0] + after;
            Formatted(buf, args, |before|) == Output(text, |before| + |Escaped(text)|)
    decreases |text|
  {
    var buf := before + Escaped(text) + [0] + after;
    if text != [] {
      var c := if text[0] == PERCENT then [PERCENT, PERCENT] else [text[0]];
      assert before + c + Escaped(text[1..]) + [0] + after == buf;
      EscapedPrints(before + c, text[1..], after, args);
      assert buf[|before|] == text[0];
      assert text == [text[0]] + text[1..];
    }
  }

  /** The text ends behind a percent sign that no specifier follows. */
  function EndsOpen(text: seq<byte>, inside: bool): bool {
    if text == [] then inside else EndsOpen(text[1..], if inside then text[0] == HASH else text[0] == PERCENT)
  }

  lemma {:induction false} EndFrom(buf: seq<byte>, args: seq<Arg>, at: nat, inside: bool, alternate: bool)
    requires ArgsOk(args) && at <= |buf| && 0 in buf[at..] && |args| >= |CStr(buf[at..])|
    ensures var r := if inside then Conversion(buf, args, at, alternate) else Formatted(buf, args, at);
            r.end == at + |CStr(buf[at..])| <==> !EndsOpen(CStr(buf[at..]), inside)
    ensures inside && EndsOpen(CStr(buf[at..]), inside) ==>
              var r := Conversion(buf, args, at, alternate); r.end == -1 || r.end > at + |CStr(buf[at..])|
    ensures !inside && EndsOpen(CStr(buf[at..]), inside) ==>
              var r := Formatted(buf, args, at); r.end == -1 || r.end > at + |CStr(buf[at..])|
    decreases |buf| - at
  {
    var text := CStr(buf[at..]);
    if buf[at] == 0 {
      if inside {
        EndIsLater(buf, args, at + 1);
      }
    } else {
      assert buf[at..][1..] == buf[at + 1..] && text == [buf[at]] + CStr(buf[at + 1..]);
      var more := if inside then buf[at] == HASH else buf[at] == PERCENT;
      var left := if inside && TakesArg(buf[at]) then args[1..] else args;
      EndFrom(buf, left, at + 1, more, inside);
    }
  }

  lemma {:induction false} EndIsLater(buf: seq<byte>, args: seq<Arg>, at: nat)
    requires ArgsOk(args)
    ensures Formatted(buf, args, at).end == -1 || Formatted(buf, args, at).end >= at
    ensures forall alternate :: Conversion(buf, args, at, alternate).end == -1
                                || Conversion(buf, args, at, alternate).end >= at
    decreases |buf| - at
  {
    if at < |buf| {
      EndIsLater(buf, args, at + 1);
      if args != [] {
        EndIsLater(buf, args[1..], at + 1);
      }
    }
  }

  /**
   The scan stops at the string's own terminator if and only if the string does not end inside a
   conversion; otherwise it runs on into the memory behind.
   */
  lemma StopsAtTerminator(buf: seq<byte>, args: seq<Arg>)
    requires ArgsOk(args) && 0 in buf && |args| >= |CStr(buf)|
    ensures Formatted(buf, args, 0).end == |CStr(buf)| <==> !EndsOpen(CStr(buf), false)
  {
    assert buf[0..] == buf;
    EndFrom(buf, args, 0, false, false);
  }

  // ---------------------------------------------------------------- lib.c

  /** Passes the hash signs in front of a specifier. */
  method Specifier(buf: seq<byte>, args: seq<Arg>, at: nat) returns (spec: nat, alternate: bool)
    requires ArgsOk(args) && Conversion(buf, args, at, false).end >= 0
    ensures at <= spec < |buf| && buf[spec] != HASH
    ensures Conversion(buf, args, at, false) == Conversion(buf, args, spec, alternate)
  {
    spec, alternate := at, false;
    while buf[spec] == HASH
      invariant at <= spec < |buf|
      invariant Conversion(buf, args, at, false) == Conversion(buf, args, spec, alternate)
      decreases |buf| - spec
    {
      spec, alternate := spec + 1, true;
    }
  }

  method Convert(c: byte, alternate: bool, a: Arg) returns (text: seq<byte>)
    requires TakesArg(c) && ArgsOk([a])
    ensures text == Converted(c, alternate, a)
  {
    assert [a][0] == a;
    match c {
      case 120 =>
        if !alternate {
          text := Unsigned(a.word, 16);
        } else {
          text := Hex8(a.word);
        }
      case 117 => text := Unsigned(a.word, 10);
      case 100 => text := SignedDecimal(S32(a.word));
      case 99 => text := [a.word % 256];
      case _ =>
        var n := Strlen(a.pointee);
        text := a.pointee[..n];
    }
  }

  /** One round of the format loop: what is printed next, the words left on the stack, where to go on. */
  method NextText(buf: seq<byte>, args: seq<Arg>, at: nat) returns (text: seq<byte>, left: seq<Arg>, next: nat)
    requires ArgsOk(args) && at < |buf| && buf[at] != 0 && Formatted(buf, args, at).end >= 0
    ensures ArgsOk(left) && at < next <= |buf|
    ensures Formatted(buf, args, at) == After(text, Formatted(buf, left, next))
  {
    left := args;
    if buf[at] != PERCENT {
      return [buf[at]], left, at + 1;
    }
    var spec, alternate := Specifier(buf, args, at + 1);
    if TakesArg(buf[spec]) {
      text := Convert(buf[spec], alternate, args[0]);
      left := args[1..];
    } else {
      text := if buf[spec] == PERCENT then [PERCENT] else [];
    }
    next := spec + 1;
  }
}
