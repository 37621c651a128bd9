/**
 What terminal_read returns: over every run the lines read from a terminal are those of a plain
 line discipline fed with its own keys, as long as it is displayed when it is read.
 */
module Sessions {
  import opened Bytes
  import opened Limits
  import opened Screens
  import opened Terminals

  // ---------------------------------------------------------------- the line discipline

  /** One input to the line being typed: ENTER appends a newline, backspace drops the last character. */
  function Lined(line: seq<byte>, i: Input): seq<byte>
  {
    match i
    case Printed(_) => line
    case Taken(_) => []
    case Typed(k) =>
      if k < 0 || k >= 0x80 || k == CTRL_C || k == CTRL_L then line
      else if k == BS then DropLast(line)
      else if k == ENTER then line + [NL]
      else if |line| < KEY_BUFFER_SIZE then line + [k]
      else line
  }

  /** A read is given the line padded with NULs: at most 127 bytes, one less than it asked for. */
  function Answer(line: seq<byte>, numBytes: int): seq<byte> {
    seq(Min(Max(0, numBytes - 1), KEY_BUFFER_SIZE), i => if 0 <= i < |line| then line[i] else 0)
  }

  function Answers(line: seq<byte>, ins: seq<Input>): seq<seq<byte>>
    decreases |ins|
  {
    if ins == [] then [] else
      (if ins[0].Taken? then [Answer(line, ins[0].numBytes)] else []) + Answers(Lined(line, ins[0]), ins[1..])
  }

  // ---------------------------------------------------------------- what the reads return

  /** What terminal t's reads return over a run. */
  ghost function LinesRead(s: System, es: seq<Event>, t: int): seq<seq<byte>>
    requires SystemOk(s) && Legal(s, es) && 0 <= t < MAX_TERM
    decreases |es|
  {
    if es == [] then [] else
      (if es[0].Read? && s.act == t then [LineTaken(s.term[t], es[0].numBytes)] else [])
      + LinesRead(Step(s, es[0]), es[1..], t)
  }

  /** What an event hands out: one line for a read. */
  ghost function Returned(s: System, e: Event): seq<seq<byte>>
    requires SystemOk(s)
  {
    if e.Read? then [LineTaken(s.term[s.act], e.numBytes)] else []
  }

  /** What all reads of a run return, in order. */
  ghost function AllRead(s: System, es: seq<Event>): seq<seq<byte>>
    requires SystemOk(s) && Legal(s, es)
    decreases |es|
  {
    if es == [] then [] else Returned(s, es[0]) + AllRead(Step(s, es[0]), es[1..])
  }

  lemma RunSplits(s: System, es: seq<Event>, i: nat)
    requires SystemOk(s) && i < |es| && Legal(s, es[i..])
    ensures Enabled(s, es[i]) && Legal(Step(s, es[i]), es[i + 1..])
    ensures Run(s, es[i..]) == Run(Step(s, es[i]), es[i + 1..])
    ensures AllRead(s, es[i..]) == Returned(s, es[i]) + AllRead(Step(s, es[i]), es[i + 1..])
  {
    assert es[i..][1..] == es[i + 1..];
  }

  /** The buffer up to its index is the line. */
  ghost predicate Holds(l: Logical, line: seq<byte>) {
    0 <= l.idx <= |l.keys| && l.keys[..l.idx] == line
  }

  lemma FedLined(l: Logical, i: Input, line: seq<byte>, a: byte)
    requires LogicalOk(l, a) && InputAllowed(l, i) && Holds(l, line)
    ensures Holds(Fed(l, i, a), Lined(line, i))
  {
  }

  lemma TakenIsAnswer(l: Logical, line: seq<byte>, numBytes: int, a: byte)
    requires LogicalOk(l, a) && Holds(l, line)
    ensures LineTaken(l, numBytes) == Answer(line, numBytes)
  {
    assert forall i :: 0 <= i < |line| ==> l.keys[i] == line[i];
  }

  /**
   Over every run, whatever is typed, written, displayed and scheduled elsewhere, the reads of a
   terminal return its lines as the line discipline makes them.
   */
  lemma {:induction false} MultiplexedReads(s: System, es: seq<Event>, t: int, line: seq<byte>)
    requires SystemOk(s) && Legal(s, es) && 0 <= t < MAX_TERM && Holds(s.term[t], line)
    ensures LinesRead(s, es, t) == Answers(line, Inputs(s.cur, s.act, es, t))
    decreases |es|
  {
    if es != [] {
      var e, s', a := es[0], Step(s, es[0]), Attribute(t);
      var mine, rest := InputOf(s.cur, s.act, e, t), Inputs(s'.cur, s'.act, es[1..], t);
      assert LogicalOk(s.term[t], a) && Inputs(s.cur, s.act, es, t) == mine + rest;
      if mine == [] {
        assert mine + rest == rest;
        MultiplexedReads(s', es[1..], t, line);
      } else {
        var i := mine[0];
        assert mine == [i] && (mine + rest)[1..] == rest;
        FedLined(s.term[t], i, line, a);
        MultiplexedReads(s', es[1..], t, Lined(line, i));
        if e.Read? {
          TakenIsAnswer(s.term[t], line, e.numBytes, a);
        }
      }
    }
  }

  // ---------------------------------------------------------------- only ENTER lets a read return

  /** An ENTER among the inputs with no read behind it. */
  ghost predicate EnterSinceRead(ins: seq<Input>) {
    exists i :: 0 <= i < |ins| && ins[i] == Typed(ENTER) && NoRead(ins[i..])
  }

  ghost predicate NoRead(ins: seq<Input>) {
    forall i :: 0 <= i < |ins| ==> !ins[i].Taken?
  }

  lemma EnterAhead(i: Input, rest: seq<Input>)
    ensures EnterSinceRead([i] + rest) <==> EnterSinceRead(rest) || (i == Typed(ENTER) && NoRead(rest))
    ensures NoRead([i] + rest) <==> !i.Taken? && NoRead(rest)
  {
    var ins := [i] + rest;
    assert forall k :: 0 <= k < |rest| ==> ins[k + 1] == rest[k] && ins[k + 1..] == rest[k..];
    assert ins[0] == i && ins[0..] == ins;
    if k :| 0 <= k < |ins| && ins[k] == Typed(ENTER) && NoRead(ins[k..]) {
      if k > 0 {
        assert rest[k - 1] == Typed(ENTER) && NoRead(rest[k - 1..]);
      } else {
        assert forall j :: 0 <= j < |rest| ==> rest[j] == ins[0..][j + 1];
      }
    }
    if k :| 0 <= k < |rest| && rest[k] == Typed(ENTER) && NoRead(rest[k..]) {
      assert ins[k + 1] == Typed(ENTER) && NoRead(ins[k + 1..]);
    }
    if i == Typed(ENTER) && NoRead(rest) {
      assert NoRead(ins[0..]);
    }
    if NoRead(ins) {
      assert forall j :: 0 <= j < |rest| ==> rest[j] == ins[j + 1];
    }
  }

  lemma FlagAfter(l: Logical, i: Input, a: byte)
    requires LogicalOk(l, a) && InputAllowed(l, i)
    ensures Fed(l, i, a).entered == (i == Typed(ENTER) || (l.entered && !i.Taken?))
  {
  }

  /** A terminal's flag is set exactly if an ENTER came since its last read, or it was set and nothing has been read. */
  lemma {:induction false} AloneFlag(l: Logical, ins: seq<Input>, a: byte)
    requires LogicalOk(l, a) && InputsAllowed(l, ins, a)
    ensures Alone(l, ins, a).entered <==> EnterSinceRead(ins) || (l.entered && NoRead(ins))
    decreases |ins|
  {
    if ins != [] {
      FlagAfter(l, ins[0], a);
      AloneFlag(Fed(l, ins[0], a), ins[1..], a);
      EnterAhead(ins[0], ins[1..]);
      assert ins == [ins[0]] + ins[1..];
      hide EnterSinceRead, NoRead, LogicalOk, InputAllowed, Fed;
    }
  }

  /** Over every run, by the terminal's own inputs. */
  lemma MultiplexedFlag(s: System, es: seq<Event>, t: int)
    requires SystemOk(s) && Legal(s, es) && 0 <= t < MAX_TERM
    ensures var ins := Inputs(s.cur, s.act, es, t);
            Run(s, es).term[t].entered <==> EnterSinceRead(ins) || (s.term[t].entered && NoRead(ins))
  {
    TerminalsAreIndependent(s, es, t);
    AloneFlag(s.term[t], Inputs(s.cur, s.act, es, t), Attribute(t));
  }

  /** So no read returns before an ENTER in its own terminal, and each ENTER serves one read only. */
  lemma ReadNeedsEnter(s: System, es: seq<Event>, numBytes: int)
    requires SystemOk(s) && Legal(s, es) && !s.term[Run(s, es).act].entered
    requires Enabled(Run(s, es), Read(numBytes))
    ensures EnterSinceRead(Inputs(s.cur, s.act, es, Run(s, es).act))
  {
    MultiplexedFlag(s, es, Run(s, es).act);
  }

  // ---------------------------------------------------------------- a line at a prompt

  function TypedKeys(ks: seq<editkey>): (ins: seq<Input>)
    ensures |ins| == |ks| && forall i :: 0 <= i < |ks| ==> ins[i] == Typed(ks[i])
  {
    seq(|ks|, i requires 0 <= i < |ks| => Typed(ks[i]))
  }

  lemma KeyMakesLine(ks: seq<editkey>, i: nat)
    requires i < |ks|
    ensures Lined(EditedLine(ks[..i]), Typed(ks[i])) == EditedLine(ks[..i + 1])
  {
    assert ks[..i + 1][..i] == ks[..i];
  }

  lemma AnswersOfKey(line: seq<byte>, k: nat, rest: seq<Input>)
    ensures Answers(line, [Typed(k)] + rest) == Answers(Lined(line, Typed(k)), rest)
  {
    assert ([Typed(k)] + rest)[1..] == rest;
  }

  lemma {:induction false} KeysMakeLine(ks: seq<editkey>, i: nat, rest: seq<Input>)
    requires i <= |ks|
    ensures Answers(EditedLine(ks[..i]), TypedKeys(ks)[i..] + rest) == Answers(EditedLine(ks), rest)
    decreases |ks| - i
  {
    hide Lined, EditedLine, Answers;
    if i == |ks| {
      assert ks[..i] == ks && TypedKeys(ks)[i..] + rest == rest;
    } else {
      KeysMakeLine(ks, i + 1, rest);
      KeyMakesLine(ks, i);
      var later := TypedKeys(ks)[i + 1..] + rest;
      assert EditKey(ks[i]);
      AnswersOfKey(EditedLine(ks[..i]), ks[i], later);
      assert TypedKeys(ks)[i..] + rest == [Typed(ks[i])] + later;
    }
  }

  /** From an empty line, edit keys, ENTER and a read return the edited line with its newline. */
  lemma EnteredLineIsRead(ks: seq<editkey>, numBytes: int)
    ensures var ins := TypedKeys(ks) + [Typed(ENTER), Taken(numBytes)];
            Answers([], ins) == [Answer(EditedLine(ks) + [NL], numBytes)]
  {
    var rest := [Typed(ENTER), Taken(numBytes)];
    KeysMakeLine(ks, 0, rest);
    assert TypedKeys(ks)[0..] == TypedKeys(ks) && ks[..0] == [];
    var line := EditedLine(ks);
    hide EditedLine, Answer;
    assert rest[1..] == [Taken(numBytes)] && rest[1..][1..] == [];
    assert Answers(line + [NL], [Taken(numBytes)]) == [Answer(line + [NL], numBytes)];
    assert Answers(line, rest) == Answers(line + [NL], [Taken(numBytes)]);
  }

  /** A read returns all of a line exactly if it asks for more bytes than that and the line has at most 127. */
  lemma WholeLineExact(line: seq<byte>, numBytes: int)
    requires line != []
    ensures var r := Answer(line, numBytes);
            (|line| <= |r| && r[..|line|] == line) <==> |line| < numBytes && |line| <= KEY_BUFFER_SIZE
  {
    var r := Answer(line, numBytes);
    if |line| <= |r| {
      assert forall i :: 0 <= i < |line| ==> r[..|line|][i] == line[i];
    }
  }

  /** So the newline of a full line is cut off, whatever the read asks for. */
  lemma FullLineLosesNewline(ks: seq<editkey>, numBytes: int)
    requires |EditedLine(ks)| == KEY_BUFFER_SIZE
    ensures NL !in Answer(EditedLine(ks) + [NL], numBytes)
  {
  }

  // ---------------------------------------------------------------- reading while another terminal is displayed

  /** terminal_read as it is: it looks at its own terminal's flag and at the displayed terminal's buffer. */
  ghost function RawRead(s: System): (r: System)
    requires SystemOk(s)
    ensures SystemOk(r)
  {
    BufferCleared(FlagCleared(s))
  }

  ghost function FlagCleared(s: System): (r: System)
    requires SystemOk(s)
    ensures SystemOk(r)
  {
    s.(term := s.term[s.act := s.term[s.act].(entered := false)])
  }

  lemma FlagKeepsLine(s: System, numBytes: int)
    requires SystemOk(s)
    ensures FlagCleared(s).cur == s.cur
    ensures LineTaken(FlagCleared(s).term[s.cur], numBytes) == LineTaken(s.term[s.cur], numBytes)
  {
  }

  /** clear_buf. */
  ghost function BufferCleared(s: System): (r: System)
    requires SystemOk(s)
    ensures SystemOk(r)
  {
    s.(term := s.term[s.cur := s.term[s.cur].(keys := ClearedKeys(s.term[s.cur]), idx := 0)])
  }

  /** A read leaves the other terminals alone if and only if its own is displayed or the displayed line is empty. */
  lemma ReadGuardExact(s: System)
    requires SystemOk(s) && s.term[s.act].entered
    ensures (forall t :: 0 <= t < MAX_TERM && t != s.act ==> RawRead(s).term[t] == s.term[t])
            <==> s.cur == s.act || s.term[s.cur].idx == 0
    ensures s.cur == s.act ==> forall n :: RawRead(s) == Step(s, Read(n))
  {
    var l := s.term[s.cur];
    assert LogicalOk(l, Attribute(s.cur));
    if l.idx == 0 {
      assert ClearedKeys(l) == l.keys;
    }
    if s.cur == s.act {
      assert RawRead(s).term == s.term[s.act := TakeLine(s.term[s.act], Attribute(s.act))];
    }
  }

  function BootSystem(): System {
    System([Blank(0), Blank(1), Blank(2)], 0, 0)
  }

  /** Terminal 0 has entered "A", but its read returns the "B" typed in terminal 1, which loses it. */
  ghost predicate LosesLine(s: System) {
    && SystemOk(s) && s.act == 0 && s.cur == 1 && s.term[0].entered && s.term[0].keys[0] == 65
    && LineTaken(s.term[s.cur], 3) == [66, 0]
    && s.term[1].idx == 1 && RawRead(s).term[1].idx == 0
  }

  /**
   Terminal 1 is launched, which makes it the executing one, and terminal 0 displayed and scheduled
   again.  A line is entered there and one begun in terminal 1: terminal 0's read gets the latter.
   */
  lemma LineTakenByOther() returns (es: seq<Event>)
    ensures es == [Switch(1), Tick(1), Switch(0), Tick(0), Key(65), Key(ENTER), Switch(1), Key(66)]
    ensures SystemOk(BootSystem()) && Legal(BootSystem(), es)
    ensures LosesLine(Run(BootSystem(), es))
  {
    var s, there := BootSystem(), [Switch(1), Tick(1), Switch(0), Tick(0)];
    var line := [Key(65), Key(ENTER), Switch(1), Key(66)];
    es := there + line;
    ThereAndBack(s);
    LineTakenFrom(s);
    RunAppend(s, there, line);
  }

  lemma ThereAndBack(s: System)
    requires SystemOk(s) && s.cur == s.act == 0
    ensures var es := [Switch(1), Tick(1), Switch(0), Tick(0)]; Legal(s, es) && Run(s, es) == s
  {
    var es := [Switch(1), Tick(1), Switch(0), Tick(0)];
    hide SystemOk;
    assert es[1..] == [Tick(1), Switch(0), Tick(0)] && es[1..][1..] == [Switch(0), Tick(0)];
    assert es[1..][1..][1..] == [Tick(0)] && [Tick(0)][1..] == [];
    var s2 := Step(Step(s, Switch(1)), Tick(1));
    var s4 := Step(Step(s2, Switch(0)), Tick(0));
    assert Legal(s2, [Switch(0), Tick(0)]) && Run(s2, [Switch(0), Tick(0)]) == s4;
  }

  lemma LineTakenFrom(s0: System)
    requires SystemOk(s0) && s0.cur == s0.act == 0 && s0.term[0] == Blank(0) && s0.term[1] == Blank(1)
    ensures var es := [Key(65), Key(ENTER), Switch(1), Key(66)];
            && Legal(s0, es)
            && LosesLine(Run(s0, es))
  {
    var s1 := Step(s0, Key(65));
    var s2 := Step(s1, Key(ENTER));
    var s3 := Step(s2, Switch(1));
    var es := [Key(65), Key(ENTER), Switch(1), Key(66)];
    assert es[1..] == [Key(ENTER), Switch(1), Key(66)] && es[1..][1..] == [Switch(1), Key(66)];
    assert es[1..][1..][1..] == [Key(66)] && [Key(66)][1..] == [];
    hide Put, Newline, Cleared;
    assert Run(s3, [Key(66)]) == Step(s3, Key(66));
    assert Legal(s2, [Switch(1), Key(66)]) && Run(s2, [Switch(1), Key(66)]) == Step(s3, Key(66));
  }
}
