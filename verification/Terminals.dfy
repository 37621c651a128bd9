/**
 Three logical terminals as values, the events that drive them, and what every run keeps.
 A logical terminal is a screen with a cursor plus the line being typed; the module Console
 shows that the kernel's one physical screen implements three of them.
 */
module Terminals {
  import opened Bytes
  import opened Limits
  import opened Screens

  const KEY_BUFFER_SIZE := 127
  const CTRL_C := 3
  const BS := 8
  const CTRL_L := 12
  const ENTER := 13

  /** entered says that ENTER was pressed and the line has not been read since. */
  datatype Logical = Logical(screen: Screen, keys: seq<byte>, idx: int, entered: bool)

  ghost predicate LogicalOk(l: Logical, a: byte) {
    && InRange(l.screen) && AllAttr(l.screen.mem, a)
    && |l.keys| == KEY_BUFFER_SIZE + 1 && 0 <= l.idx <= KEY_BUFFER_SIZE + 1
    && forall i :: l.idx <= i < KEY_BUFFER_SIZE ==> l.keys[i] == 0
  }

  /** A terminal as init_terminal leaves it. */
  function Blank(t: int): (l: Logical)
    ensures LogicalOk(l, Attribute(t))
  {
    Logical(Cleared(Attribute(t)), seq(KEY_BUFFER_SIZE + 1, _ => 0), 0, false)
  }

  /** A second ENTER with a full buffer would store past its 128 bytes. */
  ghost predicate KeyAllowed(l: Logical, k: int) {
    0 <= k && (k == ENTER ==> l.idx <= KEY_BUFFER_SIZE)
  }

  function PressKey(l: Logical, k: int, a: byte): (r: Logical)
    requires LogicalOk(l, a) && KeyAllowed(l, k)
    ensures LogicalOk(r, a)
  {
    if k >= 0x80 || k == CTRL_C then l
    else if k == CTRL_L then l.(screen := Cleared(a))
    else if k == BS then
      if l.idx > 0 then Logical(Erase(l.screen, a), l.keys[l.idx - 1 := 0], l.idx - 1, l.entered) else l
    else if k == ENTER then Logical(Newline(l.screen), l.keys[l.idx := NL], l.idx + 1, true)
    else if l.idx < KEY_BUFFER_SIZE then
      PutKeepsAttr(l.screen, k, a);
      Logical(Put(l.screen, k, a), l.keys[l.idx := k], l.idx + 1, l.entered)
    else l
  }

  function WriteText(l: Logical, text: seq<byte>, a: byte): (r: Logical)
    requires LogicalOk(l, a)
    ensures LogicalOk(r, a)
  {
    PutAllKeepsAttr(l.screen, text, a);
    l.(screen := PutAll(l.screen, text, a))
  }

  /** terminal_read hands out the start of the buffer, one byte less than asked for. */
  function LineTaken(l: Logical, numBytes: int): seq<byte>
    requires |l.keys| == KEY_BUFFER_SIZE + 1
  {
    l.keys[..Min(Max(0, numBytes - 1), KEY_BUFFER_SIZE)]
  }

  /** It then clears all of the buffer but its last byte. */
  function TakeLine(l: Logical, a: byte): (r: Logical)
    requires LogicalOk(l, a)
    ensures LogicalOk(r, a)
  {
    l.(keys := ClearedKeys(l), idx := 0, entered := false)
  }

  function ClearedKeys(l: Logical): (keys: seq<byte>)
    requires |l.keys| == KEY_BUFFER_SIZE + 1
    ensures |keys| == KEY_BUFFER_SIZE + 1
  {
    seq(KEY_BUFFER_SIZE, _ => 0) + [l.keys[KEY_BUFFER_SIZE]]
  }

  // ---------------------------------------------------------------- the system of three

  datatype System = System(term: seq<Logical>, cur: int, act: int)

  /** Tick(n) is the scheduler making terminal n the executing one; Read is a terminal_read that has seen ENTER. */
  datatype Event = Key(k: int) | Write(text: seq<byte>) | Switch(n: int) | Tick(n: int) | Read(numBytes: int)

  ghost predicate SystemOk(s: System) {
    && |s.term| == MAX_TERM && 0 <= s.cur < MAX_TERM && 0 <= s.act < MAX_TERM
    && forall t :: 0 <= t < MAX_TERM ==> LogicalOk(s.term[t], Attribute(t))
  }

  ghost predicate Enabled(s: System, e: Event)
    requires SystemOk(s)
  {
    match e
    case Key(k) => KeyAllowed(s.term[s.cur], k)
    case Write(_) => true
    case Switch(n) => 0 <= n
    case Tick(n) => 0 <= n < MAX_TERM
    case Read(_) => s.term[s.act].entered && s.cur == s.act
  }

  ghost function Step(s: System, e: Event): (r: System)
    requires SystemOk(s) && Enabled(s, e)
    ensures SystemOk(r)
  {
    match e
    case Key(k) => s.(term := s.term[s.cur := PressKey(s.term[s.cur], k, Attribute(s.cur))])
    case Write(text) => s.(term := s.term[s.act := WriteText(s.term[s.act], text, Attribute(s.act))])
    case Switch(n) => if n < MAX_TERM then s.(cur := n) else s
    case Tick(n) => s.(act := n)
    case Read(_) => s.(term := s.term[s.act := TakeLine(s.term[s.act], Attribute(s.act))])
  }

  ghost predicate Legal(s: System, es: seq<Event>)
    requires SystemOk(s)
    decreases |es|
  {
    es == [] || (Enabled(s, es[0]) && Legal(Step(s, es[0]), es[1..]))
  }

  ghost function Run(s: System, es: seq<Event>): (r: System)
    requires SystemOk(s) && Legal(s, es)
    ensures SystemOk(r)
    decreases |es|
  {
    if es == [] then s else Run(Step(s, es[0]), es[1..])
  }

  lemma {:induction false} RunAppend(s: System, es: seq<Event>, fs: seq<Event>)
    requires SystemOk(s) && Legal(s, es) && Legal(Run(s, es), fs)
    ensures Legal(s, es + fs) && Run(s, es + fs) == Run(Run(s, es), fs)
    decreases |es|
  {
    hide Step, SystemOk, Enabled;
    if es == [] {
      assert es + fs == fs;
    } else {
      assert (es + fs)[1..] == es[1..] + fs;
      RunAppend(Step(s, es[0]), es[1..], fs);
    }
  }

  // ---------------------------------------------------------------- independence

  datatype Input = Typed(k: int) | Printed(text: seq<byte>) | Taken(numBytes: int)

  /** What an event is to terminal t: keys while displayed, writes and reads while executing. */
  function InputOf(cur: int, act: int, e: Event, t: int): seq<Input> {
    match e
    case Key(k) => if cur == t then [Typed(k)] else []
    case Write(text) => if act == t then [Printed(text)] else []
    case Read(numBytes) => if act == t then [Taken(numBytes)] else []
    case Switch(_) => []
    case Tick(_) => []
  }

  /** The part of a run that concerns terminal t. */
  function Inputs(cur: int, act: int, es: seq<Event>, t: int): seq<Input>
    decreases |es|
  {
    if es == [] then [] else
      InputOf(cur, act, es[0], t)
      + Inputs(if es[0].Switch? && es[0].n < MAX_TERM then es[0].n else cur,
               if es[0].Tick? then es[0].n else act, es[1..], t)
  }

  ghost predicate InputAllowed(l: Logical, i: Input) {
    (i.Typed? ==> KeyAllowed(l, i.k)) && (i.Taken? ==> l.entered)
  }

  ghost function Fed(l: Logical, i: Input, a: byte): (r: Logical)
    requires LogicalOk(l, a) && InputAllowed(l, i)
    ensures LogicalOk(r, a)
  {
    match i
    case Typed(k) => PressKey(l, k, a)
    case Printed(text) => WriteText(l, text, a)
    case Taken(_) => TakeLine(l, a)
  }

  ghost predicate InputsAllowed(l: Logical, ins: seq<Input>, a: byte)
    requires LogicalOk(l, a)
    decreases |ins|
  {
    ins == [] || (InputAllowed(l, ins[0]) && InputsAllowed(Fed(l, ins[0], a), ins[1..], a))
  }

  /** One terminal alone, with its own screen, fed its own inputs. */
  ghost function Alone(l: Logical, ins: seq<Input>, a: byte): (r: Logical)
    requires LogicalOk(l, a) && InputsAllowed(l, ins, a)
    ensures LogicalOk(r, a)
    decreases |ins|
  {
    if ins == [] then l else Alone(Fed(l, ins[0], a), ins[1..], a)
  }

  /** Over every run, each terminal ends as it would on a console of its own. */
  lemma {:induction false} TerminalsAreIndependent(s: System, es: seq<Event>, t: int)
    requires SystemOk(s) && Legal(s, es) && 0 <= t < MAX_TERM
    ensures InputsAllowed(s.term[t], Inputs(s.cur, s.act, es, t), Attribute(t))
    ensures Run(s, es).term[t] == Alone(s.term[t], Inputs(s.cur, s.act, es, t), Attribute(t))
    decreases |es|
  {
    if es != [] {
      var s' := Step(s, es[0]);
      TerminalsAreIndependent(s', es[1..], t);
      var rest := Inputs(s'.cur, s'.act, es[1..], t);
      var ins := Inputs(s.cur, s.act, es, t);
      if ins != rest {
        assert ins[1..] == rest;
      }
    }
  }

  /** Over every run each terminal's characters keep its colour: light grey, green and red. */
  lemma ColoursStay(s: System, es: seq<Event>, t: int, i: int)
    requires SystemOk(s) && Legal(s, es) && 0 <= t < MAX_TERM && 0 <= i < VIDEO_BYTES && i % 2 == 1
    ensures |Run(s, es).term[t].screen.mem| == VIDEO_BYTES
    ensures Run(s, es).term[t].screen.mem[i] == if t == 0 then 0x07 else if t == 1 then 0x0A else 0x0C
  {
    assert LogicalOk(Run(s, es).term[t], Attribute(t));
  }

  /** What a key other than Ctrl-L and backspace adds to the text on the screen. */
  function Echo(idx: int, k: int): seq<byte>
  {
    if k < 0 || k >= 0x80 || k == CTRL_C then []
    else if k == ENTER then [NL]
    else if idx < KEY_BUFFER_SIZE then [k]
    else []
  }

  /** The text a terminal has been given since it was last cleared: its writes and the echo of its keys. */
  function Transcript(idx: int, text: seq<byte>, ins: seq<Input>): seq<byte>
    decreases |ins|
  {
    if ins == [] then text else
      match ins[0]
      case Printed(more) => Transcript(idx, text + more, ins[1..])
      case Taken(_) => Transcript(0, text, ins[1..])
      case Typed(k) =>
        if k == CTRL_L then Transcript(idx, [], ins[1..])
        else Transcript(idx + |Echo(idx, k)|, text + Echo(idx, k), ins[1..])
  }

  lemma KeyEchoes(l: Logical, text: seq<byte>, k: int, a: byte)
    requires LogicalOk(l, a) && KeyAllowed(l, k) && k != BS && k != CTRL_L
    requires l.screen == PutAll(Cleared(a), text, a)
    ensures var r := PressKey(l, k, a);
            r.screen == PutAll(Cleared(a), text + Echo(l.idx, k), a) && r.idx == l.idx + |Echo(l.idx, k)|
  {
    PutAllAppend(Cleared(a), text, Echo(l.idx, k), a);
  }

  lemma {:induction false} AloneEchoes(l: Logical, text: seq<byte>, ins: seq<Input>, a: byte)
    requires LogicalOk(l, a) && InputsAllowed(l, ins, a) && l.screen == PutAll(Cleared(a), text, a)
    requires forall i :: 0 <= i < |ins| && ins[i].Typed? ==> ins[i].k != BS
    ensures Alone(l, ins, a).screen == PutAll(Cleared(a), Transcript(l.idx, text, ins), a)
    decreases |ins|
  {
    if ins != [] {
      hide LogicalOk, InputAllowed, WriteText, PressKey, TakeLine, Cleared, PutAll, Echo;
      match ins[0]
      case Printed(more) =>
        PutAllAppend(Cleared(a), text, more, a);
        AloneEchoes(WriteText(l, more, a), text + more, ins[1..], a);
      case Taken(_) => AloneEchoes(TakeLine(l, a), text, ins[1..], a);
      case Typed(k) =>
        if k == CTRL_L {
          AloneEchoes(PressKey(l, k, a), [], ins[1..], a);
        } else {
          KeyEchoes(l, text, k, a);
          AloneEchoes(PressKey(l, k, a), text + Echo(l.idx, k), ins[1..], a);
        }
    }
  }

  /**
   A terminal that starts clear and gets no backspace shows the last 25 rows of everything its
   processes wrote and its keys echoed since the last Ctrl-L, in order, over every interleaving
   with keys, writes and switches elsewhere.
   */
  lemma MultiplexedTranscript(s: System, es: seq<Event>, t: int)
    requires SystemOk(s) && Legal(s, es) && 0 <= t < MAX_TERM
    requires s.term[t].screen == Cleared(Attribute(t))
    requires forall i :: 0 <= i < |Inputs(s.cur, s.act, es, t)| && Inputs(s.cur, s.act, es, t)[i].Typed? ==>
               Inputs(s.cur, s.act, es, t)[i].k != BS
    ensures var text := Transcript(s.term[t].idx, [], Inputs(s.cur, s.act, es, t));
            Shows(Run(s, es).term[t].screen, LayoutOf(text), WindowTop(|LayoutOf(text)|))
  {
    var ins, a := Inputs(s.cur, s.act, es, t), Attribute(t);
    TerminalsAreIndependent(s, es, t);
    AloneEchoes(s.term[t], [], ins, a);
    TranscriptWindow(Transcript(s.term[t].idx, [], ins), a);
  }

  // ---------------------------------------------------------------- backspace among writes

  /** The text a terminal shows and the first of its rows in view. */
  datatype View = View(text: seq<byte>, top: int)

  function Added(v: View, more: seq<byte>): View {
    View(v.text + more, Max(v.top, |LayoutOf(v.text + more)| - ROWS))
  }

  function DropLast(text: seq<byte>): seq<byte> {
    if text == [] then [] else text[..|text| - 1]
  }

  /** One input: a backspace on a line that is not empty takes the last character, whoever printed it. */
  function Edited(idx: int, v: View, i: Input): View
  {
    match i
    case Printed(more) => Added(v, more)
    case Taken(_) => v
    case Typed(k) =>
      if k == CTRL_L then View([], 0)
      else if k == BS then (if idx > 0 then v.(text := DropLast(v.text)) else v)
      else Added(v, Echo(idx, k))
  }

  function NextIdx(idx: int, i: Input): int
  {
    match i
    case Printed(_) => idx
    case Taken(_) => 0
    case Typed(k) =>
      if k == CTRL_L then idx else if k == BS then Max(0, idx - 1) else idx + |Echo(idx, k)|
  }

  function EditedAll(idx: int, v: View, ins: seq<Input>): View
    decreases |ins|
  {
    if ins == [] then v else EditedAll(NextIdx(idx, ins[0]), Edited(idx, v, ins[0]), ins[1..])
  }

  /**
   Backspace can take the last character off the screen: it is no newline, unless it ended a row of
   79 characters, and the row it is in is still in view.
   */
  predicate Erasable(v: View) {
    v.text != []
    && var rows := LayoutOf(DropLast(v.text));
       (IsNewline(v.text[|v.text| - 1]) ==> |rows[|rows| - 1]| == COLS - 1) && v.top <= |rows| - 1
  }

  /** Every backspace that takes a character finds it erasable. */
  predicate ErasableAll(idx: int, v: View, ins: seq<Input>)
    decreases |ins|
  {
    ins == [] ||
    ((ins[0] == Typed(BS) && idx > 0 ==> Erasable(v))
     && ErasableAll(NextIdx(idx, ins[0]), Edited(idx, v, ins[0]), ins[1..]))
  }

  ghost predicate InView(l: Logical, v: View) {
    Shows(l.screen, LayoutOf(v.text), v.top) && WindowTop(|LayoutOf(v.text)|) <= v.top
  }

  /** Backspace undoes the last character of the text exactly if that is erasable. */
  lemma EraseExact(s: Screen, v: View, a: byte)
    requires v.text != [] && Shows(s, LayoutOf(v.text), v.top)
    ensures Shows(Erase(s, a), LayoutOf(DropLast(v.text)), v.top) <==> Erasable(v)
  {
    var rows, ch := LayoutOf(DropLast(v.text)), v.text[|v.text| - 1];
    var n := |rows| - 1;
    if !IsNewline(ch) {
      if v.top <= n {
        EraseShows(s, rows, v.top, ch, a);
      }
    } else if v.top <= n && |rows[n]| == COLS - 1 {
      EraseBlank(s, rows, v.top, a);
    }
  }

  /** A newline behind 79 characters is undone by blanking the 80th cell of their row. */
  lemma EraseBlank(s: Screen, rows: Layout, top: int, a: byte)
    requires LayoutOk(rows) && Shows(s, rows + [[]], top)
    requires top <= |rows| - 1 && |rows[|rows| - 1]| == COLS - 1
    ensures Shows(Erase(s, a), rows, top)
  {
    var back := SetPos(s, COLS - 1, s.y - 1);
    forall r, c | 0 <= r < ROWS && 0 <= c < COLS
      ensures CharAt(Erase(s, a), r, c) == GlyphAt(rows, top + r, c)
    {
      PokeAt(back, SPACE, a, r, c);
      assert CharAt(s, r, c) == GlyphAt(rows + [[]], top + r, c);
    }
  }

  lemma AddedInView(s: Screen, v: View, more: seq<byte>, a: byte)
    requires Shows(s, LayoutOf(v.text), v.top) && WindowTop(|LayoutOf(v.text)|) <= v.top
    ensures var w := Added(v, more);
            Shows(PutAll(s, more, a), LayoutOf(w.text), w.top) && WindowTop(|LayoutOf(w.text)|) <= w.top
  {
    PutAllShows(s, v.text, v.top, more, a);
  }

  lemma KeyInView(l: Logical, v: View, k: int, a: byte)
    requires LogicalOk(l, a) && KeyAllowed(l, k) && InView(l, v)
    requires k == BS && l.idx > 0 ==> Erasable(v)
    ensures InView(PressKey(l, k, a), Edited(l.idx, v, Typed(k)))
    ensures PressKey(l, k, a).idx == NextIdx(l.idx, Typed(k))
  {
    if k == CTRL_L {
      ClearedShows(a);
    } else if k == BS {
      if l.idx > 0 {
        EraseExact(l.screen, v, a);
        ExtendGrows(LayoutOf(DropLast(v.text)), v.text[|v.text| - 1]);
      }
    } else {
      AddedInView(l.screen, v, Echo(l.idx, k), a);
      assert PressKey(l, k, a).screen == PutAll(l.screen, Echo(l.idx, k), a);
    }
  }

  lemma {:induction false} AloneInView(l: Logical, v: View, ins: seq<Input>, a: byte)
    requires LogicalOk(l, a) && InputsAllowed(l, ins, a) && InView(l, v)
    requires ErasableAll(l.idx, v, ins)
    ensures InView(Alone(l, ins, a), EditedAll(l.idx, v, ins))
    decreases |ins|
  {
    if ins != [] {
      hide InView, Edited, NextIdx, Erasable;
      match ins[0]
      case Printed(more) =>
        PrintInView(l, v, more, a);
        AloneInView(WriteText(l, more, a), Edited(l.idx, v, ins[0]), ins[1..], a);
      case Taken(_) =>
        TakeInView(l, v, ins[0], a);
        AloneInView(TakeLine(l, a), Edited(l.idx, v, ins[0]), ins[1..], a);
      case Typed(k) =>
        KeyInView(l, v, k, a);
        AloneInView(PressKey(l, k, a), Edited(l.idx, v, ins[0]), ins[1..], a);
    }
  }

  lemma TakeInView(l: Logical, v: View, i: Input, a: byte)
    requires LogicalOk(l, a) && InView(l, v) && i.Taken?
    ensures InView(TakeLine(l, a), Edited(l.idx, v, i)) && NextIdx(l.idx, i) == 0
  {
  }

  lemma PrintInView(l: Logical, v: View, more: seq<byte>, a: byte)
    requires LogicalOk(l, a) && InView(l, v)
    ensures InView(WriteText(l, more, a), Edited(l.idx, v, Printed(more)))
    ensures WriteText(l, more, a).idx == NextIdx(l.idx, Printed(more))
  {
    AddedInView(l.screen, v, more, a);
  }

  /**
   Writes, keys, Ctrl-L and backspaces mixed, over every interleaving with the other terminals: the
   terminal shows the edited text from its first row in view on, as long as each backspace finds
   its character erasable.
   */
  lemma MultiplexedScreen(s: System, es: seq<Event>, t: int, v: View)
    requires SystemOk(s) && Legal(s, es) && 0 <= t < MAX_TERM && InView(s.term[t], v)
    requires ErasableAll(s.term[t].idx, v, Inputs(s.cur, s.act, es, t))
    ensures InView(Run(s, es).term[t], EditedAll(s.term[t].idx, v, Inputs(s.cur, s.act, es, t)))
  {
    TerminalsAreIndependent(s, es, t);
    AloneInView(s.term[t], v, Inputs(s.cur, s.act, es, t), Attribute(t));
  }

  // ---------------------------------------------------------------- the typed line

  /** Keys that edit the line: everything but ENTER, Ctrl-C, Ctrl-L and a raw newline. */
  predicate EditKey(k: int) {
    0 <= k < 0x80 && k != CTRL_C && k != CTRL_L && k != ENTER && k != NL
  }

  type editkey = k: int | EditKey(k)

  /** The line a sequence of edit keys leaves: at most 127 characters, backspace drops one. */
  function EditedLine(ks: seq<editkey>): (line: seq<byte>)
    ensures |line| <= KEY_BUFFER_SIZE
    ensures forall i :: 0 <= i < |line| ==> !IsNewline(line[i])
    decreases |ks|
  {
    if ks == [] then [] else
      var line := EditedLine(ks[..|ks| - 1]);
      var k := ks[|ks| - 1];
      if k == BS then (if line == [] then [] else line[..|line| - 1])
      else if |line| < KEY_BUFFER_SIZE then line + [k] else line
  }

  function PressKeys(l: Logical, ks: seq<editkey>, a: byte): (r: Logical)
    requires LogicalOk(l, a)
    ensures LogicalOk(r, a)
    decreases |ks|
  {
    if ks == [] then l else PressKey(PressKeys(l, ks[..|ks| - 1], a), ks[|ks| - 1], a)
  }

  /** Printable text fills cells one by one: rows and column account for every character. */
  lemma {:induction false} LayoutConserves(before: seq<byte>, text: seq<byte>)
    requires forall i :: 0 <= i < |text| ==> !IsNewline(text[i])
    ensures var p, q := LayoutOf(before), LayoutOf(before + text);
            COLS * |q| + |q[|q| - 1]| == COLS * |p| + |p[|p| - 1]| + |text|
    decreases |text|
  {
    if text == [] {
      assert before + text == before;
    } else {
      assert (before + text)[..|before + text| - 1] == before + text[..|text| - 1];
      LayoutConserves(before, text[..|text| - 1]);
    }
  }

  /** What typing keeps: the screen shows prompt and line, and the prompt's last row is in view. */
  ghost predicate Coupled(l: Logical, prompt: seq<byte>, line: seq<byte>, top: int) {
    && 0 <= l.idx <= KEY_BUFFER_SIZE < |l.keys| && l.keys[..l.idx] == line
    && Shows(l.screen, LayoutOf(prompt + line), top) && top <= |LayoutOf(prompt)| - 1
  }

  lemma TypeOne(l: Logical, prompt: seq<byte>, line: seq<byte>, top: int, k: int, a: byte) returns (top': int)
    requires LogicalOk(l, a) && Coupled(l, prompt, line, top)
    requires |line| < KEY_BUFFER_SIZE && EditKey(k) && k != BS
    requires forall i :: 0 <= i < |line| ==> !IsNewline(line[i])
    ensures top <= top' && Coupled(PressKey(l, k, a), prompt, line + [k], top')
  {
    hide LayoutOf, Shows, Put;
    top' := ShowsOneMore(l.screen, prompt, line, top, k, a);
  }

  /** A line of at most 127 characters adds at most two rows. */
  lemma RowsAdded(prompt: seq<byte>, line: seq<byte>)
    requires |line| <= KEY_BUFFER_SIZE && forall i :: 0 <= i < |line| ==> !IsNewline(line[i])
    ensures |LayoutOf(prompt + line)| <= |LayoutOf(prompt)| + 2
  {
    LayoutConserves(prompt, line);
  }

  lemma ShowsOneMore(s: Screen, prompt: seq<byte>, line: seq<byte>, top: int, k: byte, a: byte) returns (top': int)
    requires Shows(s, LayoutOf(prompt + line), top) && top <= |LayoutOf(prompt)| - 1
    requires |line| < KEY_BUFFER_SIZE && !IsNewline(k) && forall i :: 0 <= i < |line| ==> !IsNewline(line[i])
    ensures top <= top' <= |LayoutOf(prompt)| - 1
    ensures Shows(Put(s, k, a), LayoutOf(prompt + (line + [k])), top')
  {
    hide LayoutOf, Shows, Put, Extend, LayoutOk, IsNewline;
    var longer := line + [k];
    assert prompt + longer == prompt + line + [k];
    LayoutAppend(prompt + line, k);
    PutShows(s, LayoutOf(prompt + line), top, k, a);
    RowsAdded(prompt, longer);
    top' := Max(top, |LayoutOf(prompt + longer)| - ROWS);
  }

  lemma RowsKept(prompt: seq<byte>, line: seq<byte>)
    requires forall i :: 0 <= i < |line| ==> !IsNewline(line[i])
    ensures |LayoutOf(prompt)| <= |LayoutOf(prompt + line)|
  {
    LayoutConserves(prompt, line);
  }

  lemma EraseOne(l: Logical, prompt: seq<byte>, line: seq<byte>, top: int, a: byte)
    requires LogicalOk(l, a) && Coupled(l, prompt, line, top) && line != []
    requires forall i :: 0 <= i < |line| ==> !IsNewline(line[i])
    ensures Coupled(PressKey(l, BS, a), prompt, line[..|line| - 1], top)
  {
    var shorter, k := line[..|line| - 1], line[|line| - 1];
    hide LayoutOf, Shows, Erase, Extend, LayoutOk, IsNewline;
    assert prompt + line == prompt + shorter + [k];
    LayoutAppend(prompt + shorter, k);
    RowsKept(prompt, shorter);
    EraseShows(l.screen, LayoutOf(prompt + shorter), top, k, a);
  }

  /**
   Typed line and screen stay coupled: from the end of any prompt, every sequence of edit keys
   leaves the screen showing the prompt followed by exactly the buffered line, with the row
   where the prompt ends still in view.
   */
  lemma {:induction false} TypedLineCoupled(l: Logical, prompt: seq<byte>, top: int, ks: seq<editkey>, a: byte)
    returns (top': int)
    requires LogicalOk(l, a) && l.idx == 0 && Shows(l.screen, LayoutOf(prompt), top)
    ensures top <= top' && Coupled(PressKeys(l, ks, a), prompt, EditedLine(ks), top')
    decreases |ks|
  {
    if ks == [] {
      assert prompt + EditedLine(ks) == prompt;
      return top;
    }
    var init, k := ks[..|ks| - 1], ks[|ks| - 1];
    top' := TypedLineCoupled(l, prompt, top, init, a);
    var before, line := PressKeys(l, init, a), EditedLine(init);
    assert |line| == before.idx;
    if k != BS && |line| < KEY_BUFFER_SIZE {
      top' := TypeOne(before, prompt, line, top', k, a);
    } else if k == BS && line != [] {
      EraseOne(before, prompt, line, top', a);
    }
  }

  /** The keys among the inputs of a terminal that only gets edit keys. */
  function KeysOf(ins: seq<Input>): (ks: seq<editkey>)
    requires forall i :: 0 <= i < |ins| ==> ins[i].Typed? && EditKey(ins[i].k)
    ensures |ks| == |ins|
  {
    if ins == [] then [] else KeysOf(ins[..|ins| - 1]) + [ins[|ins| - 1].k]
  }

  lemma {:induction false} AloneAppend(l: Logical, ins: seq<Input>, last: Input, a: byte)
    requires LogicalOk(l, a) && InputsAllowed(l, ins + [last], a) && last.Typed?
    ensures InputsAllowed(l, ins, a) && KeyAllowed(Alone(l, ins, a), last.k)
    ensures Alone(l, ins + [last], a) == PressKey(Alone(l, ins, a), last.k, a)
    decreases |ins|
  {
    if ins == [] {
      assert (ins + [last])[1..] == [];
    } else {
      assert (ins + [last])[1..] == ins[1..] + [last];
      AloneAppend(Fed(l, ins[0], a), ins[1..], last, a);
    }
  }

  lemma {:induction false} AlonePresses(l: Logical, ins: seq<Input>, a: byte)
    requires LogicalOk(l, a) && InputsAllowed(l, ins, a)
    requires forall i :: 0 <= i < |ins| ==> ins[i].Typed? && EditKey(ins[i].k)
    ensures Alone(l, ins, a) == PressKeys(l, KeysOf(ins), a)
    decreases |ins|
  {
    if ins != [] {
      var init, last := ins[..|ins| - 1], ins[|ins| - 1];
      assert ins == init + [last];
      AloneAppend(l, init, last, a);
      AlonePresses(l, init, a);
    }
  }

  /**
   Typing at a prompt while everything else goes on: over every run in which terminal t gets only
   edit keys, it shows its prompt and exactly the edited line, whatever the other terminals do.
   */
  lemma MultiplexedTyping(s: System, es: seq<Event>, t: int, prompt: seq<byte>, top: int) returns (top': int)
    requires SystemOk(s) && Legal(s, es) && 0 <= t < MAX_TERM
    requires s.term[t].idx == 0 && Shows(s.term[t].screen, LayoutOf(prompt), top)
    requires forall i :: 0 <= i < |Inputs(s.cur, s.act, es, t)| ==>
               Inputs(s.cur, s.act, es, t)[i].Typed? && EditKey(Inputs(s.cur, s.act, es, t)[i].k)
    ensures top <= top'
            && Coupled(Run(s, es).term[t], prompt, EditedLine(KeysOf(Inputs(s.cur, s.act, es, t))), top')
  {
    var ins := Inputs(s.cur, s.act, es, t);
    TerminalsAreIndependent(s, es, t);
    AlonePresses(s.term[t], ins, Attribute(t));
    top' := TypedLineCoupled(s.term[t], prompt, top, KeysOf(ins), Attribute(t));
  }

  /**
   Ctrl-L clears the screen but not the line, so the two agree afterwards exactly when nothing
   was typed.
   */
  lemma ClearDecouples(l: Logical, a: byte)
    requires LogicalOk(l, a) && l.idx <= KEY_BUFFER_SIZE
    requires forall i :: 0 <= i < l.idx ==> !IsNewline(l.keys[i])
    ensures var r := PressKey(l, CTRL_L, a);
            && r.keys == l.keys && r.idx == l.idx
            && (Shows(r.screen, LayoutOf(r.keys[..r.idx]), 0) <==> l.idx == 0)
  {
    var line := l.keys[..l.idx];
    ClearedShows(a);
    assert [] + line == line;
    LayoutConserves([], line);
  }

  /** Backspace right after Ctrl-L, with something typed, leaves a clear screen with the cursor in the last row. */
  lemma BackspaceAfterClear(l: Logical, a: byte)
    requires LogicalOk(l, a) && l.idx > 0
    ensures PressKey(PressKey(l, CTRL_L, a), BS, a) ==
            Logical(Screen(Cleared(a).mem, 0, ROWS - 1), l.keys[l.idx - 1 := 0], l.idx - 1, l.entered)
  {
    var c := Cleared(a);
    assert SetPos(c, COLS - 1, U32(-1)) == Screen(ScrolledMem(c.mem), 0, ROWS - 1);
    assert ScrolledMem(c.mem) == c.mem;
    assert Erase(c, a).mem == c.mem;
  }
}
