/**
 The multiplexed console: one physical screen, three terminals.  The displayed terminal lives
 in video memory and in the globals of lib.c; the others live in their backing pages and in the
 fields of terminal[i].  Every operation is proved against the values of module Terminals.
 */
module Console {
  import opened Bytes
  import opened Limits
  import opened Screens
  import opened Terminals
  import opened Formats
  import opened Sessions

  /** term_t: saved cursor, saved buffer index, key buffer, ENTER flag and backing page. */
  class Terminal {
    var posX: int
    var posY: int
    var keyBufferIdx: int
    var entered: bool
    const keyBuffer: array<byte>
    const videoMem: array<byte>

    ghost predicate Sized()
      reads this
    {
      && videoMem.Length == VIDEO_BYTES && keyBuffer.Length == KEY_BUFFER_SIZE + 1
      && 0 <= posX < COLS && 0 <= posY < ROWS && 0 <= keyBufferIdx <= KEY_BUFFER_SIZE + 1
    }

    constructor (a: byte)
      ensures Sized() && posX == 0 && posY == 0 && keyBufferIdx == 0 && !entered
      ensures fresh(keyBuffer) && fresh(videoMem) && keyBuffer != videoMem
      ensures keyBuffer[..] == seq(KEY_BUFFER_SIZE + 1, _ => 0) && videoMem[..] == Cleared(a).mem
    {
      posX, posY, keyBufferIdx, entered := 0, 0, 0, false;
      keyBuffer := new byte[KEY_BUFFER_SIZE + 1](_ => 0);
      videoMem := new byte[VIDEO_BYTES](i => if i % 2 == 1 then a else SPACE);
    }

    ghost function Saved(): Screen
      reads this, videoMem
    {
      Screen(videoMem[..], posX, posY)
    }
  }

  /** Calls as the interfaces take them: 16-bit keys, a buffer with the stack above it, 8-bit terminal numbers. */
  datatype Call =
    | Pressed(key: int)
    | Wrote(buf: seq<byte>, args: seq<Arg>, numBytes: int)
    | Shown(shown: int)
    | Scheduled(next: int)
    | Took(numBytes: int)

  /** What is written comes to an end in memory. */
  predicate CallOk(c: Call) {
    match c
    case Pressed(k) => 0 <= k < 0x1_0000
    case Wrote(buf, args, _) => ArgsOk(args) && Formatted(buf, args, 0).end >= 0
    case Shown(n) => 0 <= n < 256
    case Scheduled(n) => 0 <= n < MAX_TERM
    case Took(_) => true
  }

  function EventOf(c: Call): Event
    requires CallOk(c)
  {
    match c
    case Pressed(k) => Key(k)
    case Wrote(buf, args, _) => Write(Formatted(buf, args, 0).text)
    case Shown(n) => Switch(n)
    case Scheduled(n) => Tick(n)
    case Took(numBytes) => Read(numBytes)
  }

  function EventsOf(cs: seq<Call>): (es: seq<Event>)
    requires forall i :: 0 <= i < |cs| ==> CallOk(cs[i])
    ensures |es| == |cs| && forall i :: 0 <= i < |es| ==> es[i] == EventOf(cs[i])
  {
    seq(|cs|, i requires 0 <= i < |cs| => EventOf(cs[i]))
  }

  class Console {
    var screenX: int
    var screenY: int
    var keyBufferIdx: int
    var keyBuffer: array<byte>
    var curTerm: int
    var curActive: int
    const video: array<byte>
    const terminal: seq<Terminal>

    // ------------------------------------------------------------ abstraction

    ghost function Footprint(): set<object>
      reads this
    {
      {this, video} + (set t | t in terminal) + (set t | t in terminal :: t.keyBuffer)
      + (set t | t in terminal :: t.videoMem)
    }

    /** Sizes, indices in range, and no two names for the same memory. */
    ghost predicate Shape()
      reads this, terminal
    {
      && |terminal| == MAX_TERM && 0 <= curTerm < MAX_TERM && 0 <= curActive < MAX_TERM
      && video.Length == VIDEO_BYTES && 0 <= screenX < COLS && 0 <= screenY < ROWS
      && 0 <= keyBufferIdx <= KEY_BUFFER_SIZE + 1 && keyBuffer == terminal[curTerm].keyBuffer
      && (forall i :: 0 <= i < MAX_TERM ==> terminal[i].Sized() && terminal[i].videoMem != video
                                            && terminal[i].keyBuffer != video)
      && (forall i, j :: 0 <= i < MAX_TERM && 0 <= j < MAX_TERM ==> terminal[i].videoMem != terminal[j].keyBuffer)
      && (forall i, j :: 0 <= i < j < MAX_TERM ==> terminal[i] != terminal[j]
                                                   && terminal[i].videoMem != terminal[j].videoMem
                                                   && terminal[i].keyBuffer != terminal[j].keyBuffer)
    }

    ghost function Live(): Screen
      reads this, video
    {
      Screen(video[..], screenX, screenY)
    }

    /** What terminal t holds: the live screen if it is displayed, its saved copy otherwise. */
    ghost function LogicalTerm(t: int): Logical
      requires Shape() && 0 <= t < MAX_TERM
      reads this, terminal, Footprint()
    {
      if t == curTerm then Logical(Live(), terminal[t].keyBuffer[..], keyBufferIdx, terminal[t].entered)
      else Logical(terminal[t].Saved(), terminal[t].keyBuffer[..], terminal[t].keyBufferIdx, terminal[t].entered)
    }

    ghost function State(): System
      requires Shape()
      reads this, terminal, Footprint()
    {
      System([LogicalTerm(0), LogicalTerm(1), LogicalTerm(2)], curTerm, curActive)
    }

    ghost predicate Valid()
      reads this, terminal, Footprint()
    {
      Shape() && SystemOk(State())
    }

    // ------------------------------------------------------------ lib.c, displayed screen

    method SetScreenPos(x: int, y: int)
      requires Shape() && 0 <= x < TWO32 && 0 <= y < TWO32
      modifies this`screenX, this`screenY, video
      ensures Shape() && Live() == SetPos(old(Live()), x, y)
      decreases if x >= COLS then 5 else if y >= ROWS then 3 else 0
    {
      if x < COLS {
        screenX := x;
      } else {
        Enter();
        return;
      }
      if y < ROWS {
        screenY := y;
      } else {
        ScrollUp();
        screenY := ROWS - 1;
      }
    }

    method Enter()
      requires Shape()
      modifies this`screenX, this`screenY, video
      ensures Shape() && Live() == Newline(old(Live()))
      decreases 4
    {
      SetScreenPos(0, screenY + 1);
    }

    method SetScreenX(x: int)
      requires Shape() && 0 <= x < TWO32
      modifies this`screenX, this`screenY, video
      ensures Shape() && Live() == SetPos(old(Live()), x, old(screenY))
      decreases if x >= COLS then 6 else 1
    {
      SetScreenPos(x, screenY);
    }

    method ScrollUp()
      requires Shape()
      modifies this`screenX, this`screenY, video
      ensures Shape() && Live() == Screen(ScrolledMem(old(video[..])), 0, old(screenY))
      decreases 2
    {
      MoveRowsUp(video);
      SetScreenX(0);
    }

    method Backspace()
      requires Shape()
      modifies this`screenX, this`screenY, video
      ensures Shape() && Live() == Erase(old(Live()), Attribute(curTerm))
    {
      if screenX == 0 {
        SetScreenPos(COLS - 1, U32(screenY - 1));
      } else {
        SetScreenX(screenX - 1);
      }
      video[2 * (COLS * screenY + screenX)] := SPACE;
      video[2 * (COLS * screenY + screenX) + 1] := Attribute(curTerm);
    }

    method Putc(c: byte)
      requires Shape()
      modifies this`screenX, this`screenY, video
      ensures Shape() && Live() == Put(old(Live()), c, Attribute(curTerm))
    {
      if c == NL || c == CR {
        Enter();
      } else {
        video[2 * (COLS * screenY + screenX)] := c;
        video[2 * (COLS * screenY + screenX) + 1] := Attribute(curTerm);
        SetScreenPos(screenX + 1, screenY);
      }
    }

    method Clear()
      requires Shape()
      modifies video
      ensures video[..] == Cleared(Attribute(curTerm)).mem
    {
      var i := 0;
      while i < COLS * ROWS
        invariant 0 <= i <= COLS * ROWS
        invariant forall j :: 0 <= j < 2 * i ==> video[j] == if j % 2 == 1 then Attribute(curTerm) else SPACE
      {
        video[2 * i], video[2 * i + 1] := SPACE, Attribute(curTerm);
        i := i + 1;
      }
    }

    // ------------------------------------------------------------ lib.c, executing terminal

    function Executing(): Terminal
      requires 0 <= curActive < |terminal|
      reads this
    {
      terminal[curActive]
    }

    function Displayed(): Terminal
      requires 0 <= curTerm < |terminal|
      reads this
    {
      terminal[curTerm]
    }

    method SetScreenPosTermExec(x: int, y: int)
      requires Shape() && 0 <= x < TWO32 && 0 <= y < TWO32
      modifies Executing()`posX, Executing()`posY, Executing().videoMem
      ensures Shape() && Executing().Saved() == SetPos(old(Executing().Saved()), x, y)
      decreases if x >= COLS then 5 else if y >= ROWS then 3 else 0
    {
      if x < COLS {
        Executing().posX := x;
      } else {
        EnterTermExec();
        return;
      }
      if y < ROWS {
        Executing().posY := y;
      } else {
        ScrollUpTermExec();
        Executing().posY := ROWS - 1;
      }
    }

    method EnterTermExec()
      requires Shape()
      modifies Executing()`posX, Executing()`posY, Executing().videoMem
      ensures Shape() && Executing().Saved() == Newline(old(Executing().Saved()))
      decreases 4
    {
      SetScreenPosTermExec(0, Executing().posY + 1);
    }

    method ScrollUpTermExec()
      requires Shape()
      modifies Executing()`posX, Executing()`posY, Executing().videoMem
      ensures Shape()
      ensures Executing().Saved() ==
              Screen(ScrolledMem(old(Executing().videoMem[..])), 0, old(Executing().posY))
      decreases 2
    {
      MoveRowsUp(Executing().videoMem);
      SetScreenPosTermExec(0, Executing().posY);
    }

    /** Its attribute write lands on the displayed screen, where it changes nothing. */
    method PutcTerminalActive(c: byte)
      requires Shape() && curActive != curTerm
      requires AllAttr(video[..], Attribute(curTerm)) && AllAttr(Executing().videoMem[..], Attribute(curActive))
      modifies Executing()`posX, Executing()`posY, Executing().videoMem, video
      ensures Shape() && video[..] == old(video[..])
      ensures Executing().Saved() == Put(old(Executing().Saved()), c, Attribute(curActive))
    {
      var t := Executing();
      if c == NL || c == CR {
        EnterTermExec();
      } else {
        ghost var was := t.Saved();
        t.videoMem[2 * (COLS * t.posY + t.posX)] := c;
        video[2 * (COLS * screenY + screenX) + 1] := Attribute(curTerm);
        assert video[..] == old(video[..]);
        assert t.Saved() == Poke(was, c, Attribute(curActive));
        SetScreenPosTermExec(t.posX + 1, t.posY);
      }
    }

    // ------------------------------------------------------------ printing

    /** The putc and puts calls of one round of printf. */
    method Puts(text: seq<byte>)
      requires Shape()
      modifies this`screenX, this`screenY, video
      ensures Shape() && Live() == PutAll(old(Live()), text, Attribute(curTerm))
    {
      hide Put;
      var n := 0;
      while n < |text|
        invariant 0 <= n <= |text|
        invariant Shape() && Live() == PutAll(old(Live()), text[..n], Attribute(curTerm))
      {
        assert text[..n + 1][..n] == text[..n];
        Putc(text[n]);
        n := n + 1;
      }
      assert text[..n] == text;
    }

    method PutsTerminalActive(text: seq<byte>)
      requires Shape() && curActive != curTerm
      requires AllAttr(video[..], Attribute(curTerm)) && AllAttr(Executing().videoMem[..], Attribute(curActive))
      modifies Executing()`posX, Executing()`posY, Executing().videoMem, video
      ensures Shape() && video[..] == old(video[..])
      ensures Executing().Saved() == PutAll(old(Executing().Saved()), text, Attribute(curActive))
    {
      hide Put, AllAttr;
      var n := 0;
      while n < |text|
        invariant 0 <= n <= |text|
        invariant Shape() && video[..] == old(video[..])
        invariant Executing().Saved() == PutAll(old(Executing().Saved()), text[..n], Attribute(curActive))
      {
        assert text[..n + 1][..n] == text[..n];
        PutAllKeepsAttr(old(Executing().Saved()), text[..n], Attribute(curActive));
        PutcTerminalActive(text[n]);
        n := n + 1;
      }
      assert text[..n] == text;
    }

    /** printf prints what the format and the words on the stack say, and returns where it stopped. */
    method Printf(buf: seq<byte>, args: seq<Arg>) returns (n: int)
      requires Shape() && ArgsOk(args) && Formatted(buf, args, 0).end >= 0
      modifies this`screenX, this`screenY, video
      ensures Shape() && n == Formatted(buf, args, 0).end
      ensures Live() == PutAll(old(Live()), Formatted(buf, args, 0).text, Attribute(curTerm))
    {
      hide Put, PutAll, Converted;
      ghost var out := [];
      var at, left := 0, args;
      assert Live() == PutAll(Live(), [], Attribute(curTerm)) by { NothingPut(Live(), Attribute(curTerm)); }
      while buf[at] != 0
        invariant 0 <= at < |buf| && ArgsOk(left)
        invariant Formatted(buf, args, 0) == After(out, Formatted(buf, left, at))
        invariant Shape() && Live() == PutAll(old(Live()), out, Attribute(curTerm))
        decreases |buf| - at
      {
        var text, left', next := NextText(buf, left, at);
        Puts(text);
        AfterAfter(out, text, Formatted(buf, left', next));
        PutAllAppend(old(Live()), out, text, Attribute(curTerm));
        out, at, left := out + text, next, left';
      }
      assert Formatted(buf, args, 0).text == out;
      return at;
    }

    method PrintfTerminalActive(buf: seq<byte>, args: seq<Arg>) returns (n: int)
      requires Shape() && curActive != curTerm && ArgsOk(args) && Formatted(buf, args, 0).end >= 0
      requires AllAttr(video[..], Attribute(curTerm)) && AllAttr(Executing().videoMem[..], Attribute(curActive))
      modifies Executing()`posX, Executing()`posY, Executing().videoMem, video
      ensures Shape() && n == Formatted(buf, args, 0).end && video[..] == old(video[..])
      ensures Executing().Saved() ==
              PutAll(old(Executing().Saved()), Formatted(buf, args, 0).text, Attribute(curActive))
    {
      hide Put, PutAll, AllAttr, Converted;
      ghost var out, was, a := [], Executing().Saved(), Attribute(curActive);
      var at, left := 0, args;
      NothingPut(was, a);
      while buf[at] != 0
        invariant 0 <= at < |buf| && ArgsOk(left)
        invariant Formatted(buf, args, 0) == After(out, Formatted(buf, left, at))
        invariant Shape() && video[..] == old(video[..])
        invariant Executing().Saved() == PutAll(was, out, a)
        decreases |buf| - at
      {
        var text, left', next := NextText(buf, left, at);
        PutAllKeepsAttr(was, out, a);
        PutsTerminalActive(text);
        AfterAfter(out, text, Formatted(buf, left', next));
        PutAllAppend(was, out, text, a);
        out, at, left := out + text, next, left';
      }
      assert Formatted(buf, args, 0).text == out;
      return at;
    }

    /**
     Both print paths leave the executing terminal with the same new contents.  The buffer is the
     format itself, so args is whatever the stack holds; numBytes is ignored.
     */
    method TerminalWrite(buf: seq<byte>, args: seq<Arg>, numBytes: int) returns (n: int)
      requires Valid() && ArgsOk(args) && Formatted(buf, args, 0).end >= 0
      modifies this`screenX, this`screenY, video, Executing()`posX, Executing()`posY, Executing().videoMem
      ensures Valid() && n == Formatted(buf, args, 0).end
      ensures State() == Step(old(State()), Write(Formatted(buf, args, 0).text))
    {
      if curTerm == curActive {
        n := WriteDisplayed(buf, args);
      } else {
        n := WriteHidden(buf, args);
      }
    }

    method WriteDisplayed(buf: seq<byte>, args: seq<Arg>) returns (n: int)
      requires Valid() && ArgsOk(args) && Formatted(buf, args, 0).end >= 0 && curTerm == curActive
      modifies this`screenX, this`screenY, video
      ensures Valid() && n == Formatted(buf, args, 0).end
      ensures State() == Step(old(State()), Write(Formatted(buf, args, 0).text))
    {
      ghost var after := Step(State(), Write(Formatted(buf, args, 0).text));
      hide PutAll, AllAttr, Formatted, LogicalOk, SystemOk;
      n := Printf(buf, args);
      assert State().term == after.term;
    }

    method WriteHidden(buf: seq<byte>, args: seq<Arg>) returns (n: int)
      requires Valid() && ArgsOk(args) && Formatted(buf, args, 0).end >= 0 && curTerm != curActive
      modifies Executing()`posX, Executing()`posY, Executing().videoMem, video
      ensures Valid() && n == Formatted(buf, args, 0).end
      ensures State() == Step(old(State()), Write(Formatted(buf, args, 0).text))
    {
      ghost var after := Step(State(), Write(Formatted(buf, args, 0).text));
      assert LogicalOk(State().term[curTerm], Attribute(curTerm));
      assert LogicalOk(State().term[curActive], Attribute(curActive));
      hide PutAll, AllAttr, Formatted;
      n := PrintfTerminalActive(buf, args);
      hide LogicalOk, SystemOk;
      assert State().term == after.term;
    }

    // ------------------------------------------------------------ terminal.c

    /** init_terminal: three blank terminals, the first one displayed. */
    constructor ()
      ensures Valid() && State() == System([Blank(0), Blank(1), Blank(2)], 0, 0)
    {
      var t0 := new Terminal(Attribute(0));
      var t1 := new Terminal(Attribute(1));
      var t2 := new Terminal(Attribute(2));
      terminal := [t0, t1, t2];
      screenX, screenY, keyBufferIdx, curTerm, curActive := 0, 0, 0, 0, 0;
      keyBuffer := t0.keyBuffer;
      video := new byte[VIDEO_BYTES];
      new;
      assert Shape();
      Restore(0);
      assert LogicalTerm(0) == Blank(0);
      assert LogicalTerm(1) == Blank(1);
      assert LogicalTerm(2) == Blank(2);
    }

    method Save(t: int)
      requires Shape() && 0 <= t < MAX_TERM
      modifies terminal[t], terminal[t].videoMem
      ensures Shape() && terminal[t].Saved() == Live() && terminal[t].keyBufferIdx == keyBufferIdx
      ensures terminal[t].entered == old(terminal[t].entered)
    {
      terminal[t].posX, terminal[t].posY := screenX, screenY;
      terminal[t].keyBufferIdx := keyBufferIdx;
      CopyVideo(terminal[t].videoMem, video);
    }

    method Restore(t: int)
      requires Shape() && 0 <= t < MAX_TERM
      modifies this`screenX, this`screenY, this`keyBufferIdx, video
      ensures Shape() && Live() == terminal[t].Saved() && keyBufferIdx == terminal[t].keyBufferIdx
    {
      keyBufferIdx := terminal[t].keyBufferIdx;
      SetScreenPos(terminal[t].posX, terminal[t].posY);
      CopyVideo(video, terminal[t].videoMem);
    }

    method SwitchHelper(was: int, next: int)
      requires Shape() && 0 <= was < MAX_TERM && 0 <= next < MAX_TERM && was != next
      modifies this`screenX, this`screenY, this`keyBufferIdx, video,
               terminal[was], terminal[was].videoMem
      ensures Shape() && terminal[was].entered == old(terminal[was].entered)
      ensures terminal[was].Saved() == old(Live()) && terminal[was].keyBufferIdx == old(keyBufferIdx)
      ensures Live() == old(terminal[next].Saved()) && keyBufferIdx == old(terminal[next].keyBufferIdx)
    {
      Save(was);
      Restore(next);
    }

    /** A switch changes which terminal is displayed and no terminal's contents. */
    method SwitchTerminal(n: int) returns (r: int)
      requires Valid() && 0 <= n < 256
      modifies this`screenX, this`screenY, this`keyBufferIdx, this`keyBuffer, this`curTerm, video,
               terminal[curTerm], terminal[curTerm].videoMem
      ensures Valid() && State() == Step(old(State()), Switch(n))
      ensures r == if n < MAX_TERM then 0 else -1
    {
      if n > MAX_TERM - 1 {
        return -1;
      }
      if n == curTerm {
        return 0;
      }
      ghost var was := State();
      hide AllAttr;
      SwitchHelper(curTerm, n);
      keyBuffer := terminal[n].keyBuffer;
      curTerm := n;
      assert forall t :: 0 <= t < MAX_TERM ==> LogicalTerm(t) == was.term[t];
      assert State().term == was.term;
      return 0;
    }

    /**
     terminal_read once its own terminal's flag is set: it copies from the displayed terminal's
     buffer and clears that one.
     */
    method TerminalRead(buf: array<byte>, numBytes: int) returns (n: int)
      requires Valid() && terminal[curActive].entered && buf !in Footprint()
      requires Min(numBytes - 1, KEY_BUFFER_SIZE) <= buf.Length
      modifies buf, keyBuffer, this`keyBufferIdx, Executing()`entered
      ensures Valid() && State() == RawRead(old(State()))
      ensures var line := LineTaken(old(State().term[State().cur]), numBytes);
              n == |line| && buf[..] == line + old(buf[..])[n..]
    {
      FlagKeepsLine(State(), numBytes);
      hide LogicalOk, FlagCleared, BufferCleared, LineTaken, State, LogicalTerm;
      ClearFlag();
      n := CopyLine(buf, numBytes);
      ClearBuf();
    }

    method ClearFlag()
      requires Valid()
      modifies Executing()`entered
      ensures Valid() && State() == FlagCleared(old(State()))
    {
      ghost var was := State();
      hide LogicalOk, SystemOk;
      terminal[curActive].entered := false;
      assert State().term == FlagCleared(was).term;
    }

    method CopyLine(buf: array<byte>, numBytes: int) returns (i: int)
      requires Valid() && buf !in Footprint()
      requires Min(numBytes - 1, KEY_BUFFER_SIZE) <= buf.Length
      modifies buf
      ensures Valid() && State() == old(State())
      ensures var line := LineTaken(old(State().term[State().cur]), numBytes);
              i == |line| && buf[..] == line + old(buf[..])[i..]
    {
      hide LogicalOk, SystemOk;
      ghost var l := State().term[curTerm];
      i := 0;
      while i < numBytes - 1 && i < KEY_BUFFER_SIZE
        invariant 0 <= i <= Min(Max(0, numBytes - 1), KEY_BUFFER_SIZE) <= buf.Length
        invariant forall k :: 0 <= k < buf.Length ==> buf[k] == if k < i then keyBuffer[k] else old(buf[k])
      {
        buf[i] := keyBuffer[i];
        i := i + 1;
      }
      assert buf[..] == LineTaken(l, numBytes) + old(buf[..])[i..];
    }

    method ClearBuf()
      requires Valid()
      modifies keyBuffer, this`keyBufferIdx
      ensures Valid() && State() == BufferCleared(old(State()))
    {
      ghost var was := State();
      hide LogicalOk, SystemOk, Cleared;
      for i := 0 to KEY_BUFFER_SIZE
        invariant forall k :: 0 <= k <= KEY_BUFFER_SIZE ==> keyBuffer[k] == if k < i then 0 else old(keyBuffer[k])
      {
        keyBuffer[i] := 0;
      }
      keyBufferIdx := 0;
      assert keyBuffer[..] == ClearedKeys(was.term[curTerm]);
      assert State().term == BufferCleared(was).term;
    }

    // ------------------------------------------------------------ keyboard.c

    method HandleKeyPress(keycode: int)
      requires Valid() && 0 <= keycode < 0x1_0000 && KeyAllowed(State().term[curTerm], keycode)
      modifies this`screenX, this`screenY, this`keyBufferIdx, video, keyBuffer, Displayed()`entered
      ensures Valid() && State() == Step(old(State()), Key(keycode))
    {
      ghost var was := State();
      assert LogicalOk(was.term[curTerm], Attribute(curTerm));
      if keycode < 0x80 {
        TypeKey(keycode);
      }
      assert LogicalTerm(curTerm) == PressKey(was.term[curTerm], keycode, Attribute(curTerm));
      assert State() == Step(was, Key(keycode));
    }

    /** The switch over the key. */
    method TypeKey(key: byte)
      requires Shape() && key < 0x80
      requires LogicalOk(LogicalTerm(curTerm), Attribute(curTerm)) && KeyAllowed(LogicalTerm(curTerm), key)
      modifies this`screenX, this`screenY, this`keyBufferIdx, video, keyBuffer, Displayed()`entered
      ensures Shape()
      ensures LogicalTerm(curTerm) == PressKey(old(LogicalTerm(curTerm)), key, Attribute(curTerm))
    {
      if key == CTRL_L {
        Clear();
        SetScreenPos(0, 0);
      } else if key == CTRL_C {
      } else if key == BS {
        if keyBufferIdx > 0 {
          Backspace();
          keyBufferIdx := keyBufferIdx - 1;
          keyBuffer[keyBufferIdx] := 0;
        }
      } else if key == ENTER {
        terminal[curTerm].entered := true;
        keyBuffer[keyBufferIdx] := NL;
        keyBufferIdx := keyBufferIdx + 1;
        Enter();
      } else if keyBufferIdx < KEY_BUFFER_SIZE {
        AddKeyBuff(key);
        Putc(key);
      }
    }

    method AddKeyBuff(key: byte)
      requires Shape()
      modifies this`keyBufferIdx, keyBuffer
      ensures Shape()
      ensures if old(keyBufferIdx) < KEY_BUFFER_SIZE
              then keyBuffer[..] == old(keyBuffer[..])[old(keyBufferIdx) := key]
                   && keyBufferIdx == old(keyBufferIdx) + 1
              else keyBuffer[..] == old(keyBuffer[..]) && keyBufferIdx == old(keyBufferIdx)
    {
      if keyBufferIdx < KEY_BUFFER_SIZE {
        keyBuffer[keyBufferIdx] := key;
        keyBufferIdx := keyBufferIdx + 1;
      }
    }

    // ------------------------------------------------------------ whole runs

    /** The timer makes another terminal the executing one. */
    method Schedule(n: int)
      requires Valid() && 0 <= n < MAX_TERM
      modifies this`curActive
      ensures Valid() && State() == Step(old(State()), Tick(n))
    {
      ghost var was := State();
      hide LogicalOk, SystemOk;
      curActive := n;
      assert State().term == was.term;
    }

    /** terminal_read into a buffer of its own, while its terminal is displayed. */
    method ReadLine(numBytes: int) returns (lines: seq<seq<byte>>)
      requires Valid() && Enabled(State(), Read(numBytes))
      modifies keyBuffer, this`keyBufferIdx, Executing()`entered
      ensures Valid() && State() == Step(old(State()), Read(numBytes))
      ensures lines == Returned(old(State()), Read(numBytes))
    {
      var dest := new byte[Max(0, numBytes)];
      hide LogicalOk, SystemOk, RawRead;
      ReadGuardExact(State());
      var n := TerminalRead(dest, numBytes);
      lines := [dest[..n]];
    }

    /** One call of an interface of the console. */
    method Perform(c: Call) returns (lines: seq<seq<byte>>)
      requires Valid() && CallOk(c) && Enabled(State(), EventOf(c))
      modifies Footprint()
      ensures Valid() && State() == Step(old(State()), EventOf(c))
      ensures lines == Returned(old(State()), EventOf(c))
    {
      lines := [];
      hide Step, LogicalOk, SystemOk, Formatted, LineTaken;
      match c {
        case Pressed(k) => HandleKeyPress(k);
        case Wrote(buf, args, numBytes) => var _ := TerminalWrite(buf, args, numBytes);
        case Shown(n) => var _ := SwitchTerminal(n);
        case Scheduled(n) => Schedule(n);
        case Took(numBytes) => lines := ReadLine(numBytes);
      }
    }

    /**
     Every run of the multiplexed console is a run of three separate terminals, and the lines its
     reads return are theirs.
     */
    method PerformAll(cs: seq<Call>) returns (lines: seq<seq<byte>>)
      requires (forall i :: 0 <= i < |cs| ==> CallOk(cs[i])) && Valid() && Legal(State(), EventsOf(cs))
      modifies Footprint()
      ensures Valid() && State() == Run(old(State()), EventsOf(cs)) && lines == AllRead(old(State()), EventsOf(cs))
    {
      hide Formatted, ArgsOk, CallOk, EventOf, Step, Enabled, Returned, LogicalOk, State, LogicalTerm;
      ghost var es, s := EventsOf(cs), State();
      assert es[0..] == es;
      lines := [];
      for i := 0 to |cs|
        invariant Valid() && State() == s && Legal(s, es[i..])
        invariant Run(s, es[i..]) == Run(old(State()), es)
        invariant AllRead(old(State()), es) == lines + AllRead(s, es[i..])
      {
        RunSplits(s, es, i);
        hide Run, Legal, AllRead;
        var more := Perform(cs[i]);
        s := Step(s, es[i]);
        lines := lines + more;
      }
    }
  }

  lemma NothingPut(s: Screen, a: byte)
    requires InRange(s)
    ensures PutAll(s, [], a) == s
  {
  }

  method CopyVideo(dest: array<byte>, src: array<byte>)
    requires dest.Length == VIDEO_BYTES == src.Length && dest != src
    modifies dest
    ensures dest[..] == src[..]
  {
    for i := 0 to VIDEO_BYTES
      invariant dest[..i] == src[..i]
    {
      dest[i] := src[i];
    }
  }

  /** The double loop of scroll_up: each row takes the one below, the last becomes blank. */
  method MoveRowsUp(mem: array<byte>)
    requires mem.Length == VIDEO_BYTES
    modifies mem
    ensures mem[..] == ScrolledMem(old(mem[..]))
  {
    ghost var was := mem[..];
    var y := 0;
    while y < ROWS - 1
      invariant 0 <= y <= ROWS - 1
      invariant forall i :: 0 <= i < VIDEO_BYTES ==> mem[i] == MovedByte(was, COLS * y, i)
    {
      var x := 0;
      while x < COLS
        invariant 0 <= x <= COLS
        invariant forall i :: 0 <= i < VIDEO_BYTES ==> mem[i] == MovedByte(was, COLS * y + x, i)
      {
        mem[2 * (COLS * y + x)] := mem[2 * (COLS * (y + 1) + x)];
        x := x + 1;
      }
      y := y + 1;
    }
    var x := 0;
    while x < COLS
      invariant 0 <= x <= COLS
      invariant forall i :: 0 <= i < VIDEO_BYTES ==>
                  mem[i] == if i % 2 == 0 && VIDEO_BYTES - 2 * COLS <= i < VIDEO_BYTES - 2 * COLS + 2 * x then SPACE
                            else MovedByte(was, COLS * (ROWS - 1), i)
    {
      mem[2 * (COLS * (ROWS - 1) + x)] := SPACE;
      x := x + 1;
    }
  }

  /** Byte i once the characters of the first n cells have moved up one row. */
  ghost function MovedByte(was: seq<byte>, n: int, i: int): byte
    requires |was| == VIDEO_BYTES && 0 <= i < VIDEO_BYTES && n <= COLS * (ROWS - 1)
  {
    if i % 2 == 0 && i < 2 * n then was[i + 2 * COLS] else was[i]
  }
}
