/**
 A terminal as a window on an unbounded paper: what every input does to the paper, for all inputs,
 and exactly which characters can still be lost.
 */
module Papers {
  import opened Bytes
  import opened Limits
  import opened Screens
  import opened Terminals

  const PAGE := COLS * ROWS

  /** Cells row by row, the cell the next character goes to, and the first row in view. */
  datatype Paper = Paper(cells: seq<byte>, at: int, top: int)

  ghost predicate PaperOk(p: Paper) {
    0 <= COLS * p.top <= p.at < COLS * p.top + PAGE && |p.cells| <= COLS * p.top + PAGE
  }

  /** The character in cell i: blank beyond what was written. */
  function On(p: Paper, i: int): byte {
    if 0 <= i < |p.cells| then p.cells[i] else SPACE
  }

  function SetCell(cells: seq<byte>, i: nat, c: byte): (r: seq<byte>)
    ensures |r| == Max(|cells|, i + 1)
    ensures forall j :: 0 <= j < |r| ==> r[j] == if j == i then c else if j < |cells| then cells[j] else SPACE
  {
    if i < |cells| then cells[i := c] else cells + seq(i - |cells|, _ => SPACE) + [c]
  }

  /** Going on at a later cell brings its row into view. */
  function MovedTo(p: Paper, at: int): Paper {
    Paper(p.cells, at, Max(p.top, at / COLS - (ROWS - 1)))
  }

  function Typeset(p: Paper, c: byte): (r: Paper)
    requires PaperOk(p)
    ensures PaperOk(r)
  {
    if IsNewline(c) then MovedTo(p, (p.at / COLS + 1) * COLS)
    else MovedTo(p.(cells := SetCell(p.cells, p.at, c)), p.at + 1)
  }

  function TypesetAll(p: Paper, text: seq<byte>): (r: Paper)
    requires PaperOk(p)
    ensures PaperOk(r)
    decreases |text|
  {
    if text == [] then p else Typeset(TypesetAll(p, text[..|text| - 1]), text[|text| - 1])
  }

  /** Backspace blanks the cell before; at the first cell in view it moves on to a new last row instead. */
  function RubOut(p: Paper): (r: Paper)
    requires PaperOk(p)
    ensures PaperOk(r)
  {
    if p.at > COLS * p.top then Paper(SetCell(p.cells, p.at - 1, SPACE), p.at - 1, p.top)
    else Paper(p.cells, COLS * p.top + PAGE, p.top + 1)
  }

  function FedPaper(idx: int, p: Paper, i: Input): (r: Paper)
    requires PaperOk(p)
    ensures PaperOk(r)
  {
    match i
    case Printed(text) => TypesetAll(p, text)
    case Taken(_) => p
    case Typed(k) =>
      if k == CTRL_L then Paper([], 0, 0)
      else if k == BS then (if idx > 0 then RubOut(p) else p)
      else TypesetAll(p, Echo(idx, k))
  }

  function PaperAfter(idx: int, p: Paper, ins: seq<Input>): (r: Paper)
    requires PaperOk(p)
    ensures PaperOk(r)
    decreases |ins|
  {
    if ins == [] then p else PaperAfter(NextIdx(idx, ins[0]), FedPaper(idx, p, ins[0]), ins[1..])
  }

  // ---------------------------------------------------------------- the screen is a window on the paper

  function CellOf(s: Screen): int {
    COLS * s.y + s.x
  }

  function Glyph(s: Screen, q: int): byte
    requires |s.mem| == VIDEO_BYTES && 0 <= q < PAGE
  {
    s.mem[2 * q]
  }

  ghost predicate OnPaper(s: Screen, p: Paper) {
    && InRange(s) && PaperOk(p) && p.at == COLS * p.top + CellOf(s)
    && forall q :: 0 <= q < PAGE ==> Glyph(s, q) == On(p, COLS * p.top + q)
  }

  /** Any screen is the first page of a paper. */
  function PaperOf(s: Screen): (p: Paper)
    requires InRange(s)
    ensures OnPaper(s, p) && p.top == 0
  {
    var cells := seq(PAGE, q requires 0 <= q < PAGE => Glyph(s, q));
    assert forall q :: 0 <= q < PAGE ==> cells[q] == Glyph(s, q);
    Paper(cells, CellOf(s), 0)
  }

  lemma PokeOnPaper(s: Screen, p: Paper, c: byte, a: byte)
    requires OnPaper(s, p)
    ensures OnPaper(Poke(s, c, a), p.(cells := SetCell(p.cells, p.at, c)))
  {
    var s', p' := Poke(s, c, a), p.(cells := SetCell(p.cells, p.at, c));
    forall q | 0 <= q < PAGE ensures Glyph(s', q) == On(p', COLS * p.top + q) {
      assert Glyph(s, q) == On(p, COLS * p.top + q);
    }
  }

  lemma NewlineOnPaper(s: Screen, p: Paper)
    requires OnPaper(s, p)
    ensures p.at / COLS == p.top + s.y
    ensures OnPaper(Newline(s), MovedTo(p, (p.at / COLS + 1) * COLS))
  {
    DivModUnique(p.at, COLS, p.top + s.y, s.x);
    var s', p' := Newline(s), MovedTo(p, (p.at / COLS + 1) * COLS);
    if s.y + 1 >= ROWS {
      ScrolledOnPaper(s, s', p, p');
    } else {
      assert forall q :: 0 <= q < PAGE ==> Glyph(s', q) == Glyph(s, q);
    }
  }

  /** A scroll shows the next page of the same cells. */
  lemma ScrolledOnPaper(s: Screen, s': Screen, p: Paper, p': Paper)
    requires OnPaper(s, p) && InRange(s') && PaperOk(p') && s'.mem == ScrolledMem(s.mem)
    requires p'.cells == p.cells && p'.top == p.top + 1 && p'.at == COLS * p'.top + CellOf(s')
    ensures OnPaper(s', p')
  {
    forall q | 0 <= q < PAGE ensures Glyph(s', q) == On(p', COLS * p'.top + q) {
      assert Glyph(s', q) == if q < PAGE - COLS then Glyph(s, q + COLS) else SPACE;
    }
  }

  lemma PutOnPaper(s: Screen, p: Paper, c: byte, a: byte)
    requires OnPaper(s, p)
    ensures OnPaper(Put(s, c, a), Typeset(p, c))
  {
    if IsNewline(c) {
      NewlineOnPaper(s, p);
    } else {
      var s', p' := Poke(s, c, a), p.(cells := SetCell(p.cells, p.at, c));
      PokeOnPaper(s, p, c, a);
      NewlineOnPaper(s', p');
      if s.x + 1 < COLS {
        DivModUnique(p.at + 1, COLS, p.top + s.y, s.x + 1);
        assert Put(s, c, a).mem == s'.mem;
        forall q | 0 <= q < PAGE ensures Glyph(Put(s, c, a), q) == On(Typeset(p, c), COLS * p.top + q) {
          assert Glyph(s', q) == On(p', COLS * p.top + q);
        }
      }
    }
  }

  lemma {:induction false} PutAllOnPaper(s: Screen, p: Paper, text: seq<byte>, a: byte)
    requires OnPaper(s, p)
    ensures OnPaper(PutAll(s, text, a), TypesetAll(p, text))
    decreases |text|
  {
    if text != [] {
      var init := text[..|text| - 1];
      PutAllOnPaper(s, p, init, a);
      PutOnPaper(PutAll(s, init, a), TypesetAll(p, init), text[|text| - 1], a);
    }
  }

  lemma EraseOnPaper(s: Screen, p: Paper, a: byte)
    requires OnPaper(s, p)
    ensures OnPaper(Erase(s, a), RubOut(p))
  {
    if CellOf(s) > 0 {
      BackOnPaper(s, p, a);
    } else {
      EraseAtOrigin(s, p, a);
    }
  }

  lemma BackOnPaper(s: Screen, p: Paper, a: byte)
    requires OnPaper(s, p) && CellOf(s) > 0
    ensures OnPaper(Erase(s, a), RubOut(p))
  {
    var back := if s.x == 0 then SetPos(s, COLS - 1, U32(s.y - 1)) else s.(x := s.x - 1);
    assert back.mem == s.mem && CellOf(back) == CellOf(s) - 1;
    assert forall q :: 0 <= q < PAGE ==> Glyph(back, q) == Glyph(s, q);
    PokeOnPaper(back, p.(at := p.at - 1), SPACE, a);
  }

  lemma EraseAtOrigin(s: Screen, p: Paper, a: byte)
    requires OnPaper(s, p) && CellOf(s) == 0
    ensures OnPaper(Erase(s, a), RubOut(p))
  {
    var back, r := Screen(ScrolledMem(s.mem), 0, ROWS - 1), RubOut(p);
    assert SetPos(s, COLS - 1, U32(-1)) == back;
    ScrolledOnPaper(s, back, p, r);
    hide OnPaper;
    PokeBlank(back, r, a);
  }

  /** Blanking the cell at the cursor changes nothing if it is beyond what was written. */
  lemma PokeBlank(s: Screen, p: Paper, a: byte)
    requires OnPaper(s, p) && |p.cells| <= p.at
    ensures OnPaper(Poke(s, SPACE, a), p)
  {
    PokeOnPaper(s, p, SPACE, a);
    var p' := p.(cells := SetCell(p.cells, p.at, SPACE));
    assert forall i :: On(p', i) == On(p, i);
  }

  lemma FedOnPaper(l: Logical, p: Paper, i: Input, a: byte)
    requires LogicalOk(l, a) && InputAllowed(l, i) && OnPaper(l.screen, p)
    ensures OnPaper(Fed(l, i, a).screen, FedPaper(l.idx, p, i)) && Fed(l, i, a).idx == NextIdx(l.idx, i)
  {
    match i
    case Printed(text) => PutAllOnPaper(l.screen, p, text, a);
    case Taken(_) =>
    case Typed(k) =>
      if k == CTRL_L {
        assert forall q :: 0 <= q < PAGE ==> Glyph(Cleared(a), q) == SPACE;
      } else if k == BS {
        EraseOnPaper(l.screen, p, a);
      } else {
        PutAllOnPaper(l.screen, p, Echo(l.idx, k), a);
        assert Fed(l, i, a).screen == PutAll(l.screen, Echo(l.idx, k), a);
      }
  }

  lemma {:induction false} AloneOnPaper(l: Logical, p: Paper, ins: seq<Input>, a: byte)
    requires LogicalOk(l, a) && InputsAllowed(l, ins, a) && OnPaper(l.screen, p)
    ensures OnPaper(Alone(l, ins, a).screen, PaperAfter(l.idx, p, ins))
    decreases |ins|
  {
    if ins != [] {
      FedOnPaper(l, p, ins[0], a);
      AloneOnPaper(Fed(l, ins[0], a), FedPaper(l.idx, p, ins[0]), ins[1..], a);
    }
  }

  /** The paper of terminal t after a run: its screen as the first page, then its own inputs. */
  ghost function PaperOfRun(s: System, es: seq<Event>, t: int): (p: Paper)
    requires SystemOk(s) && 0 <= t < MAX_TERM
    ensures PaperOk(p)
  {
    assert LogicalOk(s.term[t], Attribute(t));
    PaperAfter(s.term[t].idx, PaperOf(s.term[t].screen), Inputs(s.cur, s.act, es, t))
  }

  /** Over every run, without any condition, each terminal shows a page of the paper its own inputs make. */
  lemma MultiplexedPaper(s: System, es: seq<Event>, t: int)
    requires SystemOk(s) && Legal(s, es) && 0 <= t < MAX_TERM
    ensures OnPaper(Run(s, es).term[t].screen, PaperOfRun(s, es, t))
  {
    TerminalsAreIndependent(s, es, t);
    assert LogicalOk(s.term[t], Attribute(t));
    AloneOnPaper(s.term[t], PaperOf(s.term[t].screen), Inputs(s.cur, s.act, es, t), Attribute(t));
  }

  // ---------------------------------------------------------------- what can still be lost

  predicate NoClear(ins: seq<Input>) {
    forall i :: 0 <= i < |ins| ==> ins[i] != Typed(CTRL_L)
  }

  lemma {:induction false} TypesetKeeps(p: Paper, text: seq<byte>)
    requires PaperOk(p)
    ensures var r := TypesetAll(p, text);
            r.top >= p.top && r.at >= p.at + |text| && forall i :: i < p.at ==> On(r, i) == On(p, i)
    decreases |text|
  {
    if text != [] {
      TypesetKeeps(p, text[..|text| - 1]);
    }
  }

  /** The first n cells are out of reach: rolled out of view, or with as many cells behind them as can be rubbed out. */
  predicate Beyond(idx: int, p: Paper, n: int) {
    n <= COLS * p.top || n + idx <= p.at
  }

  lemma FedKeeps(idx: int, p: Paper, i: Input, n: int)
    requires PaperOk(p) && idx >= 0 && i != Typed(CTRL_L) && Beyond(idx, p, n)
    ensures var r := FedPaper(idx, p, i);
            NextIdx(idx, i) >= 0 && Beyond(NextIdx(idx, i), r, n) && forall j :: j < n ==> On(r, j) == On(p, j)
  {
    match i
    case Printed(text) => TypesetKeeps(p, text);
    case Taken(_) =>
    case Typed(k) => TypesetKeeps(p, Echo(idx, k));
  }

  lemma {:induction false} CellsStay(idx: int, p: Paper, ins: seq<Input>, n: int)
    requires PaperOk(p) && idx >= 0 && NoClear(ins) && Beyond(idx, p, n)
    ensures forall j :: j < n ==> On(PaperAfter(idx, p, ins), j) == On(p, j)
    decreases |ins|
  {
    if ins != [] {
      FedKeeps(idx, p, ins[0], n);
      CellsStay(NextIdx(idx, ins[0]), FedPaper(idx, p, ins[0]), ins[1..], n);
    }
  }

  /** Backspaces up to cell i, or blanks printed up to it. */
  function Wipe(p: Paper, i: int): seq<Input> {
    if i < p.at then seq(p.at - i, _ => Typed(BS)) else [Printed(Blanks(i + 1 - p.at))]
  }

  function Blanks(n: nat): seq<byte> {
    seq(n, _ => SPACE)
  }

  lemma RubOutCells(p: Paper)
    requires PaperOk(p) && p.at > COLS * p.top
    ensures forall j :: On(RubOut(p), j) == if j == p.at - 1 then SPACE else On(p, j)
  {
  }

  lemma TypesetCells(p: Paper, c: byte)
    requires PaperOk(p) && !IsNewline(c)
    ensures var r := Typeset(p, c);
            r.at == p.at + 1 && r.top == Max(p.top, r.at / COLS - (ROWS - 1))
            && forall j :: On(r, j) == if j == p.at then c else On(p, j)
  {
    forall j ensures On(Typeset(p, c), j) == if j == p.at then c else On(p, j) {
    }
  }

  lemma {:induction false} BackspacesBlank(idx: int, p: Paper, k: nat)
    requires PaperOk(p) && k <= idx && k <= p.at - COLS * p.top
    ensures var r := PaperAfter(idx, p, seq(k, _ => Typed(BS)));
            r.at == p.at - k && r.top == p.top && forall i :: r.at <= i < p.at ==> On(r, i) == SPACE
    decreases k
  {
    if k > 0 {
      var ins := seq(k, _ => Typed(BS));
      assert ins[1..] == seq(k - 1, _ => Typed(BS));
      var q := RubOut(p);
      RubOutCells(p);
      BackspacesBlank(idx - 1, q, k - 1);
      CellsBehind(idx - 1, q, k - 1);
      var r := PaperAfter(idx, p, ins);
      assert r == PaperAfter(idx - 1, q, ins[1..]) && q.at == p.at - 1;
      forall i | r.at <= i < p.at ensures On(r, i) == SPACE {
        assert i == q.at ==> On(r, i) == On(q, i);
      }
    }
  }

  lemma {:induction false} CellsBehind(idx: int, p: Paper, k: nat)
    requires PaperOk(p) && k <= idx && k <= p.at - COLS * p.top
    ensures forall i :: i >= p.at ==> On(PaperAfter(idx, p, seq(k, _ => Typed(BS))), i) == On(p, i)
    decreases k
  {
    if k > 0 {
      var ins := seq(k, _ => Typed(BS));
      assert ins[1..] == seq(k - 1, _ => Typed(BS));
      RubOutCells(p);
      assert PaperAfter(idx, p, ins) == PaperAfter(idx - 1, RubOut(p), ins[1..]);
      CellsBehind(idx - 1, RubOut(p), k - 1);
    }
  }

  lemma {:induction false} BlanksBlank(p: Paper, n: nat)
    requires PaperOk(p)
    ensures var r := TypesetAll(p, Blanks(n));
            && r.at == p.at + n && r.top == Max(p.top, if n == 0 then p.top else r.at / COLS - (ROWS - 1))
            && forall i :: p.at <= i < r.at ==> On(r, i) == SPACE
    decreases n
  {
    if n > 0 {
      assert Blanks(n)[..n - 1] == Blanks(n - 1);
      BlanksBlank(p, n - 1);
      TypesetCells(TypesetAll(p, Blanks(n - 1)), SPACE);
      hide On, Typeset;
    }
  }

  /** Wiping blanks the cell, which is still in view. */
  lemma WipeBlanks(idx: int, p: Paper, i: int)
    requires PaperOk(p) && i >= COLS * p.top && !Beyond(idx, p, i + 1)
    ensures var r := PaperAfter(idx, p, Wipe(p, i)); On(r, i) == SPACE && i >= COLS * r.top
    ensures NoClear(Wipe(p, i))
  {
    if i < p.at {
      BackspacesBlank(idx, p, p.at - i);
    } else {
      BlanksBlank(p, i + 1 - p.at);
      assert Wipe(p, i)[1..] == [];
    }
  }

  /**
   A character stays on the paper whatever is typed, written and read, up to the next Ctrl-L, if
   and only if it has left the view or at least idx cells lie between it and the cursor.
   */
  lemma CellSafeExact(idx: int, p: Paper, i: int)
    requires PaperOk(p) && idx >= 0 && On(p, i) != SPACE
    ensures (forall ins | NoClear(ins) :: On(PaperAfter(idx, p, ins), i) == On(p, i)) <==> Beyond(idx, p, i + 1)
  {
    if Beyond(idx, p, i + 1) {
      forall ins | NoClear(ins) ensures On(PaperAfter(idx, p, ins), i) == On(p, i) {
        CellsStay(idx, p, ins, i + 1);
      }
    } else {
      WipeBlanks(idx, p, i);
    }
  }

  // ---------------------------------------------------------------- the same on the screens of a run

  /** Cell q of terminal t's screen keeps its character until it is scrolled out, one row up for every scroll. */
  ghost predicate Stays(s: System, es: seq<Event>, t: int, q: int)
    requires SystemOk(s) && Legal(s, es) && 0 <= t < MAX_TERM && 0 <= q < PAGE
  {
    assert LogicalOk(s.term[t], Attribute(t)) && LogicalOk(Run(s, es).term[t], Attribute(t));
    var q' := q - COLS * PaperOfRun(s, es, t).top;
    q' >= 0 ==> q' < PAGE && Glyph(Run(s, es).term[t].screen, q') == Glyph(s.term[t].screen, q)
  }

  lemma StaysIsOn(s: System, es: seq<Event>, t: int, q: int)
    requires SystemOk(s) && Legal(s, es) && 0 <= t < MAX_TERM && 0 <= q < PAGE
    ensures var p, r := PaperOf(s.term[t].screen), PaperOfRun(s, es, t);
            Stays(s, es, t, q) <==> (q >= COLS * r.top ==> On(r, q) == On(p, q))
  {
    MultiplexedPaper(s, es, t);
    assert LogicalOk(s.term[t], Attribute(t));
    var p, r := PaperOf(s.term[t].screen), PaperOfRun(s, es, t);
    assert Glyph(s.term[t].screen, q) == On(p, COLS * p.top + q);
  }

  /** A run that feeds terminal t just the wiping inputs. */
  function WipeRun(t: int, p: Paper, i: int): seq<Event> {
    if i < p.at then [Switch(t)] + Backspaces(p.at - i) else [Tick(t), Write(Blanks(i + 1 - p.at))]
  }

  function Backspaces(k: nat): seq<Event> {
    seq(k, _ => Key(BS))
  }

  lemma {:induction false} BackspacesLegal(s: System, k: nat)
    requires SystemOk(s)
    ensures Legal(s, Backspaces(k))
    ensures Inputs(s.cur, s.act, Backspaces(k), s.cur) == seq(k, _ => Typed(BS))
    decreases k
  {
    if k > 0 {
      assert Backspaces(k)[1..] == Backspaces(k - 1);
      BackspacesLegal(Step(s, Key(BS)), k - 1);
    }
  }

  lemma WipeRunInputs(s: System, t: int, p: Paper, i: int)
    requires SystemOk(s) && 0 <= t < MAX_TERM
    ensures Legal(s, WipeRun(t, p, i)) && Inputs(s.cur, s.act, WipeRun(t, p, i), t) == Wipe(p, i)
  {
    var es := WipeRun(t, p, i);
    if i < p.at {
      BackspacesLegal(Step(s, Switch(t)), p.at - i);
      assert es[1..] == Backspaces(p.at - i);
      assert [] + Wipe(p, i) == Wipe(p, i);
    } else {
      var last := [Write(Blanks(i + 1 - p.at))];
      assert es[1..] == last && last[1..] == [];
      assert Inputs(s.cur, t, last, t) == Wipe(p, i) + [];
      assert Inputs(s.cur, s.act, es, t) == [] + Inputs(s.cur, t, last, t);
    }
  }

  /**
   On the screen: over all runs without Ctrl-L in terminal t, a character of it stays until it is
   scrolled out if and only if at least as many cells lie between it and the cursor as characters
   are buffered.
   */
  lemma MultiplexedCellExact(s: System, t: int, q: int)
    requires SystemOk(s) && 0 <= t < MAX_TERM && 0 <= q < PAGE && Glyph(s.term[t].screen, q) != SPACE
    ensures (forall es | Legal(s, es) && NoClear(Inputs(s.cur, s.act, es, t)) :: Stays(s, es, t, q))
            <==> q + 1 + s.term[t].idx <= CellOf(s.term[t].screen)
  {
    var l := s.term[t];
    assert LogicalOk(l, Attribute(t));
    var p := PaperOf(l.screen);
    assert Glyph(l.screen, q) == On(p, q);
    if Beyond(l.idx, p, q + 1) {
      forall es | Legal(s, es) && NoClear(Inputs(s.cur, s.act, es, t)) ensures Stays(s, es, t, q) {
        CellsStay(l.idx, p, Inputs(s.cur, s.act, es, t), q + 1);
        StaysIsOn(s, es, t, q);
      }
    } else {
      var es := WipeRun(t, p, q);
      WipeRunInputs(s, t, p, q);
      WipeBlanks(l.idx, p, q);
      StaysIsOn(s, es, t, q);
      assert !Stays(s, es, t, q);
    }
  }

  /** So with nothing typed on the line, everything before the cursor, the prompt included, is safe. */
  lemma PromptStays(s: System, es: seq<Event>, t: int, q: int)
    requires SystemOk(s) && Legal(s, es) && 0 <= t < MAX_TERM && NoClear(Inputs(s.cur, s.act, es, t))
    requires s.term[t].idx == 0 && 0 <= q < CellOf(s.term[t].screen)
    ensures q < PAGE && Stays(s, es, t, q)
  {
    assert LogicalOk(s.term[t], Attribute(t));
    CellsStay(0, PaperOf(s.term[t].screen), Inputs(s.cur, s.act, es, t), q + 1);
    StaysIsOn(s, es, t, q);
  }
}
