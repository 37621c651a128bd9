/**
 The text screen as a value: 25 rows of 80 two-byte cells and a cursor, and what each
 console operation does to it.  Below it, the unbounded layout of a text and the lemmas that
 make the screen a 25-row window on that layout.
 */
module Screens {
  import opened Bytes
  import opened Limits

  const COLS := 80
  const ROWS := 25
  const SPACE: byte := 32
  const NL: byte := 10
  const CR: byte := 13

  datatype Screen = Screen(mem: seq<byte>, x: int, y: int)

  ghost predicate InRange(s: Screen) {
    |s.mem| == VIDEO_BYTES && 0 <= s.x < COLS && 0 <= s.y < ROWS
  }

  /** The attribute byte each terminal writes (ATTRIB_TERM1 to ATTRIB_TERM3). */
  function Attribute(t: int): byte {
    if t == 0 then 0x07 else if t == 1 then 0x0A else 0x0C
  }

  ghost predicate AllAttr(mem: seq<byte>, a: byte) {
    |mem| == VIDEO_BYTES && forall i :: 0 <= i < VIDEO_BYTES && i % 2 == 1 ==> mem[i] == a
  }

  // ---------------------------------------------------------------- operations

  function ScrolledMem(mem: seq<byte>): seq<byte>
    requires |mem| == VIDEO_BYTES
  {
    seq(VIDEO_BYTES, i requires 0 <= i < VIDEO_BYTES =>
      if i % 2 == 1 then mem[i] else if i < VIDEO_BYTES - 2 * COLS then mem[i + 2 * COLS] else SPACE)
  }

  function SetPos(s: Screen, x: int, y: int): (r: Screen)
    requires InRange(s) && 0 <= x && 0 <= y
    ensures InRange(r)
  {
    if x >= COLS then Newline(s)
    else if y < ROWS then s.(x := x, y := y)
    else Screen(ScrolledMem(s.mem), 0, ROWS - 1)
  }

  function Newline(s: Screen): (r: Screen)
    requires InRange(s)
    ensures InRange(r)
  {
    if s.y + 1 < ROWS then s.(x := 0, y := s.y + 1) else Screen(ScrolledMem(s.mem), 0, ROWS - 1)
  }

  function Poke(s: Screen, c: byte, a: byte): (r: Screen)
    requires InRange(s)
    ensures InRange(r)
  {
    var k := 2 * (COLS * s.y + s.x);
    s.(mem := s.mem[k := c][k + 1 := a])
  }

  predicate IsNewline(c: byte) {
    c == NL || c == CR
  }

  function Put(s: Screen, c: byte, a: byte): (r: Screen)
    requires InRange(s)
    ensures InRange(r)
  {
    if IsNewline(c) then Newline(s) else SetPos(Poke(s, c, a), s.x + 1, s.y)
  }

  function PutAll(s: Screen, text: seq<byte>, a: byte): (r: Screen)
    requires InRange(s)
    ensures InRange(r)
    decreases |text|
  {
    if text == [] then s else Put(PutAll(s, text[..|text| - 1], a), text[|text| - 1], a)
  }

  /** Backspace: at the origin the row above is 2^32 - 1, so the screen scrolls instead. */
  function Erase(s: Screen, a: byte): (r: Screen)
    requires InRange(s)
    ensures InRange(r)
  {
    var back := if s.x == 0 then SetPos(s, COLS - 1, U32(s.y - 1)) else s.(x := s.x - 1);
    Poke(back, SPACE, a)
  }

  function Cleared(a: byte): (r: Screen)
    ensures InRange(r) && AllAttr(r.mem, a)
  {
    Screen(seq(VIDEO_BYTES, i => if i % 2 == 1 then a else SPACE), 0, 0)
  }

  // ---------------------------------------------------------------- attributes

  lemma PutKeepsAttr(s: Screen, c: byte, a: byte)
    requires InRange(s) && AllAttr(s.mem, a)
    ensures AllAttr(Put(s, c, a).mem, a)
  {
  }

  lemma {:induction false} PutAllKeepsAttr(s: Screen, text: seq<byte>, a: byte)
    requires InRange(s) && AllAttr(s.mem, a)
    ensures AllAttr(PutAll(s, text, a).mem, a)
    decreases |text|
  {
    if text != [] {
      PutAllKeepsAttr(s, text[..|text| - 1], a);
      PutKeepsAttr(PutAll(s, text[..|text| - 1], a), text[|text| - 1], a);
    }
  }

  lemma {:induction false} PutAllAppend(s: Screen, t1: seq<byte>, t2: seq<byte>, a: byte)
    requires InRange(s)
    ensures PutAll(s, t1 + t2, a) == PutAll(PutAll(s, t1, a), t2, a)
    decreases |t2|
  {
    if t2 == [] {
      assert t1 + t2 == t1;
    } else {
      assert (t1 + t2)[..|t1 + t2| - 1] == t1 + t2[..|t2| - 1];
      PutAllAppend(s, t1, t2[..|t2| - 1], a);
    }
  }

  // ---------------------------------------------------------------- layout

  /** A layout is a list of rows; the cursor is at the end of the last one. */
  type Layout = seq<seq<byte>>

  ghost predicate LayoutOk(rows: Layout) {
    && |rows| >= 1
    && (forall i :: 0 <= i < |rows| ==> |rows[i]| <= COLS)
    && |rows[|rows| - 1]| < COLS
  }

  /** Appends one character: rows fill to 80 columns and wrap as soon as they are full. */
  function Extend(rows: Layout, c: byte): (r: Layout)
    requires LayoutOk(rows)
    ensures LayoutOk(r)
  {
    if IsNewline(c) then rows + [[]]
    else
      var grown := rows[|rows| - 1 := rows[|rows| - 1] + [c]];
      if |grown[|rows| - 1]| == COLS then grown + [[]] else grown
  }

  function LayoutOf(text: seq<byte>): (r: Layout)
    ensures LayoutOk(r)
    decreases |text|
  {
    if text == [] then [[]] else Extend(LayoutOf(text[..|text| - 1]), text[|text| - 1])
  }

  /** The characters 10 and 13 start a new row; every other one takes a cell of the last row. */
  lemma NewlineCharacters(rows: Layout, c: byte)
    requires LayoutOk(rows)
    ensures c == 10 || c == 13 <==> Extend(rows, c) == rows + [[]]
    ensures c != 10 && c != 13 <==> Extend(rows, c)[|rows| - 1] == rows[|rows| - 1] + [c]
  {
    assert |rows[|rows| - 1] + [c]| == |rows[|rows| - 1]| + 1;
    assert (rows + [[]])[|rows| - 1] == rows[|rows| - 1];
  }

  lemma LayoutAppend(text: seq<byte>, c: byte)
    ensures LayoutOf(text + [c]) == Extend(LayoutOf(text), c)
  {
    assert (text + [c])[..|text|] == text;
  }

  function Joined(rows: Layout): seq<byte> {
    if rows == [] then [] else Joined(rows[..|rows| - 1]) + rows[|rows| - 1]
  }

  function WithoutNewlines(text: seq<byte>): seq<byte>
    decreases |text|
  {
    if text == [] then [] else
      WithoutNewlines(text[..|text| - 1]) + (if IsNewline(text[|text| - 1]) then [] else [text[|text| - 1]])
  }

  /** A layout loses and invents nothing: its rows, joined, are the text without its newlines. */
  lemma {:induction false} LayoutKeepsText(text: seq<byte>)
    ensures Joined(LayoutOf(text)) == WithoutNewlines(text)
    decreases |text|
  {
    if text == [] {
      assert Joined([[]]) == Joined([]) + [];
    } else {
      var init, c := text[..|text| - 1], text[|text| - 1];
      LayoutKeepsText(init);
      var rows := LayoutOf(init);
      var n := |rows| - 1;
      if IsNewline(c) {
        assert (rows + [[]])[..|rows|] == rows;
      } else {
        var grown := rows[n := rows[n] + [c]];
        assert grown[..n] == rows[..n];
        assert Joined(grown) == Joined(rows) + [c];
        if |grown[n]| == COLS {
          assert (grown + [[]])[..|grown|] == grown;
        }
      }
    }
  }

  /** The character a layout has at row i, column c: blank beyond the text. */
  function GlyphAt(rows: Layout, i: int, c: int): byte {
    if 0 <= i < |rows| && 0 <= c < |rows[i]| then rows[i][c] else SPACE
  }

  function CharAt(s: Screen, r: int, c: int): byte
    requires InRange(s) && 0 <= r < ROWS && 0 <= c < COLS
  {
    s.mem[2 * (COLS * r + c)]
  }

  /** The screen shows rows top .. top + 24 of the layout, with the cursor at the layout's end. */
  ghost predicate Shows(s: Screen, rows: Layout, top: int) {
    && InRange(s) && LayoutOk(rows) && 0 <= top
    && s.x == |rows[|rows| - 1]| && s.y == |rows| - 1 - top
    && forall r, c :: 0 <= r < ROWS && 0 <= c < COLS ==> CharAt(s, r, c) == GlyphAt(rows, top + r, c)
  }

  /** The first visible row when nothing has been erased: the last 25 rows are in view. */
  function WindowTop(n: int): int {
    Max(0, n - ROWS)
  }

  lemma ScrollShifts(mem: seq<byte>, r: int, c: int)
    requires |mem| == VIDEO_BYTES && 0 <= r < ROWS && 0 <= c < COLS
    ensures ScrolledMem(mem)[2 * (COLS * r + c)] ==
            if r < ROWS - 1 then mem[2 * (COLS * (r + 1) + c)] else SPACE
  {
    var k := 2 * (COLS * r + c);
    assert k % 2 == 0;
    assert 2 * (COLS * (r + 1) + c) == k + 2 * COLS;
  }

  /** Moving to a new row, when the rows on view may be followed by blank ones. */
  lemma NewlineShows(s: Screen, rows: Layout, top: int)
    requires InRange(s) && 0 <= top && |rows| >= 1 && s.y == |rows| - 1 - top
    requires forall i :: 0 <= i < |rows| ==> |rows[i]| <= COLS
    requires forall r, c :: 0 <= r < ROWS && 0 <= c < COLS ==> CharAt(s, r, c) == GlyphAt(rows, top + r, c)
    ensures Shows(Newline(s), rows + [[]], Max(top, |rows| + 1 - ROWS))
  {
    var s' := Newline(s);
    var top' := Max(top, |rows| + 1 - ROWS);
    forall r, c | 0 <= r < ROWS && 0 <= c < COLS
      ensures CharAt(s', r, c) == GlyphAt(rows + [[]], top' + r, c)
    {
      if s.y + 1 >= ROWS {
        ScrollShifts(s.mem, r, c);
        if r + 1 < ROWS {
          assert CharAt(s, r + 1, c) == GlyphAt(rows, top + r + 1, c);
        }
      } else {
        assert CharAt(s, r, c) == GlyphAt(rows, top + r, c);
      }
    }
  }

  lemma PokeAt(s: Screen, ch: byte, a: byte, r: int, c: int)
    requires InRange(s) && 0 <= r < ROWS && 0 <= c < COLS
    ensures CharAt(Poke(s, ch, a), r, c) == if r == s.y && c == s.x then ch else CharAt(s, r, c)
    ensures var i := 2 * (COLS * r + c) + 1; Poke(s, ch, a).mem[i] == if r == s.y && c == s.x then a else s.mem[i]
  {
  }

  /** A printed character appears at the end of the last row. */
  lemma PokeShows(s: Screen, rows: Layout, top: int, ch: byte, a: byte, r: int, c: int)
    requires Shows(s, rows, top) && 0 <= r < ROWS && 0 <= c < COLS
    ensures var n := |rows| - 1; CharAt(Poke(s, ch, a), r, c) == GlyphAt(rows[n := rows[n] + [ch]], top + r, c)
  {
    PokeAt(s, ch, a, r, c);
    assert CharAt(s, r, c) == GlyphAt(rows, top + r, c);
  }

  lemma PutShows(s: Screen, rows: Layout, top: int, ch: byte, a: byte)
    requires Shows(s, rows, top)
    ensures Shows(Put(s, ch, a), Extend(rows, ch), Max(top, |Extend(rows, ch)| - ROWS))
  {
    if IsNewline(ch) {
      NewlineShows(s, rows, top);
    } else {
      var n := |rows| - 1;
      var grown := rows[n := rows[n] + [ch]];
      var p := Poke(s, ch, a);
      forall r, c | 0 <= r < ROWS && 0 <= c < COLS
        ensures CharAt(p, r, c) == GlyphAt(grown, top + r, c)
      {
        PokeShows(s, rows, top, ch, a, r, c);
      }
      assert p.x == s.x && p.y == s.y;
      hide Poke, Newline, GlyphAt, ScrolledMem;
      if |grown[n]| == COLS {
        NewlineShows(p, grown, top);
      } else {
        var s' := Put(s, ch, a);
        assert s' == p.(x := s.x + 1);
        forall r, c | 0 <= r < ROWS && 0 <= c < COLS
          ensures CharAt(s', r, c) == GlyphAt(grown, top + r, c)
        {
          assert CharAt(s', r, c) == CharAt(p, r, c);
        }
      }
    }
  }

  /** Backspace undoes the last printed character while the row it wrapped from is in view. */
  lemma EraseShows(s: Screen, rows: Layout, top: int, ch: byte, a: byte)
    requires LayoutOk(rows) && !IsNewline(ch)
    requires Shows(s, Extend(rows, ch), top)
    requires top <= |rows| - 1
    ensures Shows(Erase(s, a), rows, top)
  {
    var n := |rows| - 1;
    var after := Extend(rows, ch);
    assert after[n] == rows[n] + [ch];
    var back := if s.x == 0 then SetPos(s, COLS - 1, U32(s.y - 1)) else s.(x := s.x - 1);
    assert back.mem == s.mem && back.x == |rows[n]| && back.y == n - top;
    var s' := Erase(s, a);
    forall r, c | 0 <= r < ROWS && 0 <= c < COLS
      ensures CharAt(s', r, c) == GlyphAt(rows, top + r, c)
    {
      PokeAt(back, SPACE, a, r, c);
      assert CharAt(s, r, c) == GlyphAt(after, top + r, c);
    }
  }

  lemma ClearedShows(a: byte)
    ensures Shows(Cleared(a), [[]], 0)
  {
  }

  /**
   After any text, printed from any state that shows a layout, the screen is a window on the
   extended layout; the window only moves down.
   */
  lemma {:induction false} PutAllShows(s: Screen, before: seq<byte>, top: int, text: seq<byte>, a: byte)
    requires Shows(s, LayoutOf(before), top) && WindowTop(|LayoutOf(before)|) <= top
    ensures Shows(PutAll(s, text, a), LayoutOf(before + text), Max(top, |LayoutOf(before + text)| - ROWS))
    decreases |text|
  {
    if text == [] {
      assert before + text == before;
    } else {
      var init := text[..|text| - 1];
      assert (before + text)[..|before + text| - 1] == before + init;
      PutAllShows(s, before, top, init, a);
      ExtendGrows(LayoutOf(before + init), text[|text| - 1]);
      PutShows(PutAll(s, init, a), LayoutOf(before + init), Max(top, |LayoutOf(before + init)| - ROWS),
               text[|text| - 1], a);
    }
  }

  lemma ExtendGrows(rows: Layout, c: byte)
    requires LayoutOk(rows)
    ensures |rows| <= |Extend(rows, c)| <= |rows| + 1
  {
  }

  /** Transcript window: printing a text of any length on a cleared screen leaves its last 25 rows. */
  lemma TranscriptWindow(text: seq<byte>, a: byte)
    ensures Shows(PutAll(Cleared(a), text, a), LayoutOf(text), WindowTop(|LayoutOf(text)|))
  {
    ClearedShows(a);
    assert [] + text == text;
    PutAllShows(Cleared(a), [], 0, text, a);
  }
}
