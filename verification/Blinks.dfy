/**
 The blinking characters of the fish program as values: a list, newest first, of characters that
 alternate on the text screen, and the closed form of their timing.
 */
module Blinks {
  import opened Bytes
  import opened Limits

  const POOL := 2000

  type u16 = x: int | 0 <= x < 0x1_0000

  /** mp1_blink_struct without its link. */
  datatype Blink = Blink(location: u16, onChar: byte, offChar: byte, onLen: u16, offLen: u16,
                         countdown: u16, status: u16)

  /** decw and cmpw work on 16 bits, the comparison on signed ones. */
  function Dec16(c: u16): u16 {
    if c == 0 then 0xFFFF else c - 1
  }

  function Signed16(c: u16): int {
    if c < 0x8000 then c else c - 0x1_0000
  }

  function Toggled(status: u16): u16 {
    if status % 2 == 1 then status - 1 else status + 1
  }

  /** Whether this tick toggles the character. */
  predicate Expires(b: Blink) {
    Signed16(Dec16(b.countdown)) <= 0
  }

  function Ticked(b: Blink): Blink {
    if !Expires(b) then b.(countdown := Dec16(b.countdown))
    else b.(countdown := if b.status % 2 == 1 then b.offLen else b.onLen, status := Toggled(b.status))
  }

  function ShowChar(screen: seq<byte>, location: u16, c: byte): (r: seq<byte>)
    requires |screen| == VIDEO_BYTES && location < POOL
    ensures |r| == VIDEO_BYTES
  {
    screen[2 * location := c]
  }

  function TickedScreen(screen: seq<byte>, b: Blink): (r: seq<byte>)
    requires |screen| == VIDEO_BYTES && b.location < POOL
    ensures |r| == VIDEO_BYTES
  {
    if !Expires(b) then screen
    else ShowChar(screen, b.location, if b.status % 2 == 1 then b.offChar else b.onChar)
  }

  // ---------------------------------------------------------------- the list

  datatype State = State(list: seq<Blink>, screen: seq<byte>)

  ghost predicate StateOk(s: State) {
    && |s.screen| == VIDEO_BYTES && |s.list| <= POOL
    && forall i :: 0 <= i < |s.list| ==> 0 < s.list[i].location < POOL
  }

  /** The position of the first, that is the newest, blink at a location; -1 if there is none. */
  function FindFirst(list: seq<Blink>, location: int): (r: int)
    ensures r == -1 <==> forall i :: 0 <= i < |list| ==> list[i].location != location
    ensures r != -1 ==> 0 <= r < |list| && list[r].location == location
                        && forall i :: 0 <= i < r ==> list[i].location != location
  {
    if list == [] then -1
    else if list[0].location == location then 0
    else
      var r := FindFirst(list[1..], location);
      if r == -1 then -1 else r + 1
  }

  /** A blink as add links it in: on, with its countdown full. */
  function Started(b: Blink): Blink {
    b.(countdown := b.onLen, status := 1)
  }

  function Add(s: State, b: Blink): (r: (State, int))
    requires StateOk(s) && b.location != 0
    ensures StateOk(r.0)
  {
    if b.location >= POOL || |s.list| == POOL then (s, -1)
    else (State([Started(b)] + s.list, ShowChar(s.screen, b.location, b.onChar)), 0)
  }

  function Remove(s: State, location: int): (r: (State, int))
    requires StateOk(s)
    ensures StateOk(r.0)
  {
    var i := FindFirst(s.list, location);
    if i == -1 then (s, -1) else (s.(list := s.list[..i] + s.list[i + 1..]), 0)
  }

  /** Copies lengths, countdown and status; the conditional move after testb never happens, so off_char is shown. */
  function Sync(s: State, src: int, dst: int): (r: (State, int))
    requires StateOk(s)
    ensures StateOk(r.0)
  {
    var i, j := FindFirst(s.list, src), FindFirst(s.list, dst);
    if i == -1 || j == -1 then (s, -1)
    else
      var a, b := s.list[i], s.list[j];
      (State(s.list[j := b.(onLen := a.onLen, offLen := a.offLen, countdown := a.countdown, status := a.status)],
             ShowChar(s.screen, b.location, b.offChar)), 0)
  }

  /** The screen after ticking the first n blinks of the list, in order. */
  function ScreenAfter(s: State, n: int): (r: seq<byte>)
    requires StateOk(s) && 0 <= n <= |s.list|
    ensures |r| == VIDEO_BYTES
    decreases n
  {
    if n == 0 then s.screen else TickedScreen(ScreenAfter(s, n - 1), s.list[n - 1])
  }

  function Tick(s: State): (r: State)
    requires StateOk(s)
    ensures StateOk(r)
  {
    State(seq(|s.list|, i requires 0 <= i < |s.list| => Ticked(s.list[i])), ScreenAfter(s, |s.list|))
  }

  // ---------------------------------------------------------------- timing

  /** A blink t ticks after it was added. */
  function After(b: Blink, t: nat): Blink {
    if t == 0 then Started(b) else Ticked(After(b, t - 1))
  }

  ghost predicate LengthsOk(b: Blink) {
    1 <= b.onLen < 0x8000 && 1 <= b.offLen < 0x8000
  }

  /** Where tick t falls in the period. */
  function Phase(b: Blink, t: nat): (p: int)
    requires LengthsOk(b)
    ensures 0 <= p < b.onLen + b.offLen
  {
    t % (b.onLen + b.offLen)
  }

  lemma NextPhase(t: nat, m: int)
    requires m > 1
    ensures (t + 1) % m == if t % m == m - 1 then 0 else t % m + 1
  {
    var q, r := t / m, t % m;
    assert t == q * m + r;
    if r == m - 1 {
      assert t + 1 == (q + 1) * m;
      DivModUnique(t + 1, m, q + 1, 0);
    } else {
      DivModUnique(t + 1, m, q, r + 1);
    }
  }

  /** Status and countdown after t ticks, in closed form. */
  lemma {:induction false} TimingClosedForm(b: Blink, t: nat)
    requires LengthsOk(b)
    ensures var p := Phase(b, t);
            After(b, t) == b.(status := if p < b.onLen then 1 else 0,
                              countdown := if p < b.onLen then b.onLen - p else b.onLen + b.offLen - p)
  {
    if t > 0 {
      TimingClosedForm(b, t - 1);
      NextPhase(t - 1, b.onLen + b.offLen);
    } else {
      DivModUnique(0, b.onLen + b.offLen, 0, 0);
    }
  }

  /** Blink i of the list was added age ticks ago and its cell shows what the closed form says. */
  ghost predicate TimedAt(s: State, i: int, age: nat)
    requires StateOk(s) && 0 <= i < |s.list|
  {
    var b := s.list[i];
    && LengthsOk(b)
    && b == After(b, age)
    && s.screen[2 * b.location] == if Phase(b, age) < b.onLen then b.onChar else b.offChar
  }

  ghost predicate Distinct(list: seq<Blink>) {
    forall i, j :: 0 <= i < j < |list| ==> list[i].location != list[j].location
  }

  ghost predicate Timed(s: State, ages: seq<nat>) {
    && StateOk(s) && |ages| == |s.list| && Distinct(s.list)
    && forall i :: 0 <= i < |s.list| ==> TimedAt(s, i, ages[i])
  }

  datatype Op =
    | AddOp(b: Blink)
    | RemoveOp(location: u16)
    | FindOp(location: u16)
    | SyncOp(src: u16, dst: u16)
    | TickOp

  /** Location 0 marks a free slot and cannot be added. */
  ghost predicate OpOk(op: Op) {
    op.AddOp? ==> op.b.location != 0
  }

  /** No sync; new locations only, with lengths that are positive as signed 16-bit numbers. */
  ghost predicate Timely(s: State, op: Op) {
    match op
    case AddOp(b) => LengthsOk(b) && FindFirst(s.list, b.location) == -1
    case SyncOp(_, _) => false
    case _ => true
  }

  ghost function Step(s: State, op: Op): (r: State)
    requires StateOk(s) && OpOk(op)
    ensures StateOk(r)
  {
    match op
    case AddOp(b) => Add(s, b).0
    case RemoveOp(location) => Remove(s, location).0
    case FindOp(_) => s
    case SyncOp(src, dst) => Sync(s, src, dst).0
    case TickOp => Tick(s)
  }

  ghost function Run(s: State, ops: seq<Op>): (r: State)
    requires StateOk(s) && forall i :: 0 <= i < |ops| ==> OpOk(ops[i])
    ensures StateOk(r)
    decreases |ops|
  {
    if ops == [] then s else Run(Step(s, ops[0]), ops[1..])
  }

  /** The number of ticks since each listed blink was added. */
  ghost function StepAges(s: State, ages: seq<nat>, op: Op): (r: seq<nat>)
    requires StateOk(s) && OpOk(op) && |ages| == |s.list|
    ensures |r| == |Step(s, op).list|
  {
    match op
    case AddOp(b) => if Add(s, b).1 == -1 then ages else [0] + ages
    case RemoveOp(location) =>
      var i := FindFirst(s.list, location);
      if i == -1 then ages else ages[..i] + ages[i + 1..]
    case TickOp => seq(|ages|, i requires 0 <= i < |ages| => ages[i] + 1)
    case _ => ages
  }

  ghost function RunAges(s: State, ages: seq<nat>, ops: seq<Op>): (r: seq<nat>)
    requires StateOk(s) && |ages| == |s.list| && forall i :: 0 <= i < |ops| ==> OpOk(ops[i])
    ensures |r| == |Run(s, ops).list|
    decreases |ops|
  {
    if ops == [] then ages else RunAges(Step(s, ops[0]), StepAges(s, ages, ops[0]), ops[1..])
  }

  lemma AfterIsTicked(b: Blink, t: nat)
    requires b == After(b, t)
    ensures Ticked(b) == After(Ticked(b), t + 1)
  {
    AfterForgets(b, Ticked(b), t);
  }

  /** The countdown and status a blink is added with do not matter. */
  lemma {:induction false} AfterForgets(b: Blink, c: Blink, t: nat)
    requires Started(b) == Started(c)
    ensures After(b, t) == After(c, t)
  {
    if t > 0 {
      AfterForgets(b, c, t - 1);
    }
  }

  /** With distinct locations, ticking the list changes each blink's cell only through that blink. */
  lemma {:induction false} ScreenAfterAt(s: State, n: int, i: int)
    requires StateOk(s) && Distinct(s.list) && 0 <= n <= |s.list| && 0 <= i < |s.list|
    ensures var at := 2 * s.list[i].location;
            ScreenAfter(s, n)[at] == if i < n then TickedScreen(s.screen, s.list[i])[at] else s.screen[at]
    decreases n
  {
    if n > 0 {
      ScreenAfterAt(s, n - 1, i);
      assert n - 1 != i ==> s.list[n - 1].location != s.list[i].location;
    }
  }

  lemma TickKeepsTimed(s: State, ages: seq<nat>, i: int)
    requires Timed(s, ages) && 0 <= i < |s.list|
    ensures TimedAt(Tick(s), i, ages[i] + 1)
  {
    var b, t := s.list[i], ages[i];
    assert TimedAt(s, i, t);
    AfterIsTicked(b, t);
    ScreenAfterAt(s, |s.list|, i);
    TimingClosedForm(b, t);
    NextPhase(t, b.onLen + b.offLen);
  }

  /** A blink keeps its timing wherever it stands, while its cell is untouched. */
  lemma TimedMoves(s: State, i: int, s': State, j: int, age: nat)
    requires StateOk(s) && StateOk(s') && 0 <= i < |s.list| && 0 <= j < |s'.list|
    requires TimedAt(s, i, age) && s'.list[j] == s.list[i]
    requires s'.screen[2 * s.list[i].location] == s.screen[2 * s.list[i].location]
    ensures TimedAt(s', j, age)
  {
  }

  lemma AddKeepsTimed(s: State, ages: seq<nat>, b: Blink)
    requires Timed(s, ages) && b.location != 0 && Timely(s, AddOp(b)) && Add(s, b).1 != -1
    ensures Timed(Add(s, b).0, [0] + ages)
  {
    var s' := Add(s, b).0;
    assert forall i :: 0 < i < |s'.list| ==> s'.list[i] == s.list[i - 1];
    DivModUnique(0, b.onLen + b.offLen, 0, 0);
    assert TimedAt(s', 0, 0);
    hide TimedAt;
    forall i | 0 <= i < |s'.list| ensures TimedAt(s', i, ([0] + ages)[i]) {
      if i > 0 {
        TimedMoves(s, i - 1, s', i, ages[i - 1]);
      }
    }
  }

  lemma RemoveKeepsTimed(s: State, ages: seq<nat>, location: u16)
    requires Timed(s, ages)
    ensures Timed(Remove(s, location).0, StepAges(s, ages, RemoveOp(location)))
  {
    var k := FindFirst(s.list, location);
    if k != -1 {
      DropKeepsTimed(s, ages, k);
    }
  }

  lemma DropKeepsTimed(s: State, ages: seq<nat>, k: int)
    requires Timed(s, ages) && 0 <= k < |s.list|
    ensures Timed(s.(list := s.list[..k] + s.list[k + 1..]), ages[..k] + ages[k + 1..])
  {
    var s', ages' := s.(list := s.list[..k] + s.list[k + 1..]), ages[..k] + ages[k + 1..];
    hide TimedAt;
    forall i | 0 <= i < |s'.list| ensures TimedAt(s', i, ages'[i]) {
      TimedMoves(s, if i < k then i else i + 1, s', i, ages'[i]);
    }
  }

  lemma TickKeepsAllTimed(s: State, ages: seq<nat>)
    requires Timed(s, ages)
    ensures Timed(Tick(s), seq(|ages|, i requires 0 <= i < |ages| => ages[i] + 1))
  {
    hide TimedAt;
    forall i | 0 <= i < |s.list| ensures TimedAt(Tick(s), i, ages[i] + 1) {
      TickKeepsTimed(s, ages, i);
    }
  }

  lemma StepKeepsTimed(s: State, ages: seq<nat>, op: Op)
    requires Timed(s, ages) && OpOk(op) && Timely(s, op)
    ensures Timed(Step(s, op), StepAges(s, ages, op))
  {
    assert StateOk(s);
    hide Timed;
    match op {
      case AddOp(b) =>
        if Add(s, b).1 != -1 {
          AddKeepsTimed(s, ages, b);
        }
      case RemoveOp(location) => RemoveKeepsTimed(s, ages, location);
      case FindOp(_) =>
      case SyncOp(_, _) =>
      case TickOp => TickKeepsAllTimed(s, ages);
    }
  }

  ghost predicate TimelyRun(s: State, ops: seq<Op>)
    requires StateOk(s) && forall i :: 0 <= i < |ops| ==> OpOk(ops[i])
    decreases |ops|
  {
    ops == [] || (Timely(s, ops[0]) && TimelyRun(Step(s, ops[0]), ops[1..]))
  }

  /**
   Over every run of adds at new locations, removes, finds and ticks, in any order, each blink on
   the list shows on_char exactly when its age modulo on + off is below on.
   */
  lemma {:induction false} BlinkTiming(s: State, ages: seq<nat>, ops: seq<Op>)
    requires Timed(s, ages) && forall i :: 0 <= i < |ops| ==> OpOk(ops[i])
    requires TimelyRun(s, ops)
    ensures Timed(Run(s, ops), RunAges(s, ages, ops))
    decreases |ops|
  {
    if ops != [] {
      StepKeepsTimed(s, ages, ops[0]);
      BlinkTiming(Step(s, ops[0]), StepAges(s, ages, ops[0]), ops[1..]);
    }
  }

  // ---------------------------------------------------------------- sync and remove

  ghost predicate Listed(s: State, location: int) {
    exists i :: 0 <= i < |s.list| && s.list[i].location == location
  }

  /** The newest blink at a location. */
  function Newest(s: State, location: int): Blink
    requires FindFirst(s.list, location) != -1
  {
    s.list[FindFirst(s.list, location)]
  }

  /** Lengths, countdown and status: when the character changes. */
  predicate InPhase(a: Blink, b: Blink) {
    a.onLen == b.onLen && a.offLen == b.offLen && a.countdown == b.countdown && a.status == b.status
  }

  /**
   sync succeeds exactly if both locations are listed.  Then the destination takes over the phase
   of the source and keeps its place and characters, and nothing else changes but its cell.
   */
  lemma SyncExact(s: State, src: int, dst: int)
    requires StateOk(s)
    ensures var (r, result) := Sync(s, src, dst);
            && result == (if Listed(s, src) && Listed(s, dst) then 0 else -1)
            && (result == -1 ==> r == s)
            && FindFirst(r.list, dst) == FindFirst(s.list, dst)
            && (result == 0 ==>
                  var a, b, now := Newest(s, src), Newest(s, dst), Newest(r, dst);
                  && InPhase(now, a) && now.location == b.location == dst
                  && now.onChar == b.onChar && now.offChar == b.offChar
                  && |r.list| == |s.list|
                  && (forall i :: 0 <= i < |s.list| && i != FindFirst(s.list, dst) ==> r.list[i] == s.list[i])
                  && r.screen[2 * dst] == b.offChar
                  && forall i :: 0 <= i < VIDEO_BYTES && i != 2 * dst ==> r.screen[i] == s.screen[i])
  {
    var (r, result) := Sync(s, src, dst);
    var i, j := FindFirst(s.list, src), FindFirst(s.list, dst);
    if i != -1 && j != -1 {
      assert Listed(s, src) && Listed(s, dst);
      SameFirst(s.list, r.list, dst);
    }
  }

  lemma {:induction false} SameFirst(list: seq<Blink>, list': seq<Blink>, location: int)
    requires |list| == |list'| && forall i :: 0 <= i < |list| ==> list[i].location == list'[i].location
    ensures FindFirst(list, location) == FindFirst(list', location)
  {
    if list != [] {
      SameFirst(list[1..], list'[1..], location);
    }
  }

  ghost function TicksOf(s: State, n: nat): (r: State)
    requires StateOk(s)
    ensures StateOk(r)
    decreases n
  {
    if n == 0 then s else TicksOf(Tick(s), n - 1)
  }

  lemma TickKeepsPhase(a: Blink, b: Blink)
    requires InPhase(a, b)
    ensures InPhase(Ticked(a), Ticked(b))
  {
  }

  lemma NewestTicks(s: State, location: int)
    requires StateOk(s) && FindFirst(s.list, location) != -1
    ensures FindFirst(Tick(s).list, location) != -1 && Newest(Tick(s), location) == Ticked(Newest(s, location))
  {
    SameFirst(s.list, Tick(s).list, location);
  }

  /** Both locations are listed, in the same phase. */
  ghost predicate Together(s: State, src: int, dst: int) {
    && FindFirst(s.list, src) != -1 && FindFirst(s.list, dst) != -1
    && InPhase(Newest(s, src), Newest(s, dst))
  }

  lemma TickKeepsTogether(s: State, src: int, dst: int)
    requires StateOk(s) && Together(s, src, dst)
    ensures Together(Tick(s), src, dst)
  {
    NewestTicks(s, src);
    NewestTicks(s, dst);
    TickKeepsPhase(Newest(s, src), Newest(s, dst));
  }

  lemma {:induction false} TicksKeepTogether(s: State, src: int, dst: int, n: nat)
    requires StateOk(s) && Together(s, src, dst)
    ensures Together(TicksOf(s, n), src, dst)
    decreases n
  {
    hide Tick, Together, StateOk;
    if n > 0 {
      TickKeepsTogether(s, src, dst);
      TicksKeepTogether(Tick(s), src, dst, n - 1);
    }
  }

  /** After a sync, source and destination stay in the same phase for any number of ticks. */
  lemma SyncLasts(s: State, src: int, dst: int, n: nat)
    requires StateOk(s) && Sync(s, src, dst).1 == 0
    ensures Together(TicksOf(Sync(s, src, dst).0, n), src, dst)
  {
    var r := Sync(s, src, dst).0;
    SyncExact(s, src, dst);
    SameFirst(s.list, r.list, src);
    SameFirst(s.list, r.list, dst);
    TicksKeepTogether(r, src, dst, n);
  }

  /** The character a blink stands for by its status. */
  function Due(b: Blink): byte {
    if b.status % 2 == 1 then b.onChar else b.offChar
  }

  /**
   Right after a sync the destination shows what its new status asks for exactly if the source is
   off or the destination's characters are equal.
   */
  lemma SyncShowsDueExact(s: State, src: int, dst: int)
    requires StateOk(s) && Sync(s, src, dst).1 == 0
    ensures var r := Sync(s, src, dst).0;
            FindFirst(r.list, dst) != -1
            && (r.screen[2 * dst] == Due(Newest(r, dst)) <==>
                Newest(s, src).status % 2 == 0 || Newest(s, dst).onChar == Newest(s, dst).offChar)
  {
    SyncExact(s, src, dst);
  }

  /** remove succeeds exactly if the location is listed; it takes the newest blink there and nothing else. */
  lemma RemoveExact(s: State, location: int)
    requires StateOk(s)
    ensures var (r, result) := Remove(s, location); var i := FindFirst(s.list, location);
            && result == (if Listed(s, location) then 0 else -1) && r.screen == s.screen
            && (result == -1 ==> r == s)
            && (result == 0 ==> |r.list| == |s.list| - 1
                                && forall k :: 0 <= k < |r.list| ==> r.list[k] == s.list[if k < i then k else k + 1])
  {
    var i := FindFirst(s.list, location);
    if i != -1 {
      assert Listed(s, location);
    }
  }

  /** Removing what was just added gives the list back. */
  lemma RemoveUndoesAdd(s: State, b: Blink)
    requires StateOk(s) && b.location != 0 && Add(s, b).1 == 0
    ensures Remove(Add(s, b).0, b.location).0.list == s.list
  {
    assert Add(s, b).0.list[0].location == b.location;
  }
}
