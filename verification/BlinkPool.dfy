/**
 The blink list as the fish program keeps it: nodes of a static pool of 2000 slots linked by
 index, a slot being free while its location is 0.  The operations are proved against the list
 of module Blinks; every traversal is proved to end.
 */
module BlinkPool {
  import opened Bytes
  import opened Limits
  import opened Blinks

  const NULL := -1

  datatype Node = Node(blink: Blink, next: int)

  const FREE_NODE := Node(Blink(0, 0, 0, 0, 0, 0, 0), NULL)

  /** The slot at position i of the list, or NULL behind its end. */
  function SlotAt(list: seq<int>, i: int): int
    requires 0 <= i
  {
    if i < |list| then list[i] else NULL
  }

  ghost predicate Unique(list: seq<int>) {
    forall i, j :: 0 <= i < j < |list| ==> list[i] != list[j]
  }

  /** Position i of the list is a slot in use whose link leads to position i + 1. */
  ghost predicate NodeOk(pool: seq<Node>, list: seq<int>, i: int)
    requires |pool| == POOL && 0 <= i < |list|
  {
    && 0 <= list[i] < POOL && 0 < pool[list[i]].blink.location < POOL
    && pool[list[i]].next == SlotAt(list, i + 1)
  }

  ghost predicate Threaded(pool: seq<Node>, head: int, list: seq<int>) {
    && |pool| == POOL && head == SlotAt(list, 0) && Unique(list)
    && forall i :: 0 <= i < |list| ==> NodeOk(pool, list, i)
  }

  /** Every slot in use is on the list. */
  ghost predicate Covered(pool: seq<Node>, list: seq<int>) {
    |pool| == POOL && forall k :: 0 <= k < POOL && pool[k].blink.location != 0 ==> k in list
  }

  /** Pool and list agree: the links thread the list, whose slots are exactly the ones in use. */
  ghost predicate Agree(pool: seq<Node>, head: int, list: seq<int>) {
    Threaded(pool, head, list) && Covered(pool, list)
  }

  // ---------------------------------------------------------------- counting slots

  function SlotsBelow(n: nat): (r: set<int>)
    ensures forall k :: k in r <==> 0 <= k < n
    ensures |r| == n
  {
    if n == 0 then {} else SlotsBelow(n - 1) + {n - 1}
  }

  lemma {:induction false} UniqueCount(list: seq<int>)
    requires Unique(list)
    ensures |set k | k in list| == |list|
  {
    if list != [] {
      var rest := list[1..];
      UniqueCount(rest);
      assert (set k | k in list) == (set k | k in rest) + {list[0]};
    } else {
      assert (set k | k in list) == {};
    }
  }

  lemma SubsetCount(s: set<int>, t: set<int>)
    requires s <= t
    ensures |s| <= |t| && (|s| == |t| <==> s == t)
  {
    assert t == s + (t - s);
    assert |t| == |s| + |t - s|;
  }

  /** A list of distinct numbers below n has all of them exactly when it has length n. */
  lemma ListFits(list: seq<int>, n: nat)
    requires Unique(list) && forall i :: 0 <= i < |list| ==> 0 <= list[i] < n
    ensures |list| <= n
    ensures |list| == n <==> forall k :: 0 <= k < n ==> k in list
  {
    UniqueCount(list);
    var s := set k | k in list;
    SubsetCount(s, SlotsBelow(n));
    if s == SlotsBelow(n) {
      forall k | 0 <= k < n ensures k in list {
        assert k in SlotsBelow(n);
      }
    } else {
      var k :| k in SlotsBelow(n) && k !in s;
      assert k !in list;
    }
  }

  // ---------------------------------------------------------------- pools as values

  ghost predicate InPool(pool: seq<Node>, list: seq<int>) {
    |pool| == POOL && forall i :: 0 <= i < |list| ==> 0 <= list[i] < POOL
  }

  /** The blinks of a list of slots. */
  function BlinksOf(pool: seq<Node>, list: seq<int>): (r: seq<Blink>)
    requires InPool(pool, list)
    ensures |r| == |list| && forall i :: 0 <= i < |r| ==> r[i] == pool[list[i]].blink
  {
    seq(|list|, i requires 0 <= i < |list| => pool[list[i]].blink)
  }

  lemma ThreadedInPool(pool: seq<Node>, head: int, list: seq<int>)
    requires Threaded(pool, head, list)
    ensures InPool(pool, list)
  {
    forall i | 0 <= i < |list| ensures 0 <= list[i] < POOL {
      assert NodeOk(pool, list, i);
    }
  }

  lemma AgreeIsOk(pool: seq<Node>, head: int, list: seq<int>, screen: seq<byte>)
    requires Agree(pool, head, list) && |screen| == VIDEO_BYTES
    ensures InPool(pool, list) && StateOk(State(BlinksOf(pool, list), screen))
    ensures |list| == POOL <==> forall k :: 0 <= k < POOL ==> pool[k].blink.location != 0
  {
    ThreadedInPool(pool, head, list);
    ListFits(list, POOL);
    forall i | 0 <= i < |list| ensures 0 < pool[list[i]].blink.location < POOL {
      assert NodeOk(pool, list, i);
    }
    forall k | 0 <= k < POOL ensures k in list <==> pool[k].blink.location != 0 {
      if k in list {
        var i :| 0 <= i < |list| && list[i] == k;
        assert NodeOk(pool, list, i);
      }
    }
  }

  lemma FirstIs(list: seq<Blink>, location: int, at: int)
    requires 0 <= at < |list| && list[at].location == location
    requires forall i :: 0 <= i < at ==> list[i].location != location
    ensures FindFirst(list, location) == at
  {
  }

  /** A free slot linked in front of the list. */
  lemma AddThreaded(pool: seq<Node>, head: int, list: seq<int>, slot: int, b: Blink)
    requires Threaded(pool, head, list) && 0 <= slot < POOL && pool[slot].blink.location == 0 && 0 < b.location < POOL
    ensures Threaded(pool[slot := Node(b, head)], slot, [slot] + list) && slot !in list
  {
    var pool', list' := pool[slot := Node(b, head)], [slot] + list;
    forall i | 0 <= i < |list| ensures list[i] != slot {
      assert NodeOk(pool, list, i);
    }
    forall i | 0 <= i < |list'| ensures NodeOk(pool', list', i) {
      if i > 0 {
        assert NodeOk(pool, list, i - 1);
      }
    }
  }

  lemma AddCovered(pool: seq<Node>, list: seq<int>, slot: int, node: Node)
    requires Covered(pool, list) && 0 <= slot < POOL
    ensures Covered(pool[slot := node], [slot] + list)
  {
    assert ([slot] + list)[0] == slot;
  }

  lemma AddBlinks(pool: seq<Node>, list: seq<int>, slot: int, node: Node)
    requires InPool(pool, list) && 0 <= slot < POOL && slot !in list
    ensures var pool' := pool[slot := node];
            InPool(pool', [slot] + list) && BlinksOf(pool', [slot] + list) == [node.blink] + BlinksOf(pool, list)
  {
  }

  /** The pool with a started blink put into slot and linked in front of the old head. */
  function LinkedIn(pool: seq<Node>, head: int, slot: int, b: Blink): seq<Node> {
    if 0 <= slot < |pool| then pool[slot := Node(Started(b), head)] else pool
  }

  ghost predicate AgreesWithSome(pool: seq<Node>, head: int) {
    exists list :: Agree(pool, head, list)
  }

  /** With location 0, the marker of a free slot, no list agrees with the pool afterwards; with any other, one does. */
  lemma AddOfZeroBreaks(pool: seq<Node>, head: int, list: seq<int>, slot: int, b: Blink)
    requires Agree(pool, head, list) && 0 <= slot < POOL && pool[slot].blink.location == 0 && b.location < POOL
    ensures AgreesWithSome(pool[slot := Node(b, head)], slot) <==> b.location != 0
  {
    var pool' := pool[slot := Node(b, head)];
    if b.location != 0 {
      AddThreaded(pool, head, list, slot, b);
      AddCovered(pool, list, slot, Node(b, head));
      assert Agree(pool', slot, [slot] + list);
    }
    if AgreesWithSome(pool', slot) {
      var list' :| Agree(pool', slot, list');
      assert NodeOk(pool', list', 0);
    }
  }

  /** The list without the element at position at. */
  function Without(list: seq<int>, at: int): (r: seq<int>)
    requires 0 <= at < |list|
    ensures |r| == |list| - 1 && forall i :: 0 <= i < |r| ==> r[i] == list[if i < at then i else i + 1]
  {
    list[..at] + list[at + 1..]
  }

  /** Where the link to position at is stored: NULL stands for the list head. */
  function LinkTo(list: seq<int>, at: int): int
    requires 0 <= at <= |list|
  {
    if at == 0 then NULL else list[at - 1]
  }

  /** The pool with the node at position at unlinked and cleared. */
  function Unlinked(pool: seq<Node>, list: seq<int>, at: int): (r: seq<Node>)
    requires InPool(pool, list) && 0 <= at < |list|
    ensures |r| == POOL
  {
    var next, link := pool[list[at]].next, LinkTo(list, at);
    var relinked := if link == NULL then pool else pool[link := pool[link].(next := next)];
    relinked[list[at] := FREE_NODE]
  }

  lemma RemoveThreaded(pool: seq<Node>, head: int, list: seq<int>, at: int)
    requires Threaded(pool, head, list) && InPool(pool, list) && 0 <= at < |list|
    ensures Threaded(Unlinked(pool, list, at), if at == 0 then pool[list[0]].next else head, Without(list, at))
  {
    var pool', list' := Unlinked(pool, list, at), Without(list, at);
    assert NodeOk(pool, list, at);
    forall i | 0 <= i < |list'| ensures NodeOk(pool', list', i) {
      var j := if i < at then i else i + 1;
      assert NodeOk(pool, list, j) && list'[i] == list[j] != list[at];
      assert at > 0 && j != at - 1 ==> list[j] != list[at - 1];
      assert SlotAt(list', i + 1) == SlotAt(list, if i + 1 < at then i + 1 else i + 2);
    }
  }

  lemma RemoveCovered(pool: seq<Node>, list: seq<int>, at: int)
    requires Covered(pool, list) && InPool(pool, list) && 0 <= at < |list|
    ensures Covered(Unlinked(pool, list, at), Without(list, at))
  {
    var pool', list' := Unlinked(pool, list, at), Without(list, at);
    forall k | 0 <= k < POOL && pool'[k].blink.location != 0 ensures k in list' {
      assert k != list[at] && pool[k].blink.location != 0;
      var i :| 0 <= i < |list| && list[i] == k;
      assert list'[if i < at then i else i - 1] == k;
    }
  }

  lemma RemoveBlinks(pool: seq<Node>, head: int, list: seq<int>, at: int)
    requires Threaded(pool, head, list) && InPool(pool, list) && 0 <= at < |list|
    ensures InPool(Unlinked(pool, list, at), Without(list, at))
    ensures var blinks := BlinksOf(pool, list);
            BlinksOf(Unlinked(pool, list, at), Without(list, at)) == blinks[..at] + blinks[at + 1..]
  {
  }

  /** A node's blink changed without changing its location. */
  lemma UpdateAgrees(pool: seq<Node>, head: int, list: seq<int>, at: int, b: Blink)
    requires Agree(pool, head, list) && InPool(pool, list) && 0 <= at < |list|
    requires b.location == pool[list[at]].blink.location
    ensures var pool' := pool[list[at] := pool[list[at]].(blink := b)];
            Agree(pool', head, list) && BlinksOf(pool', list) == BlinksOf(pool, list)[at := b]
  {
    var pool' := pool[list[at] := pool[list[at]].(blink := b)];
    forall i | 0 <= i < |list| ensures NodeOk(pool', list, i) {
      assert NodeOk(pool, list, i);
    }
  }

  // ---------------------------------------------------------------- fish.c and blink.S

  class BlinkList {
    const pool: array<Node>
    const vmem: array<byte>
    var head: int
    ghost var list: seq<int>

    ghost predicate Valid()
      reads this, pool
    {
      vmem.Length == VIDEO_BYTES && Agree(pool[..], head, list)
    }

    ghost function Contents(): (s: State)
      requires Valid()
      reads this, pool, vmem
      ensures StateOk(s)
    {
      AgreeIsOk(pool[..], head, list, vmem[..]);
      State(BlinksOf(pool[..], list), vmem[..])
    }

    /** main clears the pool; the list is empty. */
    constructor (vmem: array<byte>)
      requires vmem.Length == VIDEO_BYTES
      ensures Valid() && this.vmem == vmem && fresh(pool) && Contents() == State([], vmem[..])
    {
      pool := new Node[POOL](_ => FREE_NODE);
      this.vmem := vmem;
      head, list := NULL, [];
    }

    method Malloc() returns (r: int)
      requires pool.Length == POOL
      ensures r == NULL <==> forall k :: 0 <= k < POOL ==> pool[k].blink.location != 0
      ensures r != NULL ==> 0 <= r < POOL && pool[r].blink.location == 0
    {
      var i := 0;
      while i < POOL
        invariant 0 <= i <= POOL
        invariant forall k :: 0 <= k < i ==> pool[k].blink.location != 0
      {
        if pool[i].blink.location == 0 {
          return i;
        }
        i := i + 1;
      }
      return NULL;
    }

    /** mp1_find_helper: the slot of the newest blink at a location. */
    method FindHelper(location: u16) returns (r: int, ghost at: int)
      requires Valid()
      ensures InPool(pool[..], list) && at == FindFirst(BlinksOf(pool[..], list), location)
      ensures if at == -1 then r == NULL else 0 <= at < |list| && r == list[at] && 0 <= r < POOL
    {
      hide Covered;
      ThreadedInPool(pool[..], head, list);
      r, at := head, 0;
      while r != NULL
        invariant 0 <= at <= |list| && r == SlotAt(list, at)
        invariant forall i :: 0 <= i < at ==> pool[list[i]].blink.location != location
        decreases |list| - at
      {
        assert NodeOk(pool[..], list, at);
        if pool[r].blink.location == location {
          FirstIs(BlinksOf(pool[..], list), location, at);
          return;
        }
        r := pool[r].next;
        at := at + 1;
      }
      at := -1;
    }

    /** Location 0 is accepted like any other, and then no list agrees with the pool any more. */
    method Add(user: Blink) returns (r: int)
      requires Valid()
      modifies this, pool, vmem
      ensures r == (if user.location >= POOL || |old(Contents()).list| == POOL then -1 else 0)
      ensures r == -1 ==> Valid() && Contents() == old(Contents())
      ensures r == 0 ==> pool[..] == LinkedIn(old(pool[..]), old(head), head, user)
                         && vmem[..] == ShowChar(old(vmem[..]), user.location, user.onChar)
      ensures user.location != 0 ==> Valid() && (Contents(), r) == Blinks.Add(old(Contents()), user)
      ensures r == 0 && user.location == 0 ==> !AgreesWithSome(pool[..], head)
    {
      if user.location >= POOL {
        return -1;
      }
      AgreeIsOk(pool[..], head, list, vmem[..]);
      var temp := user.(status := 1, countdown := user.onLen);
      var slot := Malloc();
      if slot == NULL {
        return -1;
      }
      AddOfZeroBreaks(pool[..], head, list, slot, temp);
      hide Covered, Threaded, AgreesWithSome;
      if user.location != 0 {
        AddThreaded(pool[..], head, list, slot, temp);
        AddCovered(pool[..], list, slot, Node(temp, head));
        AddBlinks(pool[..], list, slot, Node(temp, head));
      }
      pool[slot] := Node(temp, head);
      head := slot;
      list := [slot] + list;
      vmem[2 * user.location] := user.onChar;
      return 0;
    }

    /** Unlinks the newest blink at a location; the predecessor search follows the links from the head. */
    method Remove(location: u16) returns (r: int)
      requires Valid()
      modifies this, pool
      ensures Valid() && (Contents(), r) == Blinks.Remove(old(Contents()), location)
    {
      hide Covered, Threaded;
      var slot, at := FindHelper(location);
      if slot == NULL {
        return -1;
      }
      RemoveAt(slot, at);
      return 0;
    }

    method RemoveAt(slot: int, ghost at: int)
      requires Valid() && InPool(pool[..], list) && 0 <= at < |list| && slot == list[at]
      modifies this, pool
      ensures Valid() && InPool(pool[..], list)
      ensures var was := old(BlinksOf(pool[..], list)); BlinksOf(pool[..], list) == was[..at] + was[at + 1..]
    {
      hide Covered, Threaded, Unlinked, Without;
      RemoveThreaded(pool[..], head, list, at);
      RemoveCovered(pool[..], list, at);
      RemoveBlinks(pool[..], head, list, at);
      Unlink(slot, at);
      list := Without(list, at);
    }

    /** Takes a node out of the chain and clears it; the ghost list is not yet changed. */
    method Unlink(slot: int, ghost at: int)
      requires Valid() && InPool(pool[..], list) && 0 <= at < |list| && slot == list[at]
      modifies this`head, pool
      ensures pool[..] == Unlinked(old(pool[..]), list, at)
      ensures head == if at == 0 then old(pool[slot].next) else old(head)
    {
      ghost var was := pool[..];
      var link := FindLink(slot, at);
      hide Covered, Threaded;
      var next := pool[slot].next;
      if link == NULL {
        head := next;
      } else {
        pool[link] := pool[link].(next := next);
      }
      pool[slot] := FREE_NODE;
      assert pool[..] == Unlinked(was, list, at);
    }

    /** The predecessor search of remove: the place whose link leads to slot, NULL being the head. */
    method FindLink(slot: int, ghost at: int) returns (link: int)
      requires Valid() && 0 <= at < |list| && slot == list[at]
      ensures link == LinkTo(list, at)
    {
      hide Covered;
      link := NULL;
      ghost var j := 0;
      assert NodeOk(pool[..], list, at);
      while (if link == NULL then head else pool[link].next) != slot
        invariant 0 <= j <= at && link == LinkTo(list, j)
        invariant if j == 0 then link == NULL else 0 <= link < POOL && pool[link].next == list[j]
        decreases at - j
      {
        assert NodeOk(pool[..], list, j);
        link := if link == NULL then head else pool[link].next;
        j := j + 1;
      }
    }

    method Sync(arg: int) returns (r: int)
      requires Valid() && 0 <= arg < TWO32
      modifies pool, vmem
      ensures Valid() && (Contents(), r) == Blinks.Sync(old(Contents()), arg / 0x1_0000, arg % 0x1_0000)
    {
      AgreeIsOk(pool[..], head, list, vmem[..]);
      hide Covered, Threaded;
      var src, i := FindHelper(arg / 0x1_0000);
      if src == NULL {
        return -1;
      }
      var dst, j := FindHelper(arg % 0x1_0000);
      if dst == NULL {
        return -1;
      }
      var a, b := pool[src].blink, pool[dst].blink;
      var copied := b.(onLen := a.onLen, offLen := a.offLen, countdown := a.countdown, status := a.status);
      UpdateAgrees(pool[..], head, list, j, copied);
      pool[dst] := pool[dst].(blink := copied);
      vmem[2 * b.location] := b.offChar;
      return 0;
    }

    /** mp1_ioctl_find copies the newest blink at a location out and changes nothing. */
    method Find(location: u16) returns (r: int, found: Blink)
      requires Valid()
      ensures var at := FindFirst(Contents().list, location);
              if at == -1 then r == -1 else r == 0 && found == Contents().list[at]
    {
      var slot, at := FindHelper(location);
      if slot == NULL {
        return -1, Blink(location, 0, 0, 0, 0, 0, 0);
      }
      return 0, pool[slot].blink;
    }

    /** mp1_rtc_tasklet: one pass over the list. */
    method Tasklet()
      requires Valid()
      modifies pool, vmem
      ensures Valid() && Contents() == Blinks.Tick(old(Contents()))
    {
      ghost var was := Contents();
      ghost var at := 0;
      hide Covered, Threaded;
      var ebx := head;
      EndOfList(pool[..], head, list, 0);
      while ebx != NULL
        invariant 0 <= at <= |list| && ebx == SlotAt(list, at) && Valid()
        invariant forall i :: 0 <= i < |list| ==>
                    Contents().list[i] == if i < at then Ticked(was.list[i]) else was.list[i]
        invariant vmem[..] == ScreenAfter(was, at)
        decreases |list| - at
      {
        ebx := TickNode(ebx, at);
        at := at + 1;
      }
      EndOfList(pool[..], head, list, at);
      assert Contents().list == Blinks.Tick(was).list;
    }

    /** The body of the tasklet loop for one node; the result is its link. */
    method TickNode(ebx: int, ghost at: int) returns (next: int)
      requires Valid() && 0 <= at < |list| && ebx == list[at]
      modifies pool, vmem
      ensures Valid() && next == SlotAt(list, at + 1)
      ensures Contents().list == old(Contents().list)[at := Ticked(old(Contents().list[at]))]
      ensures vmem[..] == TickedScreen(old(vmem[..]), old(Contents().list[at]))
    {
      assert NodeOk(pool[..], list, at);
      AgreeIsOk(pool[..], head, list, vmem[..]);
      hide Covered, Threaded;
      var b := pool[ebx].blink;
      b := b.(countdown := Dec16(b.countdown));
      if Signed16(b.countdown) <= 0 {
        if b.status % 2 == 1 {
          vmem[2 * b.location] := b.offChar;
          b := b.(countdown := b.offLen);
        } else {
          vmem[2 * b.location] := b.onChar;
          b := b.(countdown := b.onLen);
        }
        b := b.(status := Toggled(b.status));
      }
      UpdateAgrees(pool[..], head, list, at, b);
      pool[ebx] := pool[ebx].(blink := b);
      return pool[ebx].next;
    }
  }

  method Perform(fish: BlinkList, op: Op)
    requires fish.Valid() && OpOk(op)
    modifies fish, fish.pool, fish.vmem
    ensures fish.Valid() && fish.Contents() == Step(old(fish.Contents()), op)
  {
    hide Agree;
    match op {
      case AddOp(b) => var _ := fish.Add(b);
      case RemoveOp(location) => var _ := fish.Remove(location);
      case FindOp(location) => var _, _ := fish.Find(location);
      case SyncOp(src, dst) => var _ := fish.Sync(src * 0x1_0000 + dst);
      case TickOp => fish.Tasklet();
    }
  }

  /**
   Every run of adds with non-zero locations, removes, finds, syncs and ticks on the pool is that
   run on the list, with list and pool in agreement throughout.
   */
  method PerformAll(fish: BlinkList, ops: seq<Op>)
    requires fish.Valid() && forall i :: 0 <= i < |ops| ==> OpOk(ops[i])
    modifies fish, fish.pool, fish.vmem
    ensures fish.Valid() && fish.Contents() == Run(old(fish.Contents()), ops)
  {
    hide Agree;
    ghost var first := fish.Contents();
    var i := 0;
    while i < |ops|
      invariant 0 <= i <= |ops| && fish.Valid()
      invariant Run(fish.Contents(), ops[i..]) == Run(first, ops)
    {
      assert ops[i..][1..] == ops[i + 1..];
      Perform(fish, ops[i]);
      i := i + 1;
    }
  }

  /** A traversal is at NULL exactly behind the last element. */
  lemma EndOfList(pool: seq<Node>, head: int, list: seq<int>, at: int)
    requires Threaded(pool, head, list) && 0 <= at <= |list|
    ensures head == SlotAt(list, 0) && (SlotAt(list, at) == NULL <==> at == |list|)
  {
    if at < |list| {
      assert NodeOk(pool, list, at);
    }
  }
}
