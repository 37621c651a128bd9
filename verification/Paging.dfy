/**
 Page directory, page tables and the remap routines of paging.c, read through the two-level
 translation of 32-bit paging (section 4.3 of the Intel 64 and IA-32 Architectures Software
 Developer's Manual, Volume 3A).
 */
module Paging {
  import opened Bytes

  const ENTRIES := 1024
  const KB4 := 0x1000
  const MB4 := 0x40_0000
  const MB8 := 0x80_0000
  const MB100 := 0x640_0000
  const MB128 := 0x800_0000
  const MB136 := 0x880_0000
  const VIDEO := 0xB8000
  const VM_START := 0x0B8

  const PAGE_4MB := 0x87
  const PRESENT_ENTRY := 7

  /** The four tables and the addresses the kernel was linked to put them at. */
  datatype Tables = Tables(dir: seq<int>, low: seq<int>, user: seq<int>, video: seq<int>,
                           lowAt: int, userAt: int, videoAt: int)

  ghost predicate TablesOk(t: Tables) {
    && |t.dir| == ENTRIES && |t.low| == ENTRIES && |t.user| == ENTRIES && |t.video| == ENTRIES
    && LinkedOk(t.lowAt, t.userAt, t.videoAt)
  }

  ghost predicate LinkedOk(lowAt: int, userAt: int, videoAt: int) {
    && lowAt % KB4 == 0 && userAt % KB4 == 0 && videoAt % KB4 == 0
    && 0 <= lowAt < TWO32 && 0 <= userAt < TWO32 && 0 <= videoAt < TWO32
    && lowAt != userAt && lowAt != videoAt && userAt != videoAt
  }

  /** `addr | flags` for an address with free low bits; see OrIsSum. */
  function Entry(addr: int, flags: int): (e: int)
    requires addr % KB4 == 0 && 0 <= flags < KB4
    ensures e % KB4 == flags && e / KB4 * KB4 == addr
  {
    assert addr / KB4 * KB4 == addr;
    addr + flags
  }

  lemma OrIsSum(addr: bv32, flags: bv32)
    requires addr & 0xFFF == 0 && flags <= 0xFFF
    ensures addr | flags == addr + flags
  {
  }

  // ---------------------------------------------------------------- translation

  datatype Mapping = Unmapped | Mapped(addr: int)

  function TableAt(t: Tables, base: int): seq<int> {
    if base == t.lowAt then t.low else if base == t.userAt then t.user else if base == t.videoAt then t.video else []
  }

  function Translate(t: Tables, va: int): Mapping
    requires |t.dir| == ENTRIES && 0 <= va < TWO32
  {
    var pde := t.dir[va / MB4];
    if pde % 2 == 0 then Unmapped
    else if pde / 0x80 % 2 == 1 then Mapped(pde / MB4 * MB4 + va % MB4)
    else
      var table := TableAt(t, pde / KB4 * KB4);
      var i := va / KB4 % ENTRIES;
      if i >= |table| || table[i] % 2 == 0 then Unmapped else Mapped(table[i] / KB4 * KB4 + va % KB4)
  }

  ghost predicate MapsPage(t: Tables, va: int, pa: int)
    requires |t.dir| == ENTRIES && 0 <= va && va + KB4 <= TWO32
  {
    forall a :: va <= a < va + KB4 ==> Translate(t, a) == Mapped(pa + (a - va))
  }

  ghost predicate MapsLargePage(t: Tables, va: int, pa: int)
    requires |t.dir| == ENTRIES && 0 <= va && va + MB4 <= TWO32
  {
    forall a :: va <= a < va + MB4 ==> Translate(t, a) == Mapped(pa + (a - va))
  }

  /** The present bit and the page-size bit of an entry are those of its flags. */
  lemma EntryBits(addr: int, flags: int)
    requires addr % KB4 == 0 && 0 <= flags < KB4
    ensures Entry(addr, flags) % 2 == flags % 2 && Entry(addr, flags) / 0x80 % 2 == flags / 0x80 % 2
  {
    var k, q, r := addr / 0x1000, flags / 0x80, flags % 0x80;
    Quotient(2, 0x800 * k + flags / 2, flags % 2, addr + flags);
    Quotient(0x80, 32 * k + q, r, addr + flags);
    Quotient(2, 16 * k + q / 2, q % 2, 32 * k + q);
  }

  lemma Quotient(d: int, q: int, r: int, n: int)
    requires d == 2 || d == 0x80
    requires 0 <= r < d && n == d * q + r
    ensures n / d == q && n % d == r
  {
  }

  lemma SamePage(va: int, a: int)
    requires va % KB4 == 0 && va <= a < va + KB4
    ensures a / MB4 == va / MB4 && a / KB4 == va / KB4 && a % KB4 == a - va
  {
  }

  lemma LargeQuotient(base: int, off: int, a: int)
    requires base % MB4 == 0 && 0 <= off < MB4 && a == base + off
    ensures a / MB4 == base / MB4 && a / MB4 * MB4 == base && a % MB4 == off
  {
  }

  lemma LargePageMapped(t: Tables, va: int, pa: int, flags: int)
    requires |t.dir| == ENTRIES && 0 <= va && va + MB4 <= TWO32 && va % MB4 == 0 && pa % MB4 == 0
    requires 0 <= flags < KB4 && flags % 2 == 1 && flags / 0x80 % 2 == 1
    requires t.dir[va / MB4] == Entry(pa, flags)
    ensures MapsLargePage(t, va, pa)
  {
    EntryBits(pa, flags);
    LargeQuotient(pa, flags, pa + flags);
    forall a | va <= a < va + MB4 ensures Translate(t, a) == Mapped(pa + (a - va)) {
      LargeQuotient(va, a - va, a);
    }
  }

  lemma PageMapped(t: Tables, va: int, pa: int, base: int, flags: int, flags': int)
    requires |t.dir| == ENTRIES && 0 <= va && va + KB4 <= TWO32
    requires va % KB4 == 0 && pa % KB4 == 0 && base % KB4 == 0
    requires 0 <= flags < 0x80 && flags % 2 == 1 && 0 <= flags' < KB4 && flags' % 2 == 1
    requires t.dir[va / MB4] == Entry(base, flags) && |TableAt(t, base)| == ENTRIES
    requires TableAt(t, base)[va / KB4 % ENTRIES] == Entry(pa, flags')
    ensures MapsPage(t, va, pa)
  {
    EntryBits(base, flags);
    EntryBits(pa, flags');
    forall a | va <= a < va + KB4 ensures Translate(t, a) == Mapped(pa + (a - va)) {
      SamePage(va, a);
    }
  }

  // ---------------------------------------------------------------- remapping

  function WithLargePage(t: Tables, va: int, pa: int): Tables
    requires TablesOk(t) && 0 <= va < TWO32 && pa % KB4 == 0
  {
    t.(dir := t.dir[va / MB4 := Entry(pa, PAGE_4MB)])
  }

  function WithUserTable(t: Tables, va: int, pa: int, page: int): Tables
    requires TablesOk(t) && 0 <= va < TWO32 && pa % KB4 == 0 && 0 <= page < ENTRIES
  {
    t.(dir := t.dir[va / MB4 := Entry(t.userAt, PRESENT_ENTRY)], user := t.user[page := Entry(pa, PRESENT_ENTRY)])
  }

  function WithWindow(t: Tables, va: int, pa: int): Tables
    requires TablesOk(t) && 0 <= va < TWO32 && pa % KB4 == 0
  {
    WithUserTable(t, va, pa, 0)
  }

  function WithVideoTable(t: Tables, va: int, pa: int): Tables
    requires TablesOk(t) && 0 <= va < TWO32 && pa % KB4 == 0
  {
    t.(dir := t.dir[va / MB4 := Entry(t.videoAt, PRESENT_ENTRY)], video := t.video[0 := Entry(pa, PRESENT_ENTRY)])
  }

  function Frame(pid: int): (pa: int)
    ensures pa % MB4 == 0 && pa % KB4 == 0
  {
    assert MB8 + pid * MB4 == (2 + pid) * MB4 == (2 + pid) * 1024 * KB4;
    MB8 + pid * MB4
  }

  function BackingPage(t: int): (pa: int)
    ensures pa % KB4 == 0
  {
    assert MB100 + (t + 1) * KB4 == (25601 + t) * KB4;
    MB100 + (t + 1) * KB4
  }

  // ---------------------------------------------------------------- what every remap keeps

  /** The entries behind the fixed part of the address map. */
  ghost predicate FixedEntries(t: Tables) {
    && TablesOk(t)
    && t.dir[0] == Entry(t.lowAt, 3) && t.low[VM_START] == Entry(VIDEO, 3)
    && t.dir[1] == 0x0040_0083
    && t.dir[25] == Entry(t.userAt, PRESENT_ENTRY)
    && forall i :: 0 <= i < 3 ==> t.user[i + 1] == Entry(BackingPage(i), PRESENT_ENTRY)
  }

  /** The kernel page, the video page and the three backing pages are identity mapped. */
  lemma FixedPartIsIdentity(t: Tables)
    requires FixedEntries(t)
    ensures MapsLargePage(t, MB4, MB4)
    ensures MapsPage(t, VIDEO, VIDEO)
    ensures forall i :: 0 <= i < 3 ==> MapsPage(t, BackingPage(i), BackingPage(i))
  {
    assert t.dir[1] == Entry(MB4, 0x83);
    LargePageMapped(t, MB4, MB4, 0x83);
    PageMapped(t, VIDEO, VIDEO, t.lowAt, 3, 3);
    forall i | 0 <= i < 3 ensures MapsPage(t, BackingPage(i), BackingPage(i)) {
      PageMapped(t, BackingPage(i), BackingPage(i), t.userAt, PRESENT_ENTRY, PRESENT_ENTRY);
    }
  }

  /** Frames of different processes share no address. */
  lemma FramesDisjoint(p: int, q: int, a: int, b: int)
    requires p != q && 0 <= a < MB4 && 0 <= b < MB4
    ensures Frame(p) + a != Frame(q) + b
  {
  }

  /** The frames begin where the kernel's page ends and leave no gap: each address up to 32MB is in exactly one. */
  lemma FramesTile(a: int)
    requires MB8 <= a < MB8 + 6 * MB4
    ensures exists p :: 0 <= p < 6 && Frame(p) <= a < Frame(p) + MB4
    ensures !(MB4 <= a < MB8)
  {
    var p := (a - MB8) / MB4;
    assert 0 <= p < 6 && Frame(p) <= a < Frame(p) + MB4;
  }

  /** The screens lie apart from each other, from the kernel and from the frames of all processes. */
  lemma ScreensDisjoint(t: int, a: int)
    requires 0 <= t && BackingPage(t) <= a < BackingPage(t) + KB4
    ensures forall u :: u != t ==> !(BackingPage(u) <= a < BackingPage(u) + KB4)
    ensures !(VIDEO <= a < VIDEO + KB4) && !(MB4 <= a < MB8)
    ensures forall p :: 0 <= p < 6 ==> !(Frame(p) <= a < Frame(p) + MB4)
  {
  }

  /** An address maps to one page only. */
  lemma MapsOnce(t: Tables, va: int, pa: int, pb: int)
    requires TablesOk(t) && 0 <= va && va + KB4 <= TWO32 && MapsPage(t, va, pa) && MapsPage(t, va, pb)
    ensures pa == pb
  {
    assert Translate(t, va + 0) == Translate(t, va);
  }

  ghost predicate UserPageIs(t: Tables, pid: int)
    requires TablesOk(t)
  {
    t.dir[32] == Entry(Frame(pid), PAGE_4MB)
  }

  lemma UserPageMapped(t: Tables, pid: int)
    requires TablesOk(t) && UserPageIs(t, pid)
    ensures MapsLargePage(t, MB128, Frame(pid))
  {
    LargePageMapped(t, MB128, Frame(pid), PAGE_4MB);
  }

  /** 136MB as vidmap sets it up, and then as the scheduler redirects a hidden terminal. */
  function VideoWindow(t: Tables, hidden: bool, term: int): Tables
    requires TablesOk(t)
  {
    var mapped := WithWindow(t, MB136, VIDEO);
    if hidden then WithVideoTable(mapped, MB136, BackingPage(term)) else mapped
  }

  lemma VideoWindowMapped(t: Tables, hidden: bool, term: int)
    requires FixedEntries(t) && 0 <= term < 3
    ensures FixedEntries(VideoWindow(t, hidden, term))
    ensures VideoWindow(t, hidden, term).dir[32] == t.dir[32]
    ensures MapsPage(VideoWindow(t, hidden, term), MB136, if hidden then BackingPage(term) else VIDEO)
  {
    var t' := VideoWindow(t, hidden, term);
    if hidden {
      PageMapped(t', MB136, BackingPage(term), t.videoAt, PRESENT_ENTRY, PRESENT_ENTRY);
    } else {
      PageMapped(t', MB136, VIDEO, t.userAt, PRESENT_ENTRY, PRESENT_ENTRY);
    }
  }

  // ---------------------------------------------------------------- what user programs can reach

  /** The read/write and the user bit of an entry. */
  predicate OpenToUsers(e: int) {
    e / 2 % 2 == 1 && e / 4 % 2 == 1
  }

  /** A program may read and write at va: the entries of both levels are open, or the one of a large page. */
  predicate UserReaches(t: Tables, va: int)
    requires |t.dir| == ENTRIES && 0 <= va < TWO32
  {
    var pde := t.dir[va / MB4];
    var table, i := TableAt(t, pde / KB4 * KB4), va / KB4 % ENTRIES;
    OpenToUsers(pde) && (pde / 0x80 % 2 == 1 || (i < |table| && OpenToUsers(table[i])))
  }

  lemma AccessBits(addr: int, flags: int)
    requires addr % KB4 == 0 && 0 <= flags < KB4
    ensures OpenToUsers(Entry(addr, flags)) <==> OpenToUsers(flags)
  {
    var k := addr / 0x1000;
    DivModUnique(addr + flags, 2, 0x800 * k + flags / 2, flags % 2);
    DivModUnique(0x800 * k + flags / 2, 2, 0x400 * k + flags / 2 / 2, flags / 2 % 2);
    DivModUnique(addr + flags, 4, 0x400 * k + flags / 4, flags % 4);
    DivModUnique(0x400 * k + flags / 4, 2, 0x200 * k + flags / 4 / 2, flags / 4 % 2);
  }

  /** Programs reach all of their own page and the kernel's page nowhere. */
  lemma UsersReachTheirPage(t: Tables, pid: int, a: int)
    requires FixedEntries(t) && UserPageIs(t, pid)
    ensures MB128 <= a < MB128 + MB4 ==> UserReaches(t, a)
    ensures MB4 <= a < MB8 || VIDEO <= a < VIDEO + KB4 ==> !UserReaches(t, a)
  {
    AccessBits(Frame(pid), PAGE_4MB);
    EntryBits(Frame(pid), PAGE_4MB);
    AccessBits(MB4, 0x83);
    AccessBits(t.lowAt, 3);
    assert t.dir[1] == Entry(MB4, 0x83);
  }

  /** And the page at 136MB, whether their terminal is displayed or not. */
  lemma UsersReachTheirScreen(t: Tables, hidden: bool, term: int, a: int)
    requires FixedEntries(t) && 0 <= term < 3 && MB136 <= a < MB136 + KB4
    ensures UserReaches(VideoWindow(t, hidden, term), a)
  {
    var t', base := VideoWindow(t, hidden, term), if hidden then t.videoAt else t.userAt;
    SamePage(MB136, a);
    EntryBits(base, PRESENT_ENTRY);
    AccessBits(base, PRESENT_ENTRY);
    AccessBits(if hidden then BackingPage(term) else VIDEO, PRESENT_ENTRY);
  }

  lemma PageRemapKeeps(t: Tables, pid: int)
    requires FixedEntries(t)
    ensures var t' := WithLargePage(t, MB128, Frame(pid)); FixedEntries(t') && UserPageIs(t', pid)
  {
  }

  // ---------------------------------------------------------------- paging.c

  class PageTables {
    const directory: array<int>
    const table: array<int>
    const userTable: array<int>
    const videoTable: array<int>
    const lowAt: int
    const userAt: int
    const videoAt: int

    ghost predicate Valid()
      reads this, directory, table, userTable, videoTable
    {
      && directory != table && directory != userTable && directory != videoTable
      && table != userTable && table != videoTable && userTable != videoTable
      && TablesOk(State())
    }

    ghost function State(): Tables
      reads this, directory, table, userTable, videoTable
    {
      Tables(directory[..], table[..], userTable[..], videoTable[..], lowAt, userAt, videoAt)
    }

    /** The arrays at boot, before paging_init; lowAt, userAt and videoAt are set by the linker. */
    constructor (lowAt: int, userAt: int, videoAt: int)
      requires LinkedOk(lowAt, userAt, videoAt)
      ensures Valid() && fresh(directory) && fresh(table) && fresh(userTable) && fresh(videoTable)
    {
      this.lowAt, this.userAt, this.videoAt := lowAt, userAt, videoAt;
      directory := new int[ENTRIES];
      table := new int[ENTRIES];
      userTable := new int[ENTRIES];
      videoTable := new int[ENTRIES];
    }

    /** paging_init: afterwards only low video memory and the kernel page are present. */
    method PagingInit()
      requires Valid()
      modifies directory, table
      ensures Valid()
      ensures directory[0] == Entry(lowAt, 3) && directory[1] == 0x0040_0083
      ensures forall i :: 2 <= i < ENTRIES ==> directory[i] == 2
      ensures forall i :: 0 <= i < ENTRIES ==>
                table[i] == Entry(i * KB4, if VM_START <= i <= VM_START + 3 then 3 else 2)
    {
      var i := 0;
      while i < ENTRIES
        invariant 0 <= i <= ENTRIES
        invariant forall k :: 0 <= k < i ==> directory[k] == 2
      {
        directory[i] := 0x0000_0002;
        i := i + 1;
      }
      i := 0;
      while i < ENTRIES
        invariant 0 <= i <= ENTRIES
        invariant forall k :: 0 <= k < i ==>
                    table[k] == Entry(k * KB4, if VM_START <= k <= VM_START + 3 then 3 else 2)
        invariant forall k :: 0 <= k < ENTRIES ==> directory[k] == 2
      {
        if i >= VM_START && i <= VM_START + 3 {
          table[i] := Entry(i * KB4, 3);
        } else {
          table[i] := Entry(i * KB4, 2);
        }
        i := i + 1;
      }
      directory[0] := Entry(lowAt, 3);
      directory[1] := 0x0040_0083;
    }

    method PageRemap(va: int, pa: int)
      requires Valid() && 0 <= va < TWO32 && pa % KB4 == 0
      modifies directory
      ensures Valid() && State() == WithLargePage(old(State()), va, pa)
    {
      directory[va / MB4] := Entry(pa, PAGE_4MB);
    }

    method TableRemap(va: int, pa: int)
      requires Valid() && 0 <= va < TWO32 && pa % KB4 == 0
      modifies directory, userTable
      ensures Valid() && State() == WithWindow(old(State()), va, pa)
    {
      directory[va / MB4] := Entry(userAt, PRESENT_ENTRY);
      userTable[0] := Entry(pa, PRESENT_ENTRY);
    }

    method VidmemRemap(va: int, pa: int)
      requires Valid() && 0 <= va < TWO32 && pa % KB4 == 0
      modifies directory, videoTable
      ensures Valid() && State() == WithVideoTable(old(State()), va, pa)
    {
      directory[va / MB4] := Entry(videoAt, PRESENT_ENTRY);
      videoTable[0] := Entry(pa, PRESENT_ENTRY);
    }

    method TableToPageMapping(va: int, pa: int, page: int)
      requires Valid() && 0 <= va < TWO32 && pa % KB4 == 0 && 0 <= page < ENTRIES
      modifies directory, userTable
      ensures Valid() && State() == WithUserTable(old(State()), va, pa, page)
    {
      directory[va / MB4] := Entry(userAt, PRESENT_ENTRY);
      userTable[page] := Entry(pa, PRESENT_ENTRY);
    }

    /** paging_init followed by the mapping loop of init_terminal. */
    method Boot()
      requires Valid()
      modifies directory, table, userTable
      ensures Valid() && FixedEntries(State())
    {
      PagingInit();
      var i := 0;
      while i < 3
        invariant 0 <= i <= 3 && Valid()
        invariant directory[0] == Entry(lowAt, 3) && directory[1] == 0x0040_0083 && table[VM_START] == Entry(VIDEO, 3)
        invariant i > 0 ==> directory[25] == Entry(userAt, PRESENT_ENTRY)
        invariant forall k :: 0 <= k < i ==> userTable[k + 1] == Entry(BackingPage(k), PRESENT_ENTRY)
      {
        TableToPageMapping(MB100, BackingPage(i), i + 1);
        i := i + 1;
      }
    }
  }
}
