/** The memory of a process just launched, from its executable alone: the pages of the segments are
    placed in order as long as pages can be had, and every page that is there holds its part of the
    image of the last segment that covers it.  The loader is proved to build exactly that, whether or
    not segments overlap and whether or not pages run out. */
module ProgramMemory {
  import opened Words
  import opened Containers
  import opened PageTables
  import opened Mapping
  import opened Fork
  import opened CowRefinement
  import opened UserCopy
  import opened PageDemand
  import opened CopyServed
  import opened ElfLoad
  import AllocTable

  // ----- The specification

  /** Page `x` of the image of a segment. */
  function ImagePage(file: seq<Byte>, h: ProgHeader, x: int): (pg: Page) {
    seq(1024, i => Pack(ImageByte(file, h, x * 4096 + 4 * i), ImageByte(file, h, x * 4096 + 4 * i + 1),
                        ImageByte(file, h, x * 4096 + 4 * i + 2), ImageByte(file, h, x * 4096 + 4 * i + 3)))
  }

  /** The memory so far, the pages that can still be had, and the directories that have a page table. */
  datatype Placement = Placement(mem: Private, left: int, have: set<int>)

  /** One page: placed if it can be had, written over if it is there already. */
  function PlacePage(m: Placement, file: seq<Byte>, h: ProgHeader, x: int): (r: Placement) {
    var cost := if x / 1024 in m.have then 1 else 2;
    var written := Put(m.mem, x, ImagePage(file, h, x));
    if m.left >= cost then Placement(written, m.left - cost, m.have + {x / 1024})
    else Placement(if x in m.mem then written else m.mem, 0, m.have)
  }

  function PlaceFrom(m: Placement, file: seq<Byte>, h: ProgHeader, x: int): (r: Placement)
    decreases EndPageOf(h) - x
  {
    if x >= EndPageOf(h) then m else PlaceFrom(PlacePage(m, file, h, x), file, h, x + 1)
  }

  function PlaceAll(m: Placement, file: seq<Byte>, hs: seq<ProgHeader>): (r: Placement)
    decreases |hs|
  {
    if hs == [] then m
    else PlaceAll(if hs[0].ptype == ELF_PROG_LOAD then PlaceFrom(m, file, hs[0], FirstPageOf(hs[0])) else m, file, hs[1..])
  }

  /** The memory of a new process that can get `pages` pages. */
  function LaunchMemory(pages: int, file: seq<Byte>, hs: seq<ProgHeader>): (mem: Private) {
    PlaceAll(Placement(map[], pages, {}), file, hs).mem
  }

  // ----- One page

  lemma ImagePageBytes(file: seq<Byte>, h: ProgHeader, x: int, o: nat)
    requires o < 4096
    ensures ByteAt(ImagePage(file, h, x), o) == ImageByte(file, h, x * 4096 + o)
  {
    hide ImageByte;
    var i := o / 4;
    PackBytes(ImageByte(file, h, x * 4096 + 4 * i), ImageByte(file, h, x * 4096 + 4 * i + 1),
              ImageByte(file, h, x * 4096 + 4 * i + 2), ImageByte(file, h, x * 4096 + 4 * i + 3));
    assert o == 4 * i + o % 4;
  }

  lemma HoldsImagePage(s: Vm, p: nat, x: int, file: seq<Byte>, h: ProgHeader)
    requires ImageBytes(s, p, x, file, h)
    ensures ViewAt(s, p, x) == Some(ImagePage(file, h, x))
  {
    hide ViewAt, ByteAt, ImageByte, ImagePage;
    assert (x * 4096) / 4096 == x;
    assert UByte(s, p, x * 4096) == Some(ImageByte(file, h, x * 4096));
    var pg := ViewAt(s, p, x).value;
    forall o | 0 <= o < 4096 ensures ByteAt(pg, o) == ByteAt(ImagePage(file, h, x), o) {
      ImagePageBytes(file, h, x, o);
      assert (x * 4096 + o) / 4096 == x && (x * 4096 + o) % 4096 == o;
      assert UByte(s, p, x * 4096 + o) == Some(ImageByte(file, h, x * 4096 + o));
    }
    SameBytesSamePage(pg, ImagePage(file, h, x));
  }

  /** The state has the memory, the pages and the tables of the placement; once no page can be had the
      tables no longer matter. */
  ghost predicate Tracks(s: Vm, p: nat, m: Placement)
    requires p < NUM_IDS
  {
    MemoryOf(s, p) == m.mem && Avail(s.pmm, p) == m.left && (m.left > 0 ==> TablesOf(s, p) == m.have)
  }

  lemma OnePagePut(s: Vm, s': Vm, p: nat, u: int, pg: Page)
    requires UserPage(u) && (forall x :: x != u ==> ViewAt(s', p, x) == ViewAt(s, p, x)) && ViewAt(s', p, u) == Some(pg)
    ensures MemoryOf(s', p) == Put(MemoryOf(s, p), u, pg)
  {
    hide ViewAt, MemoryOf;
    OneMemory(s, s', p, u);
  }

  lemma InMemory(s: Vm, p: nat, u: int)
    requires UserPage(u)
    ensures u in MemoryOf(s, p) <==> MappedAt(s, p, u)
  {
    ViewOfEntry(s, p, u);
    hide ViewAt, MappedAt;
  }

  lemma HereOnly(s: Vm, s': Vm, p: nat, u: int)
    requires OnlyHere(s, s', p, u)
    ensures forall x :: x != u ==> ViewAt(s', p, x) == ViewAt(s, p, x)
  {
    hide ViewAt, PermAt;
    forall x | x != u ensures ViewAt(s', p, x) == ViewAt(s, p, x) {
      assert SamePage(s, s', p, x);
    }
  }

  lemma PlaceServed(s: Vm, p: nat, exe: Word, file: seq<Byte>, h: ProgHeader, va: Word, off: nat, m: Placement)
    requires Inv(s) && 1 <= p < NUM_IDS && AtPage(exe, file, h, va, off) && Tracks(s, p, m)
    requires AllocPage(s, p, va, SegPerm(h)).1 != MAGIC
    ensures Tracks(LoadPage(s, p, exe, file, h, va, off), p, PlacePage(m, file, h, va / 4096))
  {
    hide Inv, AllocPage, LoadPage, AtPage, SegPerm, Avail, TablesOf, OnlyHere, ViewAt, PermAt, ImageBytes, ImagePage, MemoryOf;
    var u := va / 4096;
    var s' := LoadPage(s, p, exe, file, h, va, off);
    InvAvail(s, p);
    PageCases(exe, file, h, va, off);
    AllocCostAt(s, p, va, SegPerm(h));
    LoadPageHolds(s, p, exe, file, h, va, off);
    SamePmmAvail(AllocPage(s, p, va, SegPerm(h)).0, s', p);
    HoldsImagePage(s', p, u, file, h);
    HereOnly(s, s', p, u);
    OnePagePut(s, s', p, u, ImagePage(file, h, u));
  }

  lemma SamePmmAvail(s: Vm, s': Vm, p: nat)
    requires s'.pmm == s.pmm && s'.pdir == s.pdir && p < NUM_IDS
    ensures Avail(s'.pmm, p) == Avail(s.pmm, p) && TablesOf(s', p) == TablesOf(s, p)
  {
  }

  /** No page can be had, but the page is there: it is written over. */
  lemma PlaceOver(s: Vm, p: nat, exe: Word, file: seq<Byte>, h: ProgHeader, va: Word, off: nat, m: Placement)
    requires Inv(s) && 1 <= p < NUM_IDS && AtPage(exe, file, h, va, off) && Tracks(s, p, m) && AllOwn(s, p)
    requires AllocPage(s, p, va, SegPerm(h)).1 == MAGIC && MappedAt(s, p, va / 4096)
    ensures Tracks(LoadPage(s, p, exe, file, h, va, off), p, PlacePage(m, file, h, va / 4096))
  {
    hide Inv, AllocPage, LoadPage, AtPage, SegPerm, Avail, TablesOf, OnlyHere, ViewAt, PermAt, ImageBytes, ImagePage,
         MemoryOf, MappedAt, FillImage, OwnPage;
    var u := va / 4096;
    var s1 := AllocPage(s, p, va, SegPerm(h)).0;
    var s' := LoadPage(s, p, exe, file, h, va, off);
    InvAvail(s, p);
    PageCases(exe, file, h, va, off);
    AllocCostAt(s, p, va, SegPerm(h));
    FailedAllocSeen(s, p, va, SegPerm(h));
    AllocKeepsOwn(s, p, va, SegPerm(h));
    LoadPageIs(s, p, exe, file, h, va, off);
    FilledWithImage(s1, p, exe, file, h, va, off);
    SamePmmAvail(s1, s', p);
    HoldsImagePage(s', p, u, file, h);
    HereOnly(s1, s', p, u);
    OnePagePut(s, s', p, u, ImagePage(file, h, u));
    InMemory(s, p, u);
  }

  lemma FailedAllocSeen(s: Vm, p: nat, va: Word, perm: nat)
    requires Inv(s) && 1 <= p < NUM_IDS && UserPage(va / 4096) && perm < 4096 && Present(perm) && !Super(perm)
    requires AllocPage(s, p, va, perm).1 == MAGIC
    ensures var s1 := AllocPage(s, p, va, perm).0;
            Inv(s1) && (forall q, x :: ViewAt(s1, q, x) == ViewAt(s, q, x)) && (forall x :: MappedAt(s1, p, x) <==> MappedAt(s, p, x))
  {
    hide Inv, AllocPage, SameViews, SameViewsButCell, SameEntries, SameEntriesBut, Unshared, EntAt;
    var s1 := AllocPage(s, p, va, perm).0;
    ZeroFillAt(s, p, va, perm);
    SameViewsAt(s, s1);
    hide ViewAt;
    forall x ensures MappedAt(s1, p, x) <==> MappedAt(s, p, x) {
      ViewOfEntry(s, p, x);
      ViewOfEntry(s1, p, x);
    }
  }

  lemma SameViewsAt(s: Vm, s1: Vm)
    requires SameViews(s, s1)
    ensures forall q, x :: ViewAt(s1, q, x) == ViewAt(s, q, x)
  {
    forall q, x ensures ViewAt(s1, q, x) == ViewAt(s, q, x) {
      if 1 <= q < NUM_IDS && UserPage(x) {
        CellsOfPage(x);
      }
    }
  }

  /** No page can be had and the page is not there: nothing is placed. */
  lemma PlaceNothing(s: Vm, p: nat, exe: Word, file: seq<Byte>, h: ProgHeader, va: Word, off: nat, m: Placement)
    requires Inv(s) && 1 <= p < NUM_IDS && AtPage(exe, file, h, va, off) && Tracks(s, p, m)
    requires AllocPage(s, p, va, SegPerm(h)).1 == MAGIC && !MappedAt(s, p, va / 4096)
    ensures Tracks(LoadPage(s, p, exe, file, h, va, off), p, PlacePage(m, file, h, va / 4096))
  {
    hide Inv, AllocPage, LoadPage, AtPage, SegPerm, Avail, TablesOf, ViewAt, ImagePage, MemoryOf, MappedAt, FillImage;
    var u := va / 4096;
    var s1 := AllocPage(s, p, va, SegPerm(h)).0;
    var s' := LoadPage(s, p, exe, file, h, va, off);
    InvAvail(s, p);
    PageCases(exe, file, h, va, off);
    AllocCostAt(s, p, va, SegPerm(h));
    FailedAllocSeen(s, p, va, SegPerm(h));
    LoadPageIs(s, p, exe, file, h, va, off);
    StarvedFill(s1, p, exe, file, h, va, off);
    assert SameAt(s, s', p);
    SameMemory(s, s', p);
    InMemory(s, p, u);
  }

  lemma StarvedFill(s: Vm, p: nat, exe: Word, file: seq<Byte>, h: ProgHeader, va: Word, off: nat)
    requires Inv(s) && 1 <= p < NUM_IDS && AtPage(exe, file, h, va, off) && Avail(s.pmm, p) == 0 && !MappedAt(s, p, va / 4096)
    ensures var s' := FillImage(s, p, file, h, va, off);
            Inv(s') && Avail(s'.pmm, p) == 0 && forall x :: ViewAt(s', p, x) == ViewAt(s, p, x)
  {
    hide Inv, CopyLoop, Avail, ViewAt, FileBytes, AtPage, MappedAt;
    var zva := h.va + h.filesz;
    PageCases(exe, file, h, va, off);
    var s2 := Memset(s, p, va, 0, 4096);
    StarvedPage(s, p, va, seq<Byte>(4096, _ => 0));
    if !(zva <= va || h.filesz == 0) {
      if va + 4096 <= zva {
        StarvedPage(s, p, va, FileBytes(file, off, 4096));
      } else {
        StarvedPage(s2, p, va, FileBytes(file, off, zva - va));
      }
    }
  }

  lemma StarvedPage(s: Vm, p: nat, va: Word, bs: seq<Byte>)
    requires Inv(s) && 1 <= p < NUM_IDS && va % 4096 == 0 && UserPage(va / 4096) && 0 < |bs| <= 4096
    requires Avail(s.pmm, p) == 0 && !MappedAt(s, p, va / 4096)
    ensures var s' := CopyLoop(s, p, va, bs);
            Inv(s') && Avail(s'.pmm, p) == 0 && !MappedAt(s', p, va / 4096) && forall x :: ViewAt(s', p, x) == ViewAt(s, p, x)
  {
    hide Inv, CopyLoop, Avail, ViewAt, MappedAt;
    forall x ensures InPages(va, |bs|, x) <==> x == va / 4096 {
      ChunkPages(va, |bs|, x);
    }
    assert va + |bs| <= VM_USERHI;
    StarvedCopy(s, p, va, bs);
  }

  lemma PlaceStep(s: Vm, p: nat, exe: Word, file: seq<Byte>, h: ProgHeader, va: Word, off: nat, m: Placement)
    requires Inv(s) && 1 <= p < NUM_IDS && AtPage(exe, file, h, va, off) && Tracks(s, p, m) && AllOwn(s, p)
    ensures Tracks(LoadPage(s, p, exe, file, h, va, off), p, PlacePage(m, file, h, va / 4096))
  {
    hide Inv, Tracks, AllocPage, LoadPage, AtPage, SegPerm, AllOwn, MappedAt, PlacePage;
    if AllocPage(s, p, va, SegPerm(h)).1 != MAGIC {
      PlaceServed(s, p, exe, file, h, va, off, m);
    } else if MappedAt(s, p, va / 4096) {
      PlaceOver(s, p, exe, file, h, va, off, m);
    } else {
      PlaceNothing(s, p, exe, file, h, va, off, m);
    }
  }

  // ----- The loops

  lemma {:induction false} LoadPagesPlace(s: Vm, p: nat, exe: Word, file: seq<Byte>, h: ProgHeader, va: Word, off: nat, m: Placement)
    requires Inv(s) && 1 <= p < NUM_IDS && InLoop(exe, file, h, va, off) && Tracks(s, p, m) && AllOwn(s, p)
    ensures Tracks(LoadPages(s, p, exe, file, h, va, off), p, PlaceFrom(m, file, h, va / 4096))
    decreases 0x1_0000_0000 - va
  {
    hide Inv, Tracks, LoadPage, AllOwn, InLoop, AtPage, RoundUp, EndPageOf, PlacePage;
    LoopBounds(exe, file, h, va, off);
    var u := va / 4096;
    if u < EndPageOf(h) {
      var s1 := LoadPage(s, p, exe, file, h, va, off);
      PlaceStep(s, p, exe, file, h, va, off, m);
      LoadPageKeeps(s, p, exe, file, h, va, off);
      LoadPagesPlace(s1, p, exe, file, h, va + 4096, off + 4096, PlacePage(m, file, h, u));
      assert (va + 4096) / 4096 == u + 1;
    }
  }

  /** The loader builds the memory of the specification, in a process that shares no page. */
  lemma {:induction false} LoadPlaces(s: Vm, p: nat, exe: Word, file: seq<Byte>, hs: seq<ProgHeader>, m: Placement)
    requires Inv(s) && 1 <= p < NUM_IDS && Tracks(s, p, m) && AllOwn(s, p)
    requires forall k :: 0 <= k < |hs| && hs[k].ptype == ELF_PROG_LOAD ==> SegmentOk(exe, file, hs[k])
    ensures Tracks(Load(s, p, exe, file, hs), p, PlaceAll(m, file, hs))
    decreases |hs|
  {
    hide Inv, Tracks, AllOwn, LoadPages, SegmentOk, InLoop, PlaceFrom;
    if hs != [] {
      var h := hs[0];
      if h.ptype == ELF_PROG_LOAD {
        LoopStarts(exe, file, h);
        LoadPagesPlace(s, p, exe, file, h, RoundDown(h.va), RoundDown(h.offset), m);
        LoadPagesKeep(s, p, exe, file, h, RoundDown(h.va), RoundDown(h.offset));
        LoadPlaces(LoadSegment(s, p, exe, file, h), p, exe, file, hs[1..], PlaceFrom(m, file, h, FirstPageOf(h)));
      } else {
        LoadPlaces(s, p, exe, file, hs[1..], m);
      }
    }
  }

  /** A new process gets exactly the memory its executable, its quota and the free pages determine, and no
      other process sees a difference; for every program whose segments lie in the user range. */
  lemma LaunchExact(s: Vm, p: nat, quota: Word, exe: Word, file: seq<Byte>, hs: seq<ProgHeader>)
    requires Inv(s) && KctxNew(s.pmm, p, quota).1 != NUM_IDS
    requires forall k :: 0 <= k < |hs| && hs[k].ptype == ELF_PROG_LOAD ==> SegmentOk(exe, file, hs[k])
    ensures var (m, child) := KctxNew(s.pmm, p, quota);
            1 <= child < NUM_IDS
            && var s' := Load(s.(pmm := m), child, exe, file, hs);
               Inv(s') && MemoryOf(s', child) == LaunchMemory(Pages(s, quota), file, hs)
               && forall q, x :: q != child ==> ViewAt(s', q, x) == ViewAt(s, q, x)
  {
    hide Inv, KctxNew, ViewAt, Load, SegmentOk, Tracks, PlaceAll, MemoryOf, Avail, TablesOf, AllOwn;
    var (m, child) := KctxNew(s.pmm, p, quota);
    var s1 := s.(pmm := m);
    NewProcess(s, p, quota);
    EmptyIsOwn(s1, child);
    StartsEmpty(s, s1, child, quota);
    LoadPlaces(s1, child, exe, file, hs, Placement(map[], Pages(s, quota), {}));
    TracksMemory(Load(s1, child, exe, file, hs), child, PlaceAll(Placement(map[], Pages(s, quota), {}), file, hs));
    CreateThenLoadKeeps(s, p, quota, exe, file, hs);
  }

  /** What a new process with that quota can get: no more than is free. */
  ghost function Pages(s: Vm, quota: Word): (n: int) {
    if quota < |AllocTable.FreePages(s.pmm.at)| then quota else |AllocTable.FreePages(s.pmm.at)|
  }

  lemma TracksMemory(s: Vm, p: nat, m: Placement)
    requires p < NUM_IDS && Tracks(s, p, m)
    ensures MemoryOf(s, p) == m.mem
  {
  }

  lemma StartsEmpty(s: Vm, s1: Vm, child: nat, quota: Word)
    requires child < NUM_IDS && s1.pmm.at == s.pmm.at && Slack(s1.pmm.cont[child]) == quota && TablesOf(s1, child) == {}
    requires forall x :: ViewAt(s1, child, x) == None
    ensures Tracks(s1, child, Placement(map[], Pages(s, quota), {}))
  {
    hide ViewAt;
    assert MemoryOf(s1, child) == map[];
  }
}
