/** Consecutive pages mapped into a process (`alloc_consecutive_page` as `mmap` calls it): where the
    lowest free page starts a block of free pages, the call fills pages with zeros, one after another,
    and keeps every invariant. */
module BlockMapping {
  import opened Words
  import opened AllocTable
  import opened Containers
  import opened PageTables
  import opened Mapping
  import opened Fork
  import opened CowRefinement
  import opened PageDemand
  import Ledger

  // ----- The allocator's part

  lemma BlockFreePages(t: Table, r: nat, n: nat)
    requires FreeBlock(t, r, n)
    ensures var t' := MarkRange(t, r, r + n, 1);
            |FreePages(t')| == |FreePages(t)| - n
            && (forall i :: IsTaken(t', i) <==> IsTaken(t, i) || r <= i < r + n)
            && (forall i :: IsNorm(t', i) <==> IsNorm(t, i))
            && (forall i :: IsFree(t', i) ==> IsFree(t, i))
  {
    var t' := MarkRange(t, r, r + n, 1);
    var block := Ledger.Range(r, n);
    forall i ensures IsTaken(t', i) <==> IsTaken(t, i) || r <= i < r + n {
      assert r <= i < r + n ==> IsFree(t, i);
    }
    forall i ensures i in FreePages(t') <==> i in FreePages(t) - block {
    }
    assert FreePages(t') == FreePages(t) - block;
    forall i | i in block ensures i in FreePages(t) {
      assert IsFree(t, i);
    }
  }

  /** The request is refused for quota or for want of any page, or the lowest free page starts a block of
      `len` free pages. */
  ghost predicate Fits(m: Pmm, id: nat, len: nat)
    requires id < NUM_IDS
  {
    var r := LowestFree(m.at);
    m.cont[id].usage + len > m.cont[id].quota || r == 0 || FreeBlock(m.at, r, len)
  }

  /** What the allocator then answers. */
  lemma BlockServed(m: Pmm, id: nat, len: Word)
    requires PmmInv(m) && id < NUM_IDS && 1 <= len <= TABLE_SIZE && Fits(m, id, len)
    ensures var (m', r) := ConsecutiveAlloc(m, id, len);
            PmmInv(m') && Lost(m') == Lost(m) && (forall x :: 0 <= x < NUM_IDS ==> m'.cont[x].used == m.cont[x].used)
            && (r == 0 ==> m' == m)
            && (r != 0 ==> r == LowestFree(m.at) && FreeBlock(m.at, r, len) && m'.at == MarkRange(m.at, r, r + len, 1))
  {
    var (m', r) := ConsecutiveAlloc(m, id, len);
    if r != 0 {
      BlockFreePages(m.at, r, len);
      UsageForest(m.cont, id, m.cont[id].usage + len);
      SlackUpdate(m.cont, id, m'.cont[id]);
    }
  }

  /** The free pages that a request of `len` pages marks are fewer than `len` unless it fits. */
  lemma MarksFewer(t: Table, len: nat)
    requires LowestFree(t) != 0 && len >= 1 && !FreeBlock(t, LowestFree(t), len)
    ensures |FreePages(ConsecutivePalloc(t, len).0)| > |FreePages(t)| - len
  {
    var r := LowestFree(t);
    var k := MarkedCount(r, len);
    var block := Ledger.Range(r, k);
    var hit := FreePages(t) * block;
    MarkedAtMost(r, len);
    MarkLeaves(t, r, k);
    if k == len {
      var i :| r <= i < r + len && !IsFree(t, i);
      assert hit <= block - {i};
      hide FreePages, IsFree;
      Ledger.SubsetCount(hit, block - {i});
    } else {
      Ledger.SubsetCount(hit, block);
    }
  }

  lemma MarkLeaves(t: Table, r: nat, k: nat)
    ensures |FreePages(MarkRange(t, r, r + k, 1))| == |FreePages(t)| - |FreePages(t) * Ledger.Range(r, k)|
  {
    var t' := MarkRange(t, r, r + k, 1);
    var hit := FreePages(t) * Ledger.Range(r, k);
    forall i ensures i in FreePages(t') <==> i in FreePages(t) - hit {
    }
    assert FreePages(t') == FreePages(t) - hit;
  }

  lemma {:induction false} MarkedAtMost(r: nat, n: nat)
    requires USERLO_PI <= r < USERHI_PI && n > 0
    ensures MarkedCount(r, n) <= n
    ensures MarkedCount(r, n) < n ==> MarkedCount(r, n) + (USERHI_PI - r) <= n
    decreases n
  {
    if n > USERHI_PI - r {
      MarkedAtMost(r, n - (USERHI_PI - r));
    }
  }

  /** While nothing was lost a block request keeps the allocator's books exactly when it is refused or
      fits. */
  lemma BlockBooksIff(m: Pmm, id: nat, len: Word)
    requires PmmInv(m) && Lost(m) == 0 && id < NUM_IDS && 1 <= len <= TABLE_SIZE
    ensures PmmInv(ConsecutiveAlloc(m, id, len).0) <==> Fits(m, id, len)
  {
    if Fits(m, id, len) {
      BlockServed(m, id, len);
    } else {
      var m' := ConsecutiveAlloc(m, id, len).0;
      MarksFewer(m.at, len);
      SlackUpdate(m.cont, id, m'.cont[id]);
    }
  }

  // ----- The page structures' part

  /** The `n` frames from `page` on are zero and in no page structure. */
  ghost predicate SpareRange(s: Vm, page: nat, n: nat) {
    forall f :: page <= f < page + n ==> Spare(s, f)
  }

  lemma BlockIsSpare(s: Vm, p: nat, len: Word)
    requires Inv(s) && p < NUM_IDS && 1 <= len <= TABLE_SIZE && Fits(s.pmm, p, len)
    ensures var (m, r) := ConsecutiveAlloc(s.pmm, p, len);
            var s1 := s.(pmm := m);
            Inv(s1) && SameViews(s, s1) && (r == 0 ==> s1 == s) && (r != 0 ==> r + len <= TABLE_SIZE && SpareRange(s1, r, len))
  {
    var (m, r) := ConsecutiveAlloc(s.pmm, p, len);
    var s1 := s.(pmm := m);
    BlockServed(s.pmm, p, len);
    hide ConsecutiveAlloc, PmmInv;
    SameEnts(s, s1);
    StructuresViews(s, s1);
    if r != 0 {
      BlockFreePages(s.pmm.at, r, len);
      BlockFrames(s, s1);
      BlockTables(s, p, len);
      forall f | r <= f < r + len ensures Spare(s1, f) {
        assert IsFree(s.pmm.at, f);
        assert forall q, i :: HasTable(s, q, i) ==> IsTaken(s.pmm.at, TableOf(s, q, i));
        assert forall q, i, j :: Mapped(s, q, i, j) ==> IsTaken(s.pmm.at, FrameOf(s, q, i, j));
      }
    }
  }

  lemma BlockFrames(s: Vm, s1: Vm)
    requires FrameInv(s) && SameStructures(s, s1) && forall i :: IsTaken(s.pmm.at, i) ==> IsTaken(s1.pmm.at, i)
    ensures FrameInv(s1)
  {
    SameEnts(s, s1);
    forall p, i, j | Mapped(s1, p, i, j) ensures IsTaken(s1.pmm.at, FrameOf(s1, p, i, j)) {
      assert Mapped(s, p, i, j);
    }
  }

  /** Mapping one spare frame leaves the others spare. */
  lemma OtherStaysSpare(s: Vm, p: nat, i: nat, j: nat, page: nat, perm: nat, f: int)
    requires TableInv(s) && Cell(p, i, j) && HasTable(s, p, i) && page < TABLE_SIZE && perm < 4096 && Spare(s, f) && f != page
    ensures Spare(SetWord(s, p, i, j, Entry(page, perm)), f)
  {
    EntryFields(page, perm);
    var s' := SetWord(s, p, i, j, Entry(page, perm));
    WriteEnts(s, p, i, j, Entry(page, perm));
    forall q, k, l | Mapped(s', q, k, l) ensures FrameOf(s', q, k, l) != f {
      assert !(q == p && k == i && l == j) ==> Mapped(s, q, k, l);
    }
    assert forall q, k :: HasTable(s', q, k) ==> HasTable(s, q, k) && TableOf(s', q, k) == TableOf(s, q, k);
  }

  /** One round of `map_consecutive_page` over spare frames. */
  lemma MapOneSpare(s: Vm, p: nat, va: Word, page: nat, perm: nat, n: nat)
    requires TableInv(s) && FrameInv(s) && 1 <= p < NUM_IDS && UserPage(va / 4096) && perm < 4096 && !Super(perm)
    requires EnsureTable(s, p, DirOf(va)).1 && n >= 1 && page + n <= TABLE_SIZE && SpareRange(s, page, n)
    ensures var s2 := SetPtbl(EnsureTable(s, p, DirOf(va)).0, p, DirOf(va), TblOf(va), page, perm);
            var u := va / 4096;
            TableInv(s2) && FrameInv(s2) && SpareRange(s2, page + 1, n - 1) && SameViewsButCell(s, s2, p, u / 1024, u % 1024)
            && ViewAt(s2, p, u) == if Present(perm) then Some(ZeroPage()) else None
  {
    var (i, j) := (DirOf(va), TblOf(va));
    UserCell(s, p, va);
    var s1 := EnsureTable(s, p, i).0;
    EnsureTableKeeps(s, p, i);
    EnsureTableFrames(s, p, i);
    StructuresViews(s, s1);
    hide TableInv, FrameInv, Spare, EnsureTable, DirOf, TblOf, SameEntries;
    assert Spare(s1, page);
    MapSpare(s1, p, i, j, page, perm);
    forall f | page + 1 <= f < page + n ensures Spare(SetPtbl(s1, p, i, j, page, perm), f) {
      OtherStaysSpare(s1, p, i, j, page, perm, f);
    }
  }

  /** One round with permissions that do not make the page present: any frame will do. */
  lemma MapOneAbsent(s: Vm, p: nat, va: Word, page: nat, perm: nat)
    requires TableInv(s) && FrameInv(s) && 1 <= p < NUM_IDS && UserPage(va / 4096) && perm < 4096 && !Present(perm)
    requires EnsureTable(s, p, DirOf(va)).1
    ensures var s2 := SetPtbl(EnsureTable(s, p, DirOf(va)).0, p, DirOf(va), TblOf(va), page, perm);
            var u := va / 4096;
            TableInv(s2) && FrameInv(s2) && SameViewsButCell(s, s2, p, u / 1024, u % 1024) && ViewAt(s2, p, u) == None
  {
    var (i, j) := (DirOf(va), TblOf(va));
    UserCell(s, p, va);
    var s1 := EnsureTable(s, p, i).0;
    EnsureTableKeeps(s, p, i);
    EnsureTableFrames(s, p, i);
    StructuresViews(s, s1);
    EntryPerm(page, perm);
    hide TableInv, FrameInv, EnsureTable, DirOf, TblOf, SameEntries, Entry;
    AbsentEntry(s1, p, i, j, Entry(page, perm));
  }

  lemma AbsentEntry(s: Vm, p: nat, i: nat, j: nat, e: Word)
    requires TableInv(s) && FrameInv(s) && Cell(p, i, j) && HasTable(s, p, i) && !Present(e)
    ensures var s' := SetWord(s, p, i, j, e);
            TableInv(s') && FrameInv(s') && SameViewsButCell(s, s', p, i, j) && View(s', p, i, j) == None
  {
    WriteTables(s, p, i, j, e);
    WriteFrames(s, p, i, j, e);
    WriteViews(s, p, i, j, e);
    WriteViewHere(s, p, i, j, e);
  }

  lemma NoTableNoChange(s: Vm, p: nat, va: Word)
    requires TableInv(s) && FrameInv(s) && 1 <= p < NUM_IDS && UserPage(va / 4096)
    ensures var s1 := EnsureTable(s, p, DirOf(va)).0;
            TableInv(s1) && FrameInv(s1) && SameViews(s, s1)
  {
    UserCell(s, p, va);
    EnsureTableKeeps(s, p, DirOf(va));
    EnsureTableFrames(s, p, DirOf(va));
    StructuresViews(s, EnsureTable(s, p, DirOf(va)).0);
  }

  /** What mapping `n` pages from `u` on is to the private machine. */
  function Fills(p: nat, u: int, n: nat, perm: nat): (cs: seq<Action>)
    requires p < NUM_IDS && perm < 4096
    ensures forall k :: 0 <= k < |cs| ==> Legal(cs[k])
    decreases n
  {
    if n == 0 then [] else [if Present(perm) then ZeroFill(p, u) else Drop(p, u)] + Fills(p, u + 1, n - 1, perm)
  }

  lemma FillsStep(a: Memories, p: nat, u: int, n: nat, perm: nat)
    requires p < NUM_IDS && perm < 4096 && n > 0
    ensures ActAll(a, Fills(p, u, n, perm)) ==
            ActAll(Act(a, if Present(perm) then ZeroFill(p, u) else Drop(p, u)), Fills(p, u + 1, n - 1, perm))
  {
    assert Fills(p, u, n, perm)[1..] == Fills(p, u + 1, n - 1, perm);
  }

  /** The mapping loop, complete or stopped for want of a page table, is as many zero fills as it counts,
      provided it gets no further than the `c` frames that are spare; with permissions that do not make
      pages present it drops that many pages, whatever the frames. */
  lemma {:induction false} MapLoopFills(s: Vm, p: nat, va: Word, page: nat, perm: nat, len: nat, c: nat)
    requires TableInv(s) && FrameInv(s) && 1 <= p < NUM_IDS && UserRange(va / 4096, len) && perm < 4096 && !Super(perm)
    requires (c > 0 ==> page + c <= TABLE_SIZE) && SpareRange(s, page, c)
    requires Present(perm) ==> MapLoop(s, p, va, page, perm, len).1 <= c
    ensures var (s', n) := MapLoop(s, p, va, page, perm, len);
            TableInv(s') && FrameInv(s') && Abs(s') == ActAll(Abs(s), Fills(p, va / 4096, n, perm))
    decreases len
  {
    hide TableInv, FrameInv, SpareRange, Abs, EnsureTable, SetPtbl, SameViews, SameViewsButCell, Act, Fills, ActAll, ViewAt,
         DirOf, TblOf;
    if len == 0 {
      NoFills(Abs(s), p, va / 4096, perm);
    } else {
      var u := va / 4096;
      assert UserPage(u);
      var (s1, ok) := EnsureTable(s, p, DirOf(va));
      if !ok {
        NoTableNoChange(s, p, va);
        SameViewsAbs(s, s1);
        NoFills(Abs(s), p, u, perm);
      } else {
        var s2 := SetPtbl(s1, p, DirOf(va), TblOf(va), page, perm);
        NextPage(va);
        if Present(perm) {
          MapOneSpare(s, p, va, page, perm, c);
          MapLoopFills(s2, p, U32(va + 4096), page + 1, perm, len - 1, c - 1);
        } else {
          MapOneAbsent(s, p, va, page, perm);
          NothingSpare(s2);
          MapLoopFills(s2, p, U32(va + 4096), page + 1, perm, len - 1, 0);
        }
        FilledPage(s, s2, p, u, perm);
        FillsStep(Abs(s), p, u, MapLoop(s2, p, U32(va + 4096), page + 1, perm, len - 1).1 + 1, perm);
      }
    }
  }

  lemma NothingSpare(s: Vm)
    ensures forall page :: SpareRange(s, page, 0)
  {
  }

  lemma NoFills(a: Memories, p: nat, u: int, perm: nat)
    requires p < NUM_IDS && perm < 4096
    ensures ActAll(a, Fills(p, u, 0, perm)) == a
  {
  }

  lemma FilledPage(s: Vm, s2: Vm, p: nat, u: int, perm: nat)
    requires 1 <= p < NUM_IDS && UserPage(u) && perm < 4096 && SameViewsButCell(s, s2, p, u / 1024, u % 1024)
    requires ViewAt(s2, p, u) == if Present(perm) then Some(ZeroPage()) else None
    ensures Abs(s2) == Act(Abs(s), if Present(perm) then ZeroFill(p, u) else Drop(p, u))
  {
    hide Abs, SameViewsButCell, ViewAt;
    OnePageAbs(s, s2, p, u);
  }

  /** How many pages a block request mapped. */
  function BlockCount(s: Vm, p: nat, va: Word, perm: nat, len: Word): (n: nat)
    requires p < NUM_IDS
  {
    var (m, r) := ConsecutiveAlloc(s.pmm, p, len);
    if r == 0 then 0 else MapLoop(s.(pmm := m), p, va, r, perm, len).1
  }

  /** A block request that is refused or fits is that many zero fills. */
  lemma BlockRefines(s: Vm, p: nat, va: Word, perm: nat, len: Word)
    requires Inv(s) && 1 <= p < NUM_IDS && len >= 1 && UserRange(va / 4096, len) && perm < 4096 && !Super(perm)
    requires Fits(s.pmm, p, len)
    ensures var s' := AllocConsecutivePage(s, p, va, perm, len).0;
            Inv(s') && Abs(s') == ActAll(Abs(s), Fills(p, va / 4096, BlockCount(s, p, va, perm, len), perm))
  {
    hide TableInv, FrameInv, PmmInv, Abs, SpareRange, ConsecutiveAlloc, MapLoop, ActAll, Fills, Fits, PdirByVa, SameViews;
    var (m, r) := ConsecutiveAlloc(s.pmm, p, len);
    var s1 := s.(pmm := m);
    BlockIsSpare(s, p, len);
    SameViewsAbs(s, s1);
    if r == 0 {
      NoFills(Abs(s), p, va / 4096, perm);
    } else {
      MapLoopFills(s1, p, va, r, perm, len, len);
      MapLoopPmm(s1, p, va, r, perm, len);
    }
  }

  lemma {:induction false} MapLoopPmm(s: Vm, p: nat, va: Word, page: nat, perm: nat, len: nat)
    requires PmmInv(s.pmm) && p < NUM_IDS
    ensures PmmInv(MapLoop(s, p, va, page, perm, len).0.pmm)
    decreases len
  {
    hide PmmInv, EnsureTable;
    if len > 0 {
      EnsureTablePmm(s, p, DirOf(va));
      var (s1, ok) := EnsureTable(s, p, DirOf(va));
      if ok {
        MapLoopPmm(SetPtbl(s1, p, DirOf(va), TblOf(va), page, perm), p, U32(va + 4096), page + 1, perm, len - 1);
      }
    }
  }

  /** And all of its pages are mapped exactly when the process can get them and the page tables they lack. */
  lemma BlockCompleteIff(s: Vm, p: nat, va: Word, perm: nat, len: Word)
    requires Inv(s) && 1 <= p < NUM_IDS && len >= 1 && UserRange(va / 4096, len) && Fits(s.pmm, p, len)
    ensures BlockCount(s, p, va, perm, len) == len <==>
            Avail(s.pmm, p) >= Demand(TablesOf(s, p), PagesFrom(va / 4096, va / 4096 + len))
  {
    hide Inv, ConsecutiveAlloc, MapLoop, Avail, TablesOf, Demand, PagesFrom, Mappable;
    var (m, r) := ConsecutiveAlloc(s.pmm, p, len);
    var u := va / 4096;
    BlockAvail(s, p, len);
    DemandAtLeast(TablesOf(s, p), PagesFrom(u, u + len));
    CountPages(u, u + len);
    if r != 0 {
      MapLoopCounts(s.(pmm := m), p, va, r, perm, len);
      MappableAll(TablesOf(s, p), Avail(m, p), u, len);
    }
  }

  lemma BlockAvail(s: Vm, p: nat, len: Word)
    requires Inv(s) && p < NUM_IDS && 1 <= len <= TABLE_SIZE && Fits(s.pmm, p, len)
    ensures var (m, r) := ConsecutiveAlloc(s.pmm, p, len);
            var s1 := s.(pmm := m);
            TableInv(s1) && Sound(m) && Avail(m, p) >= 0 && TablesOf(s1, p) == TablesOf(s, p)
            && (r == 0 ==> Avail(s.pmm, p) < len) && (r != 0 ==> Avail(m, p) == Avail(s.pmm, p) - len)
  {
    hide ConsecutiveAlloc, Avail, PmmInv, FrameInv, TableInv, Fits, Sound;
    BlockAvailPmm(s.pmm, p, len);
    BlockTables(s, p, len);
    SameTablesOf(s, s.(pmm := ConsecutiveAlloc(s.pmm, p, len).0), p);
  }

  lemma SameTablesOf(s: Vm, s': Vm, p: int)
    requires s'.pdir == s.pdir
    ensures TablesOf(s', p) == TablesOf(s, p)
  {
  }

  lemma BlockAvailPmm(m: Pmm, p: nat, len: Word)
    requires PmmInv(m) && p < NUM_IDS && 1 <= len <= TABLE_SIZE && Fits(m, p, len)
    ensures var (m', r) := ConsecutiveAlloc(m, p, len);
            Sound(m') && Avail(m', p) >= 0 && (r == 0 ==> Avail(m, p) < len) && (r != 0 ==> Avail(m', p) == Avail(m, p) - len)
  {
    hide ConsecutiveAlloc, PmmInv, Sound, FreePages, MarkRange, FreeBlock, Fits, Lost;
    var (m', r) := ConsecutiveAlloc(m, p, len);
    BlockServed(m, p, len);
    SoundOf(m);
    SoundOf(m');
    BlockForm(m, p, len);
    SoundFacts(m, p);
    SoundFacts(m', p);
    if r != 0 {
      BlockFreePages(m.at, r, len);
    }
  }

  lemma SoundOf(m: Pmm)
    requires PmmInv(m)
    ensures Sound(m)
  {
  }

  /** When a block is refused, and the quota it takes. */
  lemma BlockForm(m: Pmm, p: nat, len: Word)
    requires Sound(m) && p < NUM_IDS && 1 <= len <= TABLE_SIZE
    ensures var (m', r) := ConsecutiveAlloc(m, p, len);
            (r == 0 <==> m.cont[p].usage + len > m.cont[p].quota || LowestFree(m.at) == 0)
            && (r != 0 ==> Slack(m'.cont[p]) == Slack(m.cont[p]) - len)
  {
  }
}
