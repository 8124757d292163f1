/** How many pages a process must be able to ask for so that a list of user pages can be mapped: one
    for each, and one for each page table they lack. */
module PageDemand {
  import opened Words
  import opened AllocTable
  import opened Containers
  import opened PageTables
  import opened Mapping
  import opened Fork

  /** The directory slots of process `p` that have a page table. */
  ghost function TablesOf(s: Vm, p: int): (d: set<int>) {
    set i | USERLO <= i < USERHI && HasTable(s, p, i)
  }

  /** What mapping the pages in turn costs, when the directories in `have` have a table. */
  function Demand(have: set<int>, pages: seq<int>): (n: nat)
    decreases |pages|
  {
    if pages == [] then 0
    else (if pages[0] / 1024 in have then 1 else 2) + Demand(have + {pages[0] / 1024}, pages[1..])
  }

  function PagesFrom(lo: int, hi: int): (pages: seq<int>)
    decreases hi - lo
  {
    if lo >= hi then [] else [lo] + PagesFrom(lo + 1, hi)
  }

  function DirsOf(pages: seq<int>): (d: set<int>) {
    set x | x in pages :: x / 1024
  }

  /** That is the number of pages and the number of tables they lack. */
  lemma {:induction false} DemandIs(have: set<int>, pages: seq<int>)
    ensures Demand(have, pages) == |pages| + |DirsOf(pages) - have|
    decreases |pages|
  {
    hide DirsOf;
    if pages != [] {
      var d, tl := pages[0] / 1024, pages[1..];
      DemandIs(have + {d}, tl);
      DirsStep(pages);
      if d in have {
        assert have + {d} == have;
        assert DirsOf(pages) - have == DirsOf(tl) - have;
      } else {
        assert DirsOf(pages) - have == (DirsOf(tl) - (have + {d})) + {d};
      }
    } else {
      NoDirs();
      assert DirsOf(pages) - have == {};
    }
  }

  lemma NoDirs()
    ensures DirsOf([]) == {}
  {
  }

  lemma DirsStep(pages: seq<int>)
    requires pages != []
    ensures DirsOf(pages) == DirsOf(pages[1..]) + {pages[0] / 1024}
  {
    var tl := pages[1..];
    forall k ensures k in DirsOf(pages) <==> k in DirsOf(tl) || k == pages[0] / 1024 {
      if k in DirsOf(pages) {
        var x :| x in pages && x / 1024 == k;
        assert x == pages[0] || x in tl;
      }
      if k in DirsOf(tl) {
        var x :| x in tl && x / 1024 == k;
        assert x in pages;
      }
      if k == pages[0] / 1024 {
        assert pages[0] in pages;
      }
    }
  }

  lemma DemandStep(have: set<int>, x: int, rest: seq<int>)
    ensures Demand(have, [x] + rest) == (if x / 1024 in have then 1 else 2) + Demand(have + {x / 1024}, rest)
  {
    assert ([x] + rest)[1..] == rest;
  }

  /** The pages a process can still get: it needs quota for them, and they must be there. */
  ghost function Avail(m: Pmm, id: nat): (n: int)
    requires id < NUM_IDS
  {
    if Slack(m.cont[id]) < |FreePages(m.at)| then Slack(m.cont[id]) else |FreePages(m.at)|
  }

  /** While no page was lost, quota is all it needs. */
  lemma AvailIsSlack(m: Pmm, id: nat)
    requires PmmInv(m) && id < NUM_IDS && Lost(m) == 0
    ensures Avail(m, id) == Slack(m.cont[id])
  {
    SlackAtLeast(m.cont, id, NUM_IDS);
  }

  lemma InvAvail(s: Vm, p: nat)
    requires Inv(s) && p < NUM_IDS
    ensures PmmInv(s.pmm) && Avail(s.pmm, p) >= 0
  {
  }

  /** `alloc_page` succeeds exactly when the process can get a page, and a second one if the page table
      is missing; it then takes just these.  After a failure the process can get no page at all. */
  lemma AllocPageCost(s: Vm, p: nat, va: Word, perm: nat)
    requires Inv(s) && Cell(p, DirOf(va), TblOf(va)) && perm < 4096 && !Super(perm)
    ensures var (s', ret) := AllocPage(s, p, va, perm);
            var cost := if HasTable(s, p, DirOf(va)) then 1 else 2;
            (ret != MAGIC <==> Avail(s.pmm, p) >= cost)
            && (ret != MAGIC ==> Avail(s'.pmm, p) == Avail(s.pmm, p) - cost && TablesOf(s', p) == TablesOf(s, p) + {DirOf(va)})
            && (ret == MAGIC ==> Avail(s'.pmm, p) == 0)
  {
    var (s1, r) := AllocFrame(s, p);
    FrameCost(s, p);
    AllocFrameTables(s, p);
    AllocFramePmm(s, p);
    SameEnts(s, s1);
    hide TableInv, FrameInv, Forest, Solvent, NormalInUserRange, Lost, Avail, Alloc, DirOf, TblOf;
    if r != 0 {
      MapPageResult(s1, p, va, r, perm);
      EnsureCost(s1, p, DirOf(va));
      assert TablesOf(s1, p) == TablesOf(s, p);
      if EnsureTable(s1, p, DirOf(va)).1 {
        MapKeepsTables(s1, p, va, r, perm);
      }
    }
  }

  lemma SoundFacts(m: Pmm, p: nat)
    requires Sound(m) && p < NUM_IDS
    ensures Slack(m.cont[p]) >= 0 && (LowestFree(m.at) == 0 <==> |FreePages(m.at)| == 0)
  {
    LowestFreeOfRange(m.at);
  }

  lemma FrameCost(s: Vm, p: nat)
    requires Sound(s.pmm) && p < NUM_IDS
    ensures var (s1, r) := AllocFrame(s, p);
            (r != 0 <==> Avail(s.pmm, p) >= 1)
            && Avail(s1.pmm, p) == if r != 0 then Avail(s.pmm, p) - 1 else 0
  {
    hide Sound, Lost, Alloc, FreePages;
    SoundFacts(s.pmm, p);
    AllocSound(s.pmm, p);
  }

  lemma EnsureCost(s: Vm, p: nat, i: nat)
    requires Sound(s.pmm) && Slot(p, i)
    ensures var (s', ok) := EnsureTable(s, p, i);
            (ok <==> HasTable(s, p, i) || Avail(s.pmm, p) >= 1)
            && (ok ==> Avail(s'.pmm, p) == Avail(s.pmm, p) - if HasTable(s, p, i) then 0 else 1)
            && (ok ==> TablesOf(s', p) == TablesOf(s, p) + {i})
            && (!ok ==> Avail(s'.pmm, p) == 0)
  {
    hide Sound, Avail, Alloc;
    if !HasTable(s, p, i) {
      FrameCost(s, p);
      var (s1, r) := AllocFrame(s, p);
      if r != 0 {
        NewTable(s1, p, i, r);
        assert TablesOf(s1, p) == TablesOf(s, p);
      }
    } else {
      assert TablesOf(s, p) == TablesOf(s, p) + {i};
    }
  }

  lemma NewTable(s: Vm, p: nat, i: nat, r: nat)
    requires Slot(p, i)
    ensures var s' := SetPdir(s, p, i, r);
            TablesOf(s', p) == TablesOf(s, p) + {i} && s'.pmm == s.pmm
  {
    assert Present(Entry(r, PTU));
    var s' := SetPdir(s, p, i, r);
    forall k | USERLO <= k < USERHI ensures HasTable(s', p, k) <==> HasTable(s, p, k) || k == i {
    }
  }

  lemma MapKeepsTables(s: Vm, p: nat, va: Word, page: nat, perm: nat)
    requires p < NUM_IDS && EnsureTable(s, p, DirOf(va)).1
    ensures var s' := MapPage(s, p, va, page, perm).0;
            var s1 := EnsureTable(s, p, DirOf(va)).0;
            s'.pmm == s1.pmm && TablesOf(s', p) == TablesOf(s1, p)
  {
  }

  // ----- The mapping loop

  /** How many of the `len` pages from `u` on can be mapped in turn when frames are at hand, the
      directories in `have` have a table and `left` more tables can be had. */
  function Mappable(have: set<int>, left: int, u: int, len: nat): (n: nat)
    ensures n <= len
    decreases len
  {
    if len == 0 then 0
    else if u / 1024 in have then 1 + Mappable(have, left, u + 1, len - 1)
    else if left >= 1 then 1 + Mappable(have + {u / 1024}, left - 1, u + 1, len - 1)
    else 0
  }

  /** All of them exactly when there are enough for the tables they lack. */
  lemma {:induction false} MappableAll(have: set<int>, left: int, u: int, len: nat)
    requires left >= 0
    ensures Mappable(have, left, u, len) == len <==> len + left >= Demand(have, PagesFrom(u, u + len))
    decreases len
  {
    hide Demand;
    if len > 0 {
      var d := u / 1024;
      DemandStep(have, u, PagesFrom(u + 1, u + len));
      if d in have {
        assert have + {d} == have;
        MappableAll(have, left, u + 1, len - 1);
      } else if left >= 1 {
        MappableAll(have + {d}, left - 1, u + 1, len - 1);
      } else {
        DemandAtLeast(have + {d}, PagesFrom(u + 1, u + len));
        CountPages(u + 1, u + len);
      }
    } else {
      NoDemand(have);
    }
  }

  lemma NoDemand(have: set<int>)
    ensures Demand(have, []) == 0
  {
  }

  lemma {:induction false} DemandAtLeast(have: set<int>, pages: seq<int>)
    ensures Demand(have, pages) >= |pages|
    decreases |pages|
  {
    if pages != [] {
      DemandAtLeast(have + {pages[0] / 1024}, pages[1..]);
    }
  }

  lemma {:induction false} CountPages(lo: int, hi: int)
    requires lo <= hi
    ensures |PagesFrom(lo, hi)| == hi - lo
    decreases hi - lo
  {
    if lo < hi {
      CountPages(lo + 1, hi);
    }
  }

  /** The quota left to a process beyond the pages that are free. */
  ghost function Gap(m: Pmm, p: nat): (g: int)
    requires p < NUM_IDS
  {
    Slack(m.cont[p]) - |FreePages(m.at)|
  }

  lemma AllocBooks(m: Pmm, p: nat)
    requires Sound(m) && p < NUM_IDS
    ensures var (m', r) := Alloc(m, p);
            Sound(m')
            && (r != 0 ==> Lost(m') == Lost(m) && Gap(m', p) == Gap(m, p))
            && (r == 0 ==> Lost(m') == Lost(m) + if Gap(m, p) < 0 then 1 else 0)
  {
    hide Sound, Lost, Alloc, FreePages;
    SoundFacts(m, p);
    AllocSound(m, p);
  }

  /** What making sure of a page table does to the books. */
  lemma EnsureBooks(s: Vm, p: nat, i: nat)
    requires Sound(s.pmm) && Slot(p, i)
    ensures var (s', ok) := EnsureTable(s, p, i);
            Sound(s'.pmm)
            && (ok ==> Lost(s'.pmm) == Lost(s.pmm) && Gap(s'.pmm, p) == Gap(s.pmm, p))
            && (!ok ==> Lost(s'.pmm) == Lost(s.pmm) + if Gap(s.pmm, p) < 0 then 1 else 0)
  {
    hide Sound, Lost, Alloc, Gap;
    AllocBooks(s.pmm, p);
  }

  lemma MapStepTables(s: Vm, p: nat, va: Word, page: nat, perm: nat)
    requires TableInv(s) && 1 <= p < NUM_IDS && UserPage(va / 4096)
    ensures var (s1, ok) := EnsureTable(s, p, DirOf(va));
            TableInv(s1) && Slot(p, DirOf(va)) && DirOf(va) == va / 4096 / 1024
            && (ok ==> var s2 := SetPtbl(s1, p, DirOf(va), TblOf(va), page, perm);
                       TableInv(s2) && s2.pmm == s1.pmm && TablesOf(s2, p) == TablesOf(s1, p))
  {
    assert Cell(p, DirOf(va), TblOf(va)) && DirOf(va) == va / 4096 / 1024;
    hide DirOf, TblOf;
    EnsureTableKeeps(s, p, DirOf(va));
    var (s1, ok) := EnsureTable(s, p, DirOf(va));
    if ok {
      WriteTables(s1, p, DirOf(va), TblOf(va), Entry(page, perm));
      SetKeepsTables(s1, p, DirOf(va), TblOf(va), page, perm);
    }
  }

  lemma SetKeepsTables(s: Vm, p: nat, i: nat, j: nat, page: nat, perm: nat)
    ensures var s' := SetPtbl(s, p, i, j, page, perm);
            s'.pmm == s.pmm && TablesOf(s', p) == TablesOf(s, p)
  {
  }

  /** The mapping loop counts the pages that can be mapped; where it stops for want of a table although a
      page is free, that page is lost. */
  lemma {:induction false} MapLoopCounts(s: Vm, p: nat, va: Word, page: nat, perm: nat, len: nat)
    requires TableInv(s) && Sound(s.pmm) && 1 <= p < NUM_IDS && UserRange(va / 4096, len)
    ensures var (s', n) := MapLoop(s, p, va, page, perm, len);
            TableInv(s') && Sound(s'.pmm)
            && n == Mappable(TablesOf(s, p), Avail(s.pmm, p), va / 4096, len)
            && Lost(s'.pmm) == Lost(s.pmm) + if n < len && Gap(s.pmm, p) < 0 then 1 else 0
    decreases len
  {
    hide TableInv, Sound, Lost, Avail, TablesOf, EnsureTable, SetPtbl, Gap;
    if len > 0 {
      var u := va / 4096;
      assert UserPage(u);
      var (s1, ok) := EnsureTable(s, p, DirOf(va));
      MapStepTables(s, p, va, page, perm);
      hide DirOf, TblOf;
      EnsureCost(s, p, u / 1024);
      EnsureBooks(s, p, u / 1024);
      HasIsIn(s, p, u / 1024);
      if ok {
        var s2 := SetPtbl(s1, p, DirOf(va), TblOf(va), page, perm);
        NextPage(va);
        MapLoopCounts(s2, p, U32(va + 4096), page + 1, perm, len - 1);
        assert u / 1024 in TablesOf(s, p) ==> TablesOf(s, p) + {u / 1024} == TablesOf(s, p);
      }
    }
  }

  lemma HasIsIn(s: Vm, p: nat, i: int)
    requires Slot(p, i)
    ensures i in TablesOf(s, p) <==> HasTable(s, p, i)
  {
  }

  // ----- What the mapping calls return

  lemma {:induction false} LoopKeepsTables(s: Vm, p: nat, va: Word, page: nat, perm: nat, len: nat, d: int)
    requires TableInv(s) && 1 <= p < NUM_IDS && UserRange(va / 4096, len) && HasTable(s, p, d)
    ensures var s' := MapLoop(s, p, va, page, perm, len).0;
            HasTable(s', p, d) && TableOf(s', p, d) == TableOf(s, p, d)
    decreases len
  {
    hide TableInv, DirOf, TblOf, TablesOf;
    if len > 0 {
      assert UserPage(va / 4096);
      MapStepTables(s, p, va, page, perm);
      var (s1, ok) := EnsureTable(s, p, DirOf(va));
      TableStays(s, p, DirOf(va), d);
      if ok {
        var s2 := SetPtbl(s1, p, DirOf(va), TblOf(va), page, perm);
        NextPage(va);
        LoopKeepsTables(s2, p, U32(va + 4096), page + 1, perm, len - 1, d);
      }
    }
  }

  lemma TableStays(s: Vm, p: nat, i: nat, d: int)
    requires Slot(p, i) && HasTable(s, p, d)
    ensures var s1 := EnsureTable(s, p, i).0;
            HasTable(s1, p, d) && TableOf(s1, p, d) == TableOf(s, p, d)
  {
  }

  /** The first page that is mapped leaves its page table in place. */
  lemma LoopHasTable(s: Vm, p: nat, va: Word, page: nat, perm: nat, len: nat)
    requires TableInv(s) && 1 <= p < NUM_IDS && UserRange(va / 4096, len) && MapLoop(s, p, va, page, perm, len).1 >= 1
    ensures Slot(p, DirOf(va)) && HasTable(MapLoop(s, p, va, page, perm, len).0, p, DirOf(va))
  {
    hide TableInv, TablesOf;
    assert UserPage(va / 4096);
    MapStepTables(s, p, va, page, perm);
    hide DirOf, TblOf;
    EnsureTableKeeps(s, p, DirOf(va));
    var s1 := EnsureTable(s, p, DirOf(va)).0;
    NextPage(va);
    LoopKeepsTables(SetPtbl(s1, p, DirOf(va), TblOf(va), page, perm), p, U32(va + 4096), page + 1, perm, len - 1, DirOf(va));
  }

  /** `map_consecutive_page` fails exactly when it does not map every page; otherwise it returns the
      directory entry of the first: the frame of its page table with P, W and U. */
  lemma BlockReturns(s: Vm, p: nat, va: Word, page: nat, perm: nat, len: nat)
    requires TableInv(s) && 1 <= p < NUM_IDS && len >= 1 && UserRange(va / 4096, len)
    ensures var (s', ret) := MapConsecutive(s, p, va, page, perm, len);
            (ret == MAGIC <==> MapLoop(s, p, va, page, perm, len).1 < len)
            && (ret != MAGIC ==> Slot(p, DirOf(va)) && Frame(ret) == TableOf(s', p, DirOf(va)) && Perm(ret) == 7)
  {
    hide MapLoop, DirOf;
    var (s', n) := MapLoop(s, p, va, page, perm, len);
    if n == len {
      LoopHasTable(s, p, va, page, perm, len);
      LoopTableInv(s, p, va, page, perm, len);
      TableEntry(s', p, DirOf(va));
    }
  }

  lemma TableEntry(s: Vm, p: nat, i: int)
    requires TableInv(s) && HasTable(s, p, i)
    ensures Frame(s.pdir[p][i]) == TableOf(s, p, i) && Perm(s.pdir[p][i]) == 7 && s.pdir[p][i] != MAGIC
  {
    assert Perm(MAGIC) == 1;
  }

  lemma {:induction false} LoopTableInv(s: Vm, p: nat, va: Word, page: nat, perm: nat, len: nat)
    requires TableInv(s) && 1 <= p < NUM_IDS && UserRange(va / 4096, len)
    ensures TableInv(MapLoop(s, p, va, page, perm, len).0)
    decreases len
  {
    hide TableInv, EnsureTable, SetPtbl, TablesOf;
    if len > 0 {
      assert UserPage(va / 4096);
      MapStepTables(s, p, va, page, perm);
      hide DirOf, TblOf;
      var (s1, ok) := EnsureTable(s, p, DirOf(va));
      if ok {
        NextPage(va);
        LoopTableInv(SetPtbl(s1, p, DirOf(va), TblOf(va), page, perm), p, U32(va + 4096), page + 1, perm, len - 1);
      }
    }
  }

  /** `alloc_page`, `alloc_consecutive_page` and `alloc_super_page` pass that on. */
  lemma AllocPageReturns(s: Vm, p: nat, va: Word, perm: nat)
    requires TableInv(s) && 1 <= p < NUM_IDS && UserPage(va / 4096) && perm < 4096
    ensures var (s', ret) := AllocPage(s, p, va, perm);
            ret != MAGIC ==> Slot(p, DirOf(va)) && Frame(ret) == TableOf(s', p, DirOf(va)) && Perm(ret) == 7
  {
    hide TableInv, AllocFrame, MapPage, DirOf;
    AllocFrameTables(s, p);
    var (s1, r) := AllocFrame(s, p);
    MapPagePoint(s1, p, va, r, perm);
  }

  /** The flat map after a block was mapped: the pages counted have consecutive frames from the one the
      allocator answered, with the permissions asked for; nothing else changed.  The call fails exactly
      when not all were mapped, and otherwise returns the directory entry of the first. */
  lemma BlockFlat(s: Vm, p: nat, va: Word, perm: nat, len: Word)
    requires TableInv(s) && 1 <= p < NUM_IDS && len >= 1 && UserRange(va / 4096, len) && perm < 4096 && Present(perm)
    requires ConsecutiveAlloc(s.pmm, p, len).1 != 0
    ensures var (m, r) := ConsecutiveAlloc(s.pmm, p, len);
            var (s', ret) := AllocConsecutivePage(s, p, va, perm, len);
            var n := MapLoop(s.(pmm := m), p, va, r, perm, len).1;
            TableInv(s') && MappedRange(s, s', p, va / 4096, n, r, perm) && (ret == MAGIC <==> n < len)
            && (ret != MAGIC ==> Slot(p, DirOf(va)) && Frame(ret) == TableOf(s', p, DirOf(va)) && Perm(ret) == 7)
  {
    hide TableInv, ConsecutiveAlloc, MapLoop, MappedRange, SameFlat, DirOf, PdirByVa;
    var (m, r) := ConsecutiveAlloc(s.pmm, p, len);
    var s1 := s.(pmm := m);
    BlockTables(s, p, len);
    SameEnts(s, s1);
    SameEntsSameFlat(s, s1);
    MapLoopFlat(s1, p, va, r, perm, len);
    SameMapped(s, s1, MapLoop(s1, p, va, r, perm, len).0, p, va / 4096, MapLoop(s1, p, va, r, perm, len).1, r, perm);
    BlockReturns(s1, p, va, r, perm, len);
  }

  /** A super page is had exactly when its pages are granted and all 1024 could be mapped, and then the
      call returns the directory entry of the first. */
  lemma SuperReturns(s: Vm, p: nat, va: Word, perm: nat)
    requires TableInv(s) && 1 <= p < NUM_IDS && UserRange(va / 4096, 1024) && perm < 4096 && Present(perm)
    ensures var (m, r) := ConsecutiveAlloc(s.pmm, p, 1024);
            var (s', ret) := AllocSuperPage(s, p, va, perm);
            (ret == 1048577 <==> r == 0 || MapLoop(s.(pmm := m), p, va, r, WithSuper(perm), 1024).1 < 1024)
            && (ret != 1048577 ==> Slot(p, DirOf(va)) && Frame(ret) == TableOf(s', p, DirOf(va)) && Perm(ret) == 7)
  {
    hide TableInv, ConsecutiveAlloc, MapLoop, MappedRange, DirOf, MapConsecutive, WithSuper;
    if ConsecutiveAlloc(s.pmm, p, 1024).1 != 0 {
      BlockFlat(s, p, va, WithSuper(perm), 1024);
    }
  }
}
