/** Block requests beyond what is left of the region: within its quota a process can ask for more pages
    than are free once pages have been lost, and is then given frames that are not its to have.  On a
    region handed out from the bottom up, the exact condition under which the invariant survives. */
module BlockOverrun {
  import opened Words
  import opened AllocTable
  import opened Containers
  import opened PageTables
  import opened Mapping
  import opened Fork
  import opened CowRefinement
  import opened PageDemand
  import opened BlockMapping
  import Ledger

  // ----- How pages get lost

  /** A page asked for beyond the quota while one is free: the call fails and the page is gone; no
      invariant breaks, and nothing tells the other processes. */
  lemma OverQuotaLosesAPage(s: Vm, p: nat, va: Word, perm: nat)
    requires Inv(s) && Enabled(MapNew(p, va, perm)) && Slack(s.pmm.cont[p]) == 0 && LowestFree(s.pmm.at) != 0
    ensures var (s', ret) := AllocPage(s, p, va, perm);
            ret == MAGIC && Lost(s'.pmm) == Lost(s.pmm) + 1 && Inv(Step(s, MapNew(p, va, perm)))
            && Raised(s, MapNew(p, va, perm)) && Harmless(s, MapNew(p, va, perm))
  {
    hide Inv, Abs, Act, Label, Lost;
    MapNewRefines(s, p, va, perm);
    RefusedPage(s, p, va, perm);
  }

  lemma RefusedPage(s: Vm, p: nat, va: Word, perm: nat)
    requires Inv(s) && p < NUM_IDS && Slack(s.pmm.cont[p]) == 0 && LowestFree(s.pmm.at) != 0
    ensures var (s', ret) := AllocPage(s, p, va, perm);
            ret == MAGIC && Lost(s'.pmm) == Lost(s.pmm) + 1
  {
    hide TableInv, FrameInv, PmmInv, Lost, Alloc, MapPage;
    AllocKeeps(s.pmm, p);
  }

  // ----- The allocator on such a region

  /** How many free pages a request of `len` pages takes. */
  ghost function TakenBy(t: Table, len: nat): (c: nat)
    requires LowestFree(t) != 0 && len > 0
  {
    var k := MarkedCount(LowestFree(t), len);
    if k < |FreePages(t)| then k else |FreePages(t)|
  }

  lemma MarkBeyond(t: Table, lo: nat, hi: nat, next: nat, k: nat)
    requires Ledger.Prefix(t, lo, hi, next)
    ensures Ledger.Prefix(MarkRange(t, next, next + k, 1), lo, hi, if next + k < hi then next + k else hi)
  {
    var t' := MarkRange(t, next, next + k, 1);
    forall i ensures IsNorm(t', i) <==> lo <= i < hi {
      assert IsNorm(t', i) <==> IsNorm(t, i);
    }
    forall i ensures IsTaken(t', i) <==> lo <= i < (if next + k < hi then next + k else hi) {
      assert IsNorm(t', i) <==> IsNorm(t, i);
      assert IsTaken(t, i) <==> lo <= i < next;
    }
  }

  /** What a block request within quota does to the allocator. */
  lemma BlockAlloc(m: Pmm, id: nat, len: Word, lo: nat, hi: nat, next: nat)
    requires Sound(m) && id < NUM_IDS && 1 <= len <= TABLE_SIZE && Ledger.Prefix(m.at, lo, hi, next) && next < hi
    requires m.cont[id].usage + len <= m.cont[id].quota
    ensures LowestFree(m.at) == next && |FreePages(m.at)| == hi - next
    ensures var (m', r) := ConsecutiveAlloc(m, id, len);
            var c := TakenBy(m.at, len);
            r == next && 1 <= c && next + c <= hi && Sound(m') && Ledger.Prefix(m'.at, lo, hi, next + c)
            && Slack(m'.cont[id]) == Slack(m.cont[id]) - len && |FreePages(m'.at)| == |FreePages(m.at)| - c
            && Lost(m') == Lost(m) + c - len
            && (forall x :: 0 <= x < NUM_IDS ==> m'.cont[x].used == m.cont[x].used)
  {
    Ledger.PrefixFree(m.at, lo, hi, next);
    var (m', r) := ConsecutiveAlloc(m, id, len);
    var k := MarkedCount(next, len);
    MarkBeyond(m.at, lo, hi, next, k);
    Ledger.PrefixFree(m'.at, lo, hi, next + TakenBy(m.at, len));
    UsageForest(m.cont, id, m.cont[id].usage + len);
    SlackUpdate(m.cont, id, m'.cont[id]);
    assert forall i :: IsNorm(m'.at, i) <==> IsNorm(m.at, i);
  }

  // ----- The page structures right after it

  lemma TakenIsSpare(s: Vm, s1: Vm, f: int)
    requires TableInv(s) && FrameInv(s) && SameStructures(s, s1) && IsFree(s.pmm.at, f) && IsTaken(s1.pmm.at, f)
    ensures Spare(s1, f)
  {
    SameEnts(s, s1);
    assert forall q, i :: HasTable(s, q, i) ==> IsTaken(s.pmm.at, TableOf(s, q, i));
    assert forall q, i, j :: Mapped(s, q, i, j) ==> IsTaken(s.pmm.at, FrameOf(s, q, i, j));
  }

  lemma BlockStart(s: Vm, p: nat, len: Word, lo: nat, hi: nat, next: nat)
    requires Inv(s) && p < NUM_IDS && 1 <= len <= TABLE_SIZE && Ledger.Prefix(s.pmm.at, lo, hi, next) && next < hi
    requires s.pmm.cont[p].usage + len <= s.pmm.cont[p].quota
    ensures var s1 := s.(pmm := ConsecutiveAlloc(s.pmm, p, len).0);
            TableInv(s1) && FrameInv(s1) && SameViews(s, s1) && TablesOf(s1, p) == TablesOf(s, p)
            && LowestFree(s.pmm.at) != 0 && SpareRange(s1, next, TakenBy(s.pmm.at, len))
  {
    var m := ConsecutiveAlloc(s.pmm, p, len).0;
    var s1 := s.(pmm := m);
    InvSound(s);
    BlockAlloc(s.pmm, p, len, lo, hi, next);
    BlockTables(s, p, len);
    SameTablesOf(s, s1, p);
    SameEnts(s, s1);
    StructuresViews(s, s1);
    PrefixPages(s.pmm.at, lo, hi, next);
    PrefixPages(m.at, lo, hi, next + TakenBy(s.pmm.at, len));
    hide PmmInv, ConsecutiveAlloc, TakenBy;
    BlockFrames(s, s1);
    forall f | next <= f < next + TakenBy(s.pmm.at, len) ensures Spare(s1, f) {
      TakenIsSpare(s, s1, f);
    }
  }

  lemma InvSound(s: Vm)
    requires Inv(s)
    ensures Sound(s.pmm)
  {
  }

  lemma PrefixPages(t: Table, lo: nat, hi: nat, next: nat)
    requires Ledger.Prefix(t, lo, hi, next)
    ensures forall i :: IsTaken(t, i) <==> lo <= i < next
    ensures forall i :: IsFree(t, i) <==> next <= i < hi
  {
    Ledger.PrefixFree(t, lo, hi, next);
  }

  // ----- The loop when no page table can be had

  lemma {:induction false} MappablePrefix(have: set<int>, u: int, len: nat)
    ensures var n := Mappable(have, 0, u, len);
            Mappable(have, 0, u, n) == n
    decreases len
  {
    if len > 0 && u / 1024 in have {
      MappablePrefix(have, u + 1, len - 1);
    }
  }

  /** Over pages that all have their table the loop does not look at the allocator. */
  lemma {:induction false} TablesThere(s: Vm, m: Pmm, p: nat, va: Word, page: nat, perm: nat, n: nat)
    requires TableInv(s) && 1 <= p < NUM_IDS && UserRange(va / 4096, n) && Mappable(TablesOf(s, p), 0, va / 4096, n) == n
    ensures MapLoop(s.(pmm := m), p, va, page, perm, n) == (MapLoop(s, p, va, page, perm, n).0.(pmm := m), n)
    ensures MapLoop(s, p, va, page, perm, n).1 == n && MapLoop(s, p, va, page, perm, n).0.pmm == s.pmm
    decreases n
  {
    hide TableInv, TablesOf, DirOf, TblOf, SetPtbl, EnsureTable;
    if n > 0 {
      var u := va / 4096;
      assert UserPage(u);
      MapStepTables(s, p, va, page, perm);
      HasIsIn(s, p, u / 1024);
      var s2 := SetPtbl(s, p, DirOf(va), TblOf(va), page, perm);
      NoNewTable(s, m, p, DirOf(va), TblOf(va), page, perm);
      NextPage(va);
      TablesThere(s2, m, p, U32(va + 4096), page + 1, perm, n - 1);
    }
  }

  lemma NoNewTable(s: Vm, m: Pmm, p: nat, i: nat, j: nat, page: nat, perm: nat)
    requires HasTable(s, p, i)
    ensures EnsureTable(s, p, i) == (s, true) && EnsureTable(s.(pmm := m), p, i) == (s.(pmm := m), true)
    ensures SetPtbl(s.(pmm := m), p, i, j, page, perm) == SetPtbl(s, p, i, j, page, perm).(pmm := m)
  {
  }

  /** When no page can be had the loop maps the pages that have their table and asks for one page more. */
  lemma {:induction false} StarvedLoop(s: Vm, p: nat, va: Word, page: nat, perm: nat, len: nat)
    requires TableInv(s) && Sound(s.pmm) && 1 <= p < NUM_IDS && UserRange(va / 4096, len) && Avail(s.pmm, p) == 0
    ensures var n := Mappable(TablesOf(s, p), 0, va / 4096, len);
            MapLoop(s, p, va, page, perm, len)
            == (MapLoop(s, p, va, page, perm, n).0.(pmm := if n < len then Alloc(s.pmm, p).0 else s.pmm), n)
    decreases len
  {
    hide TableInv, Sound, Avail, TablesOf, DirOf, TblOf, SetPtbl, EnsureTable, Alloc;
    var u := va / 4096;
    if len > 0 {
      assert UserPage(u);
      MapStepTables(s, p, va, page, perm);
      HasIsIn(s, p, u / 1024);
      if HasTable(s, p, u / 1024) {
        var s2 := SetPtbl(s, p, DirOf(va), TblOf(va), page, perm);
        NoNewTable(s, s.pmm, p, DirOf(va), TblOf(va), page, perm);
        NextPage(va);
        hide MapLoop;
        StarvedLoop(s2, p, U32(va + 4096), page + 1, perm, len - 1);
        OneRound(s, p, va, page, perm, len - 1);
        OneRound(s, p, va, page, perm, Mappable(TablesOf(s2, p), 0, u + 1, len - 1));
      } else {
        EnsureCost(s, p, u / 1024);
        RefusedTable(s, p, DirOf(va));
      }
    }
  }

  lemma OneRound(s: Vm, p: nat, va: Word, page: nat, perm: nat, len: nat)
    requires p < NUM_IDS && HasTable(s, p, DirOf(va))
    ensures var s2 := SetPtbl(s, p, DirOf(va), TblOf(va), page, perm);
            var (s', n) := MapLoop(s2, p, U32(va + 4096), page + 1, perm, len);
            MapLoop(s, p, va, page, perm, len + 1) == (s', n + 1)
  {
    NoNewTable(s, s.pmm, p, DirOf(va), TblOf(va), page, perm);
    hide EnsureTable, SetPtbl, DirOf, TblOf;
  }

  lemma RefusedTable(s: Vm, p: nat, i: nat)
    requires Slot(p, i) && !HasTable(s, p, i) && !EnsureTable(s, p, i).1
    ensures EnsureTable(s, p, i).0 == s.(pmm := Alloc(s.pmm, p).0)
  {
    hide Alloc;
  }

  // ----- When frames are mapped that nobody handed out

  /** If the loop allocates at all, the lowest free page becomes a page table. */
  lemma {:induction false} LoopTakesLowest(s: Vm, p: nat, va: Word, page: nat, perm: nat, len: nat)
    requires TableInv(s) && Sound(s.pmm) && 1 <= p < NUM_IDS && UserRange(va / 4096, len) && Avail(s.pmm, p) >= 1
    ensures var s' := MapLoop(s, p, va, page, perm, len).0;
            s'.pmm == s.pmm || exists d :: HasTable(s', p, d) && TableOf(s', p, d) == LowestFree(s.pmm.at)
    decreases len
  {
    hide TableInv, Sound, Avail, TablesOf, DirOf, TblOf;
    if len > 0 {
      var u := va / 4096;
      assert UserPage(u);
      MapStepTables(s, p, va, page, perm);
      EnsureCost(s, p, u / 1024);
      NextPage(va);
      var s1 := EnsureTable(s, p, DirOf(va)).0;
      var s2 := SetPtbl(s1, p, DirOf(va), TblOf(va), page, perm);
      var s' := MapLoop(s, p, va, page, perm, len).0;
      if HasTable(s, p, u / 1024) {
        NoNewTable(s, s.pmm, p, DirOf(va), TblOf(va), page, perm);
        LoopTakesLowest(s2, p, U32(va + 4096), page + 1, perm, len - 1);
      } else {
        TableIsLowest(s, p, DirOf(va));
        SameTables(s1, s2, p, u / 1024);
        LoopKeepsTables(s2, p, U32(va + 4096), page + 1, perm, len - 1, u / 1024);
      }
    }
  }

  lemma SameTables(s: Vm, s': Vm, p: nat, d: int)
    requires s'.pdir == s.pdir && HasTable(s, p, d)
    ensures HasTable(s', p, d) && TableOf(s', p, d) == TableOf(s, p, d)
  {
  }

  lemma TableIsLowest(s: Vm, p: nat, i: nat)
    requires Slot(p, i) && !HasTable(s, p, i) && EnsureTable(s, p, i).1
    ensures var s1 := EnsureTable(s, p, i).0;
            HasTable(s1, p, i) && TableOf(s1, p, i) == LowestFree(s.pmm.at)
  {
    var r := AllocFrame(s, p).1;
    EntryFields(r, PTU);
  }

  /** A user page mapped to a frame that is not handed out, or is a page table, breaks the invariant. */
  lemma BadFrame(s: Vm, p: nat, u: int, f: nat, perm: nat)
    requires 1 <= p < NUM_IDS && UserPage(u) && f < TABLE_SIZE && perm < 4096 && Present(perm) && Flat(s, p, u) == Entry(f, perm)
    requires !IsTaken(s.pmm.at, f) || exists d :: HasTable(s, p, d) && TableOf(s, p, d) == f
    ensures !FrameInv(s)
  {
    hide FrameInv, Flat, Entry;
    FlatUser(s, p, u);
    EntryFields(f, perm);
    CellsOfPage(u);
    if !IsTaken(s.pmm.at, f) {
      LooseFrame(s, p, u / 1024, u % 1024);
    } else {
      var d :| HasTable(s, p, d) && TableOf(s, p, d) == f;
      TableFrame(s, p, u / 1024, u % 1024, d);
    }
  }

  lemma LooseFrame(s: Vm, p: nat, i: int, j: int)
    requires Mapped(s, p, i, j) && !IsTaken(s.pmm.at, FrameOf(s, p, i, j))
    ensures !FrameInv(s)
  {
  }

  lemma TableFrame(s: Vm, p: nat, i: int, j: int, d: int)
    requires Mapped(s, p, i, j) && HasTable(s, p, d) && TableOf(s, p, d) == FrameOf(s, p, i, j)
    ensures !FrameInv(s)
  {
  }

  // ----- The exact condition

  /** A request within quota for more pages than are free. */
  ghost predicate Overruns(s: Vm, p: nat, len: nat)
    requires p < NUM_IDS
  {
    s.pmm.cont[p].usage + len <= s.pmm.cont[p].quota && 0 < |FreePages(s.pmm.at)| < len
  }

  /** How many pages such a request maps: those whose page table is there or can still be had. */
  ghost function Reach(s: Vm, p: nat, u: int, len: nat): (n: nat)
    requires p < NUM_IDS && len > 0 && LowestFree(s.pmm.at) != 0
  {
    var quota := Slack(s.pmm.cont[p]) - len;
    var free := |FreePages(s.pmm.at)| - TakenBy(s.pmm.at, len);
    Mappable(TablesOf(s, p), if quota < free then quota else free, u, len)
  }

  /** The pages it maps are among those it took, counting the one it loses when it stops with no quota
      left; and the pages it was charged for and did not take are covered by pages lost before. */
  ghost predicate Survives(s: Vm, p: nat, u: int, perm: nat, len: nat)
    requires p < NUM_IDS && perm < 4096 && len > 0 && LowestFree(s.pmm.at) != 0
  {
    var n, c := Reach(s, p, u, len), TakenBy(s.pmm.at, len);
    var quota, free := Slack(s.pmm.cont[p]) - len, |FreePages(s.pmm.at)| - c;
    && (Present(perm) ==> n <= c + if quota == 0 && free > 0 then 1 else 0)
    && Lost(s.pmm) + c + (if n < len && quota < free then 1 else 0) >= len
  }

  /** The state between taking the pages and mapping them. */
  lemma Between(s: Vm, p: nat, va: Word, perm: nat, len: Word, lo: nat, hi: nat, next: nat)
    requires Inv(s) && 1 <= p < NUM_IDS && len >= 1 && UserRange(va / 4096, len) && Ledger.Prefix(s.pmm.at, lo, hi, next)
    requires Overruns(s, p, len)
    ensures LowestFree(s.pmm.at) == next && next < hi
    ensures var m := ConsecutiveAlloc(s.pmm, p, len).0;
            var (s1, c) := (s.(pmm := m), TakenBy(s.pmm.at, len));
            var (s', n) := MapLoop(s1, p, va, next, perm, len);
            && AllocConsecutivePage(s, p, va, perm, len).0 == s' && BlockCount(s, p, va, perm, len) == n
            && TableInv(s1) && FrameInv(s1) && Sound(m) && SameViews(s, s1) && SpareRange(s1, next, c)
            && Ledger.Prefix(m.at, lo, hi, next + c) && Avail(m, p) >= 0 && next + c <= hi && c >= 1
            && TableInv(s') && Sound(s'.pmm) && n == Reach(s, p, va / 4096, len)
            && n == Mappable(TablesOf(s1, p), Avail(m, p), va / 4096, len)
            && (Lost(s'.pmm) >= 0 <==>
                Lost(s.pmm) + c + (if n < len && Slack(s.pmm.cont[p]) - len < hi - next - c then 1 else 0) >= len)
            && Slack(m.cont[p]) == Slack(s.pmm.cont[p]) - len && |FreePages(m.at)| == hi - next - c
            && |FreePages(s.pmm.at)| == hi - next
  {
    hide TableInv, FrameInv, PmmInv, Sound, ConsecutiveAlloc, TakenBy, SpareRange, SameViews, MapLoop, Lost, PdirByVa,
         Mappable, TablesOf;
    InvSound(s);
    SomeFree(s.pmm.at, lo, hi, next);
    BlockAlloc(s.pmm, p, len, lo, hi, next);
    BlockStart(s, p, len, lo, hi, next);
    var m := ConsecutiveAlloc(s.pmm, p, len).0;
    SoundFacts(m, p);
    MapLoopCounts(s.(pmm := m), p, va, next, perm, len);
  }

  lemma SomeFree(t: Table, lo: nat, hi: nat, next: nat)
    requires Ledger.Prefix(t, lo, hi, next) && |FreePages(t)| > 0
    ensures next < hi && LowestFree(t) == next
  {
    Ledger.PrefixFree(t, lo, hi, next);
  }

  lemma AllocPrefix(m: Pmm, id: nat, lo: nat, hi: nat, next: nat)
    requires id < NUM_IDS && Ledger.Prefix(m.at, lo, hi, next)
    ensures Ledger.Prefix(Alloc(m, id).0.at, lo, hi, if next < hi then next + 1 else hi)
  {
    Ledger.PrefixFree(m.at, lo, hi, next);
    if next < hi {
      Ledger.SingleMark(m.at, next);
      Ledger.MarkPrefix(m.at, lo, hi, next, 1);
    }
  }

  /** A frame beyond those taken is mapped: the invariant breaks. */
  lemma OverrunBreaks(s1: Vm, p: nat, va: Word, perm: nat, len: Word, lo: nat, hi: nat, top: nat, page: nat)
    requires TableInv(s1) && Sound(s1.pmm) && 1 <= p < NUM_IDS && UserRange(va / 4096, len) && perm < 4096 && Present(perm)
    requires Ledger.Prefix(s1.pmm.at, lo, hi, top) && page <= top && Avail(s1.pmm, p) >= 0 && |FreePages(s1.pmm.at)| == hi - top
    requires MapLoop(s1, p, va, page, perm, len).1 > top - page + if Slack(s1.pmm.cont[p]) == 0 && top < hi then 1 else 0
    ensures !FrameInv(MapLoop(s1, p, va, page, perm, len).0)
  {
    hide TableInv, FrameInv, Sound, MapLoop, TablesOf, Mappable, FreePages;
    var u := va / 4096;
    var (s', n) := MapLoop(s1, p, va, page, perm, len);
    MapLoopFlat(s1, p, va, page, perm, len);
    if Avail(s1.pmm, p) == 0 {
      MapLoopCounts(s1, p, va, page, perm, len);
      StarvedLoop(s1, p, va, page, perm, len);
      AllocPrefix(s1.pmm, p, lo, hi, top);
      var g := if top < hi then top + 1 else hi;
      NotTaken(s1.pmm.at, lo, hi, top, g);
      NotTaken(Alloc(s1.pmm, p).0.at, lo, hi, g, g);
      MappedTo(s1, s', p, u, n, page, perm, g);
      BadFrame(s', p, u + (g - page), g, perm);
    } else {
      LoopTakesLowest(s1, p, va, page, perm, len);
      LowestIs(s1.pmm.at, lo, hi, top);
      NotTaken(s1.pmm.at, lo, hi, top, top);
      MappedTo(s1, s', p, u, n, page, perm, top);
      BadFrame(s', p, u + (top - page), top, perm);
    }
  }

  lemma LowestIs(t: Table, lo: nat, hi: nat, top: nat)
    requires Ledger.Prefix(t, lo, hi, top) && top < hi
    ensures LowestFree(t) == top
  {
    Ledger.PrefixFree(t, lo, hi, top);
  }

  lemma NotTaken(t: Table, lo: nat, hi: nat, next: nat, g: nat)
    requires Ledger.Prefix(t, lo, hi, next) && next <= g
    ensures !IsTaken(t, g) && hi < TABLE_SIZE
  {
  }

  lemma MappedTo(s: Vm, s': Vm, p: int, v: int, n: nat, page: nat, perm: nat, g: nat)
    requires MappedRange(s, s', p, v, n, page, perm) && 0 <= p < NUM_IDS && 0 <= v && v + n <= TABLE_SIZE && page <= g < page + n
    ensures Flat(s', p, v + (g - page)) == Entry(g, perm)
  {
    hide Flat, Entry;
    assert page + (v + (g - page) - v) == g;
  }

  /** The one page that is lost at the stop was mapped just before: the frames are all handed out in
      the end. */
  lemma OverrunByOne(s1: Vm, p: nat, va: Word, perm: nat, len: Word, lo: nat, hi: nat, top: nat, page: nat)
    requires TableInv(s1) && FrameInv(s1) && Sound(s1.pmm) && 1 <= p < NUM_IDS && UserRange(va / 4096, len)
    requires perm < 4096 && !Super(perm) && Ledger.Prefix(s1.pmm.at, lo, hi, top) && page <= top < hi
    requires Slack(s1.pmm.cont[p]) == 0 && SpareRange(s1, page, top - page)
    requires MapLoop(s1, p, va, page, perm, len).1 == top - page + 1 < len
    ensures var (s', n) := MapLoop(s1, p, va, page, perm, len);
            TableInv(s') && FrameInv(s') && Abs(s') == ActAll(Abs(s1), Fills(p, va / 4096, n, perm))
  {
    hide TableInv, FrameInv, Sound, MapLoop, TablesOf, Mappable, Abs, ActAll, Fills, SpareRange, SameViews, Alloc;
    var n := top - page + 1;
    var m := Alloc(s1.pmm, p).0;
    var s2 := s1.(pmm := m);
    NothingAvail(s1.pmm, p);
    MapLoopCounts(s1, p, va, page, perm, len);
    StarvedLoop(s1, p, va, page, perm, len);
    MappablePrefix(TablesOf(s1, p), va / 4096, len);
    TablesThere(s1, m, p, va, page, perm, n);
    LostIsSpare(s1, p, lo, hi, top, page);
    SameViewsAbs(s1, s2);
    assert page + n <= TABLE_SIZE by {
      NotTaken(s1.pmm.at, lo, hi, top, top);
    }
    MapLoopFills(s2, p, va, page, perm, n, n);
  }

  lemma NothingAvail(m: Pmm, p: nat)
    requires p < NUM_IDS && Slack(m.cont[p]) == 0
    ensures Avail(m, p) == 0
  {
  }

  lemma LostIsSpare(s: Vm, p: nat, lo: nat, hi: nat, top: nat, page: nat)
    requires TableInv(s) && FrameInv(s) && p < NUM_IDS && Ledger.Prefix(s.pmm.at, lo, hi, top) && page <= top < hi
    requires SpareRange(s, page, top - page)
    ensures var s2 := s.(pmm := Alloc(s.pmm, p).0);
            TableInv(s2) && FrameInv(s2) && SameViews(s, s2) && SpareRange(s2, page, top - page + 1)
  {
    var s2 := s.(pmm := Alloc(s.pmm, p).0);
    assert s2 == AllocFrame(s, p).0;
    AllocFrameTables(s, p);
    AllocFrameFrames(s, p);
    SameEnts(s, s2);
    StructuresViews(s, s2);
    AllocPrefix(s.pmm, p, lo, hi, top);
    PrefixPages(s.pmm.at, lo, hi, top);
    PrefixPages(s2.pmm.at, lo, hi, top + 1);
    hide AllocFrame, Alloc, Spare;
    forall f | page <= f < top + 1 ensures Spare(s2, f) {
      if f < top {
        assert Spare(s, f);
        StillSpare(s, p, f);
      } else {
        TakenIsSpare(s, s2, f);
      }
    }
  }

  lemma StillSpare(s: Vm, p: nat, f: int)
    requires p < NUM_IDS && Spare(s, f)
    ensures Spare(s.(pmm := Alloc(s.pmm, p).0), f)
  {
    AllocSpare(s, p, f);
  }

  lemma CountLeaves(t: Table, len: nat)
    requires LowestFree(t) != 0 && len > 0 && |FreePages(t)| < len && |FreePages(t)| <= USERHI_PI - LowestFree(t)
    ensures TakenBy(t, len) < |FreePages(t)| ==> TakenBy(t, len) + 1 < len
  {
    MarkedAtMost(LowestFree(t), len);
  }

  /** A request within quota for more pages than are free keeps the invariant exactly under `Survives`, and
      then is as many zero fills as pages it reaches. */
  lemma OverrunIff(s: Vm, p: nat, va: Word, perm: nat, len: Word, lo: nat, hi: nat, next: nat)
    requires Inv(s) && 1 <= p < NUM_IDS && len >= 1 && UserRange(va / 4096, len) && perm < 4096 && !Super(perm)
    requires Ledger.Prefix(s.pmm.at, lo, hi, next) && Overruns(s, p, len)
    ensures LowestFree(s.pmm.at) != 0
    ensures var s' := AllocConsecutivePage(s, p, va, perm, len).0;
            (Inv(s') <==> Survives(s, p, va / 4096, perm, len))
            && (Survives(s, p, va / 4096, perm, len) ==>
                  Abs(s') == ActAll(Abs(s), Fills(p, va / 4096, BlockCount(s, p, va, perm, len), perm)))
  {
    hide TableInv, FrameInv, Sound, ConsecutiveAlloc, TakenBy, SpareRange, SameViews, MapLoop, Lost, Mappable, TablesOf,
         Reach, AllocConsecutivePage, BlockCount, Abs, ActAll, Fills, FreePages, LowestFree, MarkedCount;
    Between(s, p, va, perm, len, lo, hi, next);
    var m := ConsecutiveAlloc(s.pmm, p, len).0;
    var (s1, c) := (s.(pmm := m), TakenBy(s.pmm.at, len));
    var (s', n) := MapLoop(s1, p, va, next, perm, len);
    SameViewsAbs(s, s1);
    PmmIs(s'.pmm);
    NotTaken(m.at, lo, hi, next + c, next + c);
    var extra := if Slack(m.cont[p]) == 0 && next + c < hi then 1 else 0;
    if Present(perm) && n > c + extra {
      OverrunBreaks(s1, p, va, perm, len, lo, hi, next + c, next);
    } else if Present(perm) && n > c {
      RegionEnds(s.pmm.at, lo, hi, next);
      CountLeaves(s.pmm.at, len);
      OverrunByOne(s1, p, va, perm, len, lo, hi, next + c, next);
    } else {
      MapLoopFills(s1, p, va, next, perm, len, c);
    }
  }

  lemma PmmIs(m: Pmm)
    ensures PmmInv(m) <==> Sound(m) && Lost(m) >= 0
  {
  }

  lemma RegionEnds(t: Table, lo: nat, hi: nat, next: nat)
    requires Ledger.Prefix(t, lo, hi, next) && next < hi
    ensures LowestFree(t) == next && |FreePages(t)| == hi - next <= USERHI_PI - next
  {
    Ledger.PrefixFree(t, lo, hi, next);
  }

  // ----- In plain terms

  lemma {:induction false} AllMappable(have: set<int>, left: int, u: int, len: nat)
    requires forall x :: u <= x < u + len ==> x / 1024 in have
    ensures Mappable(have, left, u, len) == len
    decreases len
  {
    if len > 0 {
      assert u / 1024 in have;
      AllMappable(have, left, u + 1, len - 1);
    }
  }

  lemma NoWrapTakesAll(t: Table, len: nat)
    requires LowestFree(t) != 0 && 0 < |FreePages(t)| < len && LowestFree(t) + len <= USERHI_PI
    ensures TakenBy(t, len) == |FreePages(t)|
  {
  }

  /** Below the top of the user range the condition is that a missing page table stops the mapping before
      the pages run out. */
  lemma SurvivesBelowTop(s: Vm, p: nat, u: int, perm: nat, len: Word)
    requires Inv(s) && p < NUM_IDS && perm < 4096 && len >= 1 && Overruns(s, p, len) && LowestFree(s.pmm.at) != 0
    requires LowestFree(s.pmm.at) + len <= USERHI_PI
    ensures Survives(s, p, u, perm, len) <==>
            (Present(perm) ==> Mappable(TablesOf(s, p), 0, u, len) <= |FreePages(s.pmm.at)|)
  {
    NoWrapTakesAll(s.pmm.at, len);
    SlackBelowTotal(s.pmm, p);
    hide TakenBy, Mappable, TablesOf, PmmInv, TableInv, FrameInv;
  }

  lemma SlackBelowTotal(m: Pmm, p: nat)
    requires PmmInv(m) && p < NUM_IDS
    ensures Slack(m.cont[p]) <= Lost(m) + |FreePages(m.at)|
  {
    SlackAtLeast(m.cont, p, NUM_IDS);
  }

  /** The failure itself: with the page tables of the range in place, a request within quota that is larger
      than what is left succeeds and maps, writable, a frame past the end of the region. */
  lemma BlockPastTheRegion(s: Vm, p: nat, va: Word, len: Word, lo: nat, hi: nat, next: nat)
    requires Inv(s) && 1 <= p < NUM_IDS && UserRange(va / 4096, len) && Ledger.Prefix(s.pmm.at, lo, hi, next)
    requires next < hi < next + len <= USERHI_PI && s.pmm.cont[p].usage + len <= s.pmm.cont[p].quota
    requires forall x :: va / 4096 <= x < va / 4096 + len ==> x / 1024 in TablesOf(s, p)
    ensures var (s', ret) := AllocConsecutivePage(s, p, va, PTU, len);
            ret != MAGIC && Flat(s', p, va / 4096 + (hi - next)) == Entry(hi, PTU) && !IsNorm(s'.pmm.at, hi) && !Inv(s')
  {
    hide TableInv, FrameInv, PmmInv, Sound, ConsecutiveAlloc, MapLoop, SpareRange, SameViews, Lost, Flat, Entry, FreePages,
         Mappable, PdirByVa;
    var u := va / 4096;
    RegionEnds(s.pmm.at, lo, hi, next);
    Between(s, p, va, PTU, len, lo, hi, next);
    NoWrapTakesAll(s.pmm.at, len);
    var m := ConsecutiveAlloc(s.pmm, p, len).0;
    var s1 := s.(pmm := m);
    SameTablesOf(s, s1, p);
    AllMappable(TablesOf(s1, p), Avail(m, p), u, len);
    var s' := MapLoop(s1, p, va, next, PTU, len).0;
    MapLoopFlat(s1, p, va, next, PTU, len);
    MappedTo(s1, s', p, u, len, next, PTU, hi);
    BlockReturns(s1, p, va, next, PTU, len);
    LoopNormal(s1, p, va, next, PTU, len, hi);
    NotNormal(m.at, lo, hi, hi);
    BadFrame(s', p, u + (hi - next), hi, PTU);
  }

  lemma NotNormal(t: Table, lo: nat, hi: nat, next: nat)
    requires Ledger.Prefix(t, lo, hi, next)
    ensures !IsNorm(t, hi)
  {
  }

  lemma {:induction false} LoopNormal(s: Vm, p: nat, va: Word, page: nat, perm: nat, len: nat, i: int)
    requires p < NUM_IDS
    ensures IsNorm(MapLoop(s, p, va, page, perm, len).0.pmm.at, i) <==> IsNorm(s.pmm.at, i)
    decreases len
  {
    if len > 0 {
      EnsureNormal(s, p, DirOf(va), i);
      hide EnsureTable, IsNorm;
      var (s1, ok) := EnsureTable(s, p, DirOf(va));
      if ok {
        LoopNormal(SetPtbl(s1, p, DirOf(va), TblOf(va), page, perm), p, U32(va + 4096), page + 1, perm, len - 1, i);
      }
    }
  }

  lemma EnsureNormal(s: Vm, p: nat, i: nat, f: int)
    requires p < NUM_IDS
    ensures IsNorm(EnsureTable(s, p, i).0.pmm.at, f) <==> IsNorm(s.pmm.at, f)
  {
  }
}
