/** Mapping and unmapping by virtual address (layers MPTOp, MPTComm, MPTKern, MPTNew), and the
    proof that the two-level structure behaves as a flat map from virtual pages to entries. */
module Mapping {
  import opened Words
  import opened AllocTable
  import opened Containers
  import opened PageTables

  const MAGIC: Word := 1048577

  datatype Option<T> = None | Some(value: T)

  function DirOf(va: Word): (i: nat)
    ensures i < 1024
  {
    va / 0x40_0000
  }

  function TblOf(va: Word): (j: nat)
    ensures j < 1024
  {
    (va / 4096) % 1024
  }

  /** The directory index, table index and offset of an address determine it, and conversely. */
  lemma SplitIsBijection(i: nat, j: nat, off: nat, va: Word)
    requires i < 1024 && j < 1024 && off < 4096
    ensures DirOf(va) == i && TblOf(va) == j && va % 4096 == off <==> va == i * 0x40_0000 + j * 4096 + off
  {
    assert va / 0x40_0000 == (va / 4096) / 1024;
  }

  /** The mask-and-shift forms of the code compute these indices. */
  lemma MaskAndShift(va: Word)
    ensures ShiftRight(BitAnd(va, 0xFFC0_0000), 22) == DirOf(va)
    ensures ShiftRight(BitAnd(va, 0x003F_F000), 12) == TblOf(va)
  {
    hide BitAnd, ShiftRight, ShiftLeft, Ones;
    Shift22(va);
    Shift22(1023);
    AndShifted(va, 1023, 22);
    TenBits(va / 0x40_0000);
    Shift22(va / 0x40_0000);
    Shift22(0x40_0000 * (va / 0x40_0000));
    Shift12(va);
    Shift12(1023);
    AndShifted(va, 1023, 12);
    TenBits(va / 4096);
    Shift12(va / 4096 % 1024);
    Shift12(4096 * (va / 4096 % 1024));
  }

  predicate UserPage(v: int) {
    USERLO * 1024 <= v < USERHI * 1024
  }

  /** The entry as an access sees it: 0 unless present. */
  function Seen(e: Word): (r: Word) { if Present(e) then e else 0 }

  function EntryAt(s: Vm, p: nat, i: nat, j: nat): (e: Word) {
    if !Present(GetPdir(s, p, i)) then 0 else Seen(GetPtbl(s, p, i, j))
  }

  /** `get_ptbl_entry_by_va` */
  function EntryByVa(s: Vm, p: nat, va: Word): (e: Word) {
    EntryAt(s, p, DirOf(va), TblOf(va))
  }

  /** `get_pdir_entry_by_va` */
  function PdirByVa(s: Vm, p: nat, va: Word): (e: Word) {
    Seen(GetPdir(s, p, DirOf(va)))
  }

  /** The `alloc_ptbl` call made where a directory entry is missing; false when it fails. */
  function EnsureTable(s: Vm, p: nat, i: nat): (res: (Vm, bool))
    requires p < NUM_IDS
  {
    if Seen(GetPdir(s, p, i)) != 0 then (s, true)
    else
      var (s1, r) := AllocFrame(s, p);
      if r == 0 then (s1, false) else (SetPdir(s1, p, i, r), true)
  }

  function MapPage(s: Vm, p: nat, va: Word, page: nat, perm: nat): (res: (Vm, Word))
    requires p < NUM_IDS
  {
    var (s1, ok) := EnsureTable(s, p, DirOf(va));
    if !ok then (s1, MAGIC)
    else
      var s2 := SetPtbl(s1, p, DirOf(va), TblOf(va), page, perm);
      (s2, PdirByVa(s2, p, va))
  }

  /** The loop of `map_consecutive_page`: the final state and how many pages were mapped. */
  function MapLoop(s: Vm, p: nat, va: Word, page: nat, perm: nat, len: nat): (res: (Vm, nat))
    requires p < NUM_IDS
    ensures res.1 <= len
    decreases len, s
  {
    if len == 0 then (s, 0)
    else
      var (s1, ok) := EnsureTable(s, p, DirOf(va));
      if !ok then (s1, 0)
      else
        var (s2, n) := MapLoop(SetPtbl(s1, p, DirOf(va), TblOf(va), page, perm), p, U32(va + 4096), page + 1, perm, len - 1);
        (s2, n + 1)
  }

  function MapConsecutive(s: Vm, p: nat, va: Word, page: nat, perm: nat, len: nat): (res: (Vm, Word))
    requires p < NUM_IDS
  {
    var (s', n) := MapLoop(s, p, va, page, perm, len);
    (s', if n < len then MAGIC else PdirByVa(s', p, va))
  }

  /** The loop of `unmap_consecutive_page`, which stops at the first missing mapping. */
  function UnmapLoop(s: Vm, p: nat, va: Word, len: nat): (res: (Vm, nat))
    requires p < NUM_IDS
    ensures res.1 <= len
    decreases len, s
  {
    if len == 0 || EntryByVa(s, p, va) == 0 then (s, 0)
    else
      var (s', n) := UnmapLoop(SetWord(s, p, DirOf(va), TblOf(va), 0), p, U32(va + 4096), len - 1);
      (s', n + 1)
  }

  /** The scan of `unmap_page` for the first page of a super page after `n` rounds: how far back it
      has got, and whether it is still running.  The test looks at the page before `va` every time. */
  function ScanAfter(s: Vm, p: nat, va: Word, n: nat): (res: (Word, bool))
    decreases n, va
  {
    if n == 0 then (va, true)
    else
      var (now, running) := ScanAfter(s, p, va, n - 1);
      if running && EntryByVa(s, p, U32(va - 4096)) == EntryByVa(s, p, va) then (U32(now - 4096), true) else (now, false)
  }

  /** `unmap_page` if its scan ends within `n` rounds: the new state and the entry; None if the scan is
      still running. */
  function UnmapWithin(s: Vm, p: nat, va: Word, n: nat): (res: Option<(Vm, Word)>)
    requires p < NUM_IDS
  {
    var e := EntryByVa(s, p, va);
    if e == 0 then Some((s, 0))
    else if !Super(e) then Some((SetWord(s, p, DirOf(va), TblOf(va), 0), e))
    else
      var (now, running) := ScanAfter(s, p, va, n);
      if running then None else Some((UnmapLoop(s, p, now, 1024).0, e))
  }

  /** What `unmap_page` does, None where it never returns; `UnmapIsLimit` shows it to be the limit of
      `UnmapWithin`. */
  function UnmapPage(s: Vm, p: nat, va: Word): (res: Option<(Vm, Word)>)
    requires p < NUM_IDS
  {
    var e := EntryByVa(s, p, va);
    if e == 0 then Some((s, 0))
    else if !Super(e) then Some((SetWord(s, p, DirOf(va), TblOf(va), 0), e))
    else if EntryByVa(s, p, U32(va - 4096)) == e then None
    else Some((UnmapLoop(s, p, va, 1024).0, e))
  }

  function AllocPage(s: Vm, p: nat, va: Word, perm: nat): (res: (Vm, Word))
    requires p < NUM_IDS
  {
    var (s1, r) := AllocFrame(s, p);
    if r == 0 then (s1, MAGIC) else MapPage(s1, p, va, r, perm)
  }

  function AllocConsecutivePage(s: Vm, p: nat, va: Word, perm: nat, len: Word): (res: (Vm, Word))
    requires p < NUM_IDS
  {
    var (m, r) := ConsecutiveAlloc(s.pmm, p, len);
    var s1 := s.(pmm := m);
    if r == 0 then (s1, MAGIC) else MapConsecutive(s1, p, va, r, perm, len)
  }

  function AllocSuperPage(s: Vm, p: nat, va: Word, perm: nat): (res: (Vm, Word))
    requires p < NUM_IDS && perm < 4096
  {
    AllocConsecutivePage(s, p, va, WithSuper(perm), 1024)
  }

  /** Indices beyond the tables: the getters answer 0 and the setters do nothing. */
  lemma OutOfRangeIgnored(s: Vm, p: nat, i: nat, j: nat, page: nat, perm: nat)
    ensures p >= 64 || i >= 1024 ==> GetPdir(s, p, i) == 0 && SetPdir(s, p, i, page) == s && SetDir(s, p, i, 0) == s
    ensures p >= 64 || i >= 1024 || j >= 1024 ==>
              GetPtbl(s, p, i, j) == 0 && SetPtbl(s, p, i, j, page, perm) == s && SetWord(s, p, i, j, 0) == s
  {
  }

  /** A block request the container refuses fails and maps nothing. */
  lemma RefusedBlockFails(s: Vm, p: nat, va: Word, perm: nat, len: Word)
    requires p < NUM_IDS && ConsecutiveAlloc(s.pmm, p, len).1 == 0
    ensures var (s', ret) := AllocConsecutivePage(s, p, va, perm, len);
            ret == 1048577 && s'.pdir == s.pdir && s'.phys == s.phys
  {
  }

  // ----- The flat map

  /** The entry of virtual page `v` of process `p`: 0 or a present entry. */
  function Flat(s: Vm, p: int, v: int): (e: Word)
    requires 0 <= p < NUM_IDS && 0 <= v < TABLE_SIZE
  {
    EntryByVa(s, p, v * 4096)
  }

  lemma PageSplit(v: int)
    requires 0 <= v < TABLE_SIZE
    ensures DirOf(v * 4096) == v / 1024 && TblOf(v * 4096) == v % 1024
  {
    assert v * 4096 / 0x40_0000 == v / 1024;
  }

  lemma FlatByVa(s: Vm, p: nat, va: Word)
    requires p < NUM_IDS
    ensures EntryByVa(s, p, va) == Flat(s, p, va / 4096)
  {
    PageSplit(va / 4096);
    assert va / 0x40_0000 == (va / 4096) / 1024;
  }

  lemma FlatUser(s: Vm, p: int, v: int)
    requires 1 <= p < NUM_IDS && UserPage(v)
    ensures Cell(p, v / 1024, v % 1024) && Flat(s, p, v) == Seen(Ent(s, p, v / 1024, v % 1024))
  {
    PageSplit(v);
  }

  /** Outside the user slots of processes 1 to 63 the map is the identity set up at boot: kernel
      pages are global, user pages of process 0 are not, and the very last page is absent. */
  lemma FlatIdentity(s: Vm, p: int, v: int)
    requires KernelDirs(s) && IdTables(s) && 0 <= p < NUM_IDS && 0 <= v < TABLE_SIZE
    requires p == 0 || !UserPage(v)
    ensures Flat(s, p, v) ==
            if v == TABLE_SIZE - 1 then 0
            else Entry(v, if UserPage(v) then PTE_P + PTE_W else PTE_P + PTE_W + PTE_G)
  {
    PageSplit(v);
    IdentityAt(s, p, v / 1024, v % 1024);
    IdEntryIsIdentity(v / 1024, v % 1024);
  }

  lemma IdentityAt(s: Vm, p: int, i: int, j: int)
    requires KernelDirs(s) && IdTables(s) && 0 <= p < NUM_IDS && 0 <= i < 1024 && 0 <= j < 1024 && !Slot(p, i)
    ensures EntryAt(s, p, i, j) == Seen(IdEntry(i, j))
  {
    EntryFields(s.idBase + i, PTU);
    assert IdWord(s, i, j) == IdEntry(i, j);
  }

  lemma IdEntryIsIdentity(i: nat, j: nat)
    requires i < 1024 && j < 1024
    ensures Seen(IdEntry(i, j)) ==
            if i * 1024 + j == TABLE_SIZE - 1 then 0
            else Entry(i * 1024 + j, if UserPage(i * 1024 + j) then PTE_P + PTE_W else PTE_P + PTE_W + PTE_G)
  {
    var v := i * 1024 + j;
    EntryFields(v, PTE_P + PTE_W);
    EntryFields(v, PTE_P + PTE_W + PTE_G);
  }

  /** The flat map of `s'` is that of `s` with the `n` pages from `v` of process `p` mapped to the
      `n` frames from `page`. */
  ghost predicate MappedRange(s: Vm, s': Vm, p: int, v: int, n: nat, page: nat, perm: nat) {
    forall q, u :: 0 <= q < NUM_IDS && 0 <= u < TABLE_SIZE ==>
      Flat(s', q, u) == if q == p && v <= u < v + n then Entry(page + (u - v), perm) else Flat(s, q, u)
  }

  /** The flat map of `s'` is that of `s` without the `n` pages from `v` of process `p`. */
  ghost predicate ClearedRange(s: Vm, s': Vm, p: int, v: int, n: nat) {
    forall q, u :: 0 <= q < NUM_IDS && 0 <= u < TABLE_SIZE ==>
      Flat(s', q, u) == if q == p && v <= u < v + n then 0 else Flat(s, q, u)
  }

  ghost predicate SameFlat(s: Vm, s': Vm) {
    forall q, u :: 0 <= q < NUM_IDS && 0 <= u < TABLE_SIZE ==> Flat(s', q, u) == Flat(s, q, u)
  }

  /** Equal entries in the user slots mean equal flat maps. */
  lemma SameEntsSameFlat(s: Vm, s': Vm)
    requires TableInv(s) && TableInv(s')
    requires SameEntries(s, s')
    ensures SameFlat(s, s')
  {
    forall q, u | 0 <= q < NUM_IDS && 0 <= u < TABLE_SIZE ensures Flat(s', q, u) == Flat(s, q, u) {
      if q != 0 && UserPage(u) {
        FlatUser(s, q, u);
        FlatUser(s', q, u);
      } else {
        FlatIdentity(s, q, u);
        FlatIdentity(s', q, u);
      }
    }
  }

  lemma PointFlat(s: Vm, s': Vm, p: int, v: int, e: Word)
    requires TableInv(s) && TableInv(s') && 1 <= p < NUM_IDS && UserPage(v)
    requires forall q, k, l :: Cell(q, k, l) ==>
               Ent(s', q, k, l) == if q == p && k == v / 1024 && l == v % 1024 then e else Ent(s, q, k, l)
    ensures forall q, u :: 0 <= q < NUM_IDS && 0 <= u < TABLE_SIZE ==>
              Flat(s', q, u) == if q == p && u == v then Seen(e) else Flat(s, q, u)
  {
    forall q, u | 0 <= q < NUM_IDS && 0 <= u < TABLE_SIZE
      ensures Flat(s', q, u) == if q == p && u == v then Seen(e) else Flat(s, q, u)
    {
      if q != 0 && UserPage(u) {
        FlatUser(s, q, u);
        FlatUser(s', q, u);
        assert u / 1024 == v / 1024 && u % 1024 == v % 1024 ==> u == v;
      } else {
        FlatIdentity(s, q, u);
        FlatIdentity(s', q, u);
      }
    }
  }

  // ----- Making sure there is a table

  lemma EnsureTableKeeps(s: Vm, p: nat, i: nat)
    requires TableInv(s) && Slot(p, i)
    ensures var (s', ok) := EnsureTable(s, p, i);
            TableInv(s') && SameEntries(s, s') && s'.phys == s.phys && s'.idBase == s.idBase
            && (ok ==> HasTable(s', p, i))
            && (ok <==> HasTable(s, p, i) || AllocFrame(s, p).1 != 0)
            && (forall x :: 0 <= x < NUM_IDS ==> s'.pmm.cont[x].used == s.pmm.cont[x].used)
  {
    if !HasTable(s, p, i) {
      var (s1, r) := AllocFrame(s, p);
      AllocFrameTables(s, p);
      SameEnts(s, s1);
      if r != 0 {
        InstallTables(s1, p, i, r);
        InstallEnts(s1, p, i, r);
      }
    }
  }

  lemma EnsureTableFrames(s: Vm, p: nat, i: nat)
    requires TableInv(s) && FrameInv(s) && Slot(p, i)
    ensures var (s', ok) := EnsureTable(s, p, i);
            FrameInv(s') && forall f :: Spare(s, f) ==> Spare(s', f)
  {
    if !HasTable(s, p, i) {
      var (s1, r) := AllocFrame(s, p);
      AllocFrameTables(s, p);
      AllocFrameFrames(s, p);
      SameEnts(s, s1);
      if r != 0 {
        InstallFrames(s1, p, i, r);
      }
      forall f | Spare(s, f) ensures Spare(EnsureTable(s, p, i).0, f) {
        AllocSpare(s, p, f);
        if r != 0 {
          InstallSpare(s1, p, i, r, f);
        }
      }
    }
  }

  lemma EnsureTablePmm(s: Vm, p: nat, i: nat)
    requires PmmInv(s.pmm) && p < NUM_IDS
    ensures PmmInv(EnsureTable(s, p, i).0.pmm)
  {
    AllocKeeps(s.pmm, p);
  }

  // ----- map_page

  lemma MapPagePoint(s: Vm, p: nat, va: Word, page: nat, perm: nat)
    requires TableInv(s) && 1 <= p < NUM_IDS && UserPage(va / 4096) && perm < 4096
    ensures var (s', ret) := MapPage(s, p, va, page, perm);
            TableInv(s')
            && (ret == MAGIC <==> !HasTable(s, p, DirOf(va)) && AllocFrame(s, p).1 == 0)
            && (ret != MAGIC ==> Slot(p, DirOf(va)) && Frame(ret) == TableOf(s', p, DirOf(va)) && Perm(ret) == 7)
            && forall q, u :: 0 <= q < NUM_IDS && 0 <= u < TABLE_SIZE ==>
                 Flat(s', q, u) == if ret != MAGIC && q == p && u == va / 4096 then Seen(Entry(page, perm)) else Flat(s, q, u)
  {
    var i, j, v := DirOf(va), TblOf(va), va / 4096;
    var (s1, ok) := EnsureTable(s, p, DirOf(va));
    assert i == v / 1024 && j == v % 1024;
    EnsureTableKeeps(s, p, i);
    SameEntsSameFlat(s, s1);
    if ok {
      var e := Entry(page, perm);
      WriteTables(s1, p, i, j, e);
      WriteEnts(s1, p, i, j, e);
      PointFlat(s1, SetWord(s1, p, i, j, e), p, v, e);
      assert Perm(s1.pdir[p][i]) == PTU && Perm(MAGIC) == 1;
    }
  }

  /** A successful `map_page` changes the flat map at one point of one process, even when it has to
      allocate a page table, and returns the directory entry: the frame of the page table with P, W and U.
      A failed one changes it nowhere.  It fails exactly when there is no page table and no page to make
      one of. */
  lemma MapPageUpdatesOnePoint(s: Vm, p: nat, va: Word, page: nat, perm: nat)
    requires TableInv(s) && 1 <= p < NUM_IDS && UserPage(va / 4096) && page < TABLE_SIZE && perm < 4096
    ensures var (s', ret) := MapPage(s, p, va, page, perm);
            TableInv(s')
            && (ret == MAGIC <==> !HasTable(s, p, DirOf(va)) && AllocFrame(s, p).1 == 0)
            && (ret != MAGIC ==> Slot(p, DirOf(va)) && Frame(ret) == TableOf(s', p, DirOf(va)) && Perm(ret) == 7)
            && forall q, u :: 0 <= q < NUM_IDS && 0 <= u < TABLE_SIZE ==>
                 Flat(s', q, u) == if ret != MAGIC && q == p && u == va / 4096 then Seen(page * 4096 + perm) else Flat(s, q, u)
  {
    hide TableInv, MapPage, Flat, AllocFrame;
    EntryFields(page, perm);
    MapPagePoint(s, p, va, page, perm);
  }

  // ----- Ranges

  predicate UserRange(v: int, n: nat) {
    USERLO * 1024 <= v && v + n <= USERHI * 1024
  }

  lemma NextPage(va: Word)
    requires va < 0xFFFF_F000
    ensures U32(va + 4096) / 4096 == va / 4096 + 1
  {
  }

  lemma NothingMapped(s: Vm, s': Vm, p: int, v: int, page: nat, perm: nat)
    requires s == s' || SameFlat(s, s')
    ensures MappedRange(s, s', p, v, 0, page, perm)
  {
  }

  lemma NothingCleared(s: Vm, p: int, v: int)
    ensures ClearedRange(s, s, p, v, 0)
  {
  }

  lemma MappedAppend(s: Vm, s1: Vm, s2: Vm, p: int, v: int, n: nat, page: nat, perm: nat)
    requires MappedRange(s, s1, p, v, 1, page, perm) && MappedRange(s1, s2, p, v + 1, n, page + 1, perm)
    ensures MappedRange(s, s2, p, v, n + 1, page, perm)
  {
  }

  lemma ClearedAppend(s: Vm, s1: Vm, s2: Vm, p: int, v: int, n: nat)
    requires ClearedRange(s, s1, p, v, 1) && ClearedRange(s1, s2, p, v + 1, n)
    ensures ClearedRange(s, s2, p, v, n + 1)
  {
  }

  /** One round of the mapping loop. */
  lemma MapStepFlat(s: Vm, p: nat, va: Word, page: nat, perm: nat)
    requires TableInv(s) && 1 <= p < NUM_IDS && UserPage(va / 4096) && perm < 4096 && Present(perm)
    ensures var (s1, ok) := EnsureTable(s, p, DirOf(va));
            var s2 := SetPtbl(s1, p, DirOf(va), TblOf(va), page, perm);
            if ok then TableInv(s2) && MappedRange(s, s2, p, va / 4096, 1, page, perm)
            else TableInv(s1) && SameFlat(s, s1)
  {
    assert DirOf(va) == va / 4096 / 1024;
    MapPagePoint(s, p, va, page, perm);
    EnsureTableKeeps(s, p, DirOf(va));
    EntryPerm(page, perm);
  }

  /** `map_consecutive_page` over any number of page tables maps exactly the pages it counts, in
      order, and leaves every other page of every process as it was. */
  lemma {:induction false} MapLoopFlat(s: Vm, p: nat, va: Word, page: nat, perm: nat, len: nat)
    requires TableInv(s) && 1 <= p < NUM_IDS && UserRange(va / 4096, len)
    requires perm < 4096 && Present(perm)
    ensures var (s', n) := MapLoop(s, p, va, page, perm, len);
            TableInv(s') && MappedRange(s, s', p, va / 4096, n, page, perm)
    decreases len
  {
    hide TableInv, MappedRange, SameFlat;
    if len == 0 {
      NothingMapped(s, s, p, va / 4096, page, perm);
    } else {
      var v := va / 4096;
      var (s1, ok) := EnsureTable(s, p, DirOf(va));
      MapStepFlat(s, p, va, page, perm);
      if ok {
        var s2 := SetPtbl(s1, p, DirOf(va), TblOf(va), page, perm);
        NextPage(va);
        var va' := U32(va + 4096);
        MapLoopFlat(s2, p, va', page + 1, perm, len - 1);
        var (s', n) := MapLoop(s2, p, va', page + 1, perm, len - 1);
        MappedAppend(s, s2, s', p, v, n, page, perm);
      } else {
        NothingMapped(s, s1, p, v, page, perm);
      }
    }
  }

  lemma ClearPoint(s: Vm, p: nat, va: Word)
    requires TableInv(s) && 1 <= p < NUM_IDS && UserPage(va / 4096) && EntryByVa(s, p, va) != 0
    ensures var s' := SetWord(s, p, DirOf(va), TblOf(va), 0);
            TableInv(s') && ClearedRange(s, s', p, va / 4096, 1)
  {
    var i, j, v := DirOf(va), TblOf(va), va / 4096;
    assert i == v / 1024 && j == v % 1024;
    WriteTables(s, p, i, j, 0);
    WriteEnts(s, p, i, j, 0);
    PointFlat(s, SetWord(s, p, i, j, 0), p, v, 0);
  }

  /** `unmap_consecutive_page` clears the mapped pages in front of the first unmapped one. */
  lemma {:induction false} UnmapLoopFlat(s: Vm, p: nat, va: Word, len: nat)
    requires TableInv(s) && 1 <= p < NUM_IDS && UserRange(va / 4096, len)
    ensures var (s', n) := UnmapLoop(s, p, va, len);
            TableInv(s') && ClearedRange(s, s', p, va / 4096, n)
            && (n < len ==> Flat(s, p, va / 4096 + n) == 0)
    decreases len
  {
    hide TableInv, ClearedRange, Flat, EntryByVa, SetWord, DirOf, TblOf;
    if len > 0 {
      FlatByVa(s, p, va);
    }
    if len == 0 || EntryByVa(s, p, va) == 0 {
      NothingCleared(s, p, va / 4096);
    } else {
      var v := va / 4096;
      var s1 := SetWord(s, p, DirOf(va), TblOf(va), 0);
      var va' := U32(va + 4096);
      ClearPoint(s, p, va);
      NextPage(va);
      UnmapLoopFlat(s1, p, va', len - 1);
      var (s', n) := UnmapLoop(s1, p, va', len - 1);
      ClearedAppend(s, s1, s', p, v, n);
      if n < len - 1 {
        ClearedElsewhere(s, s1, p, v, 1, v + 1 + n);
      }
    }
  }

  lemma ClearedElsewhere(s: Vm, s': Vm, p: int, v: int, n: nat, u: int)
    requires ClearedRange(s, s', p, v, n) && 0 <= p < NUM_IDS && 0 <= u < TABLE_SIZE && !(v <= u < v + n)
    ensures Flat(s', p, u) == Flat(s, p, u)
  {
  }

  lemma ClearUndoesMap(s: Vm, s1: Vm, s2: Vm, p: int, v: int, n: nat, page: nat, perm: nat)
    requires 0 <= p < NUM_IDS && 0 <= v && v + n <= TABLE_SIZE
    requires MappedRange(s, s1, p, v, n, page, perm) && ClearedRange(s1, s2, p, v, n)
    requires forall u :: v <= u < v + n ==> Flat(s, p, u) == 0
    ensures SameFlat(s, s2)
  {
  }

  /** Mapping an unmapped range and unmapping it again restores the map of every process, whatever
      the length and however many page tables it crosses. */
  lemma MapThenUnmapRestores(s: Vm, p: nat, va: Word, page: nat, perm: nat, len: nat)
    requires TableInv(s) && 1 <= p < NUM_IDS && UserRange(va / 4096, len)
    requires page + len <= TABLE_SIZE && perm < 4096 && Present(perm)
    requires forall u :: va / 4096 <= u < va / 4096 + len ==> Flat(s, p, u) == 0
    requires MapLoop(s, p, va, page, perm, len).1 == len
    ensures var s1 := MapLoop(s, p, va, page, perm, len).0;
            UnmapLoop(s1, p, va, len).1 == len && SameFlat(s, UnmapLoop(s1, p, va, len).0)
  {
    hide TableInv, MappedRange, ClearedRange, SameFlat, MapLoop, UnmapLoop, Flat;
    var s1 := MapLoop(s, p, va, page, perm, len).0;
    var v := va / 4096;
    MapLoopFlat(s, p, va, page, perm, len);
    UnmapLoopFlat(s1, p, va, len);
    var (s2, n) := UnmapLoop(s1, p, va, len);
    if n < len {
      MappedIsNotZero(s, s1, p, v, len, page, perm, v + n);
      assert false;
    }
    ClearUndoesMap(s, s1, s2, p, v, len, page, perm);
  }

  lemma MappedIsNotZero(s: Vm, s': Vm, p: int, v: int, n: nat, page: nat, perm: nat, u: int)
    requires MappedRange(s, s', p, v, n, page, perm) && 0 <= p < NUM_IDS && 0 <= u < TABLE_SIZE && v <= u < v + n
    requires page + n <= TABLE_SIZE && perm < 4096 && Present(perm)
    ensures Flat(s', p, u) != 0
  {
    hide Flat, Entry, Frame;
    var f := page + (u - v);
    EntryFields(f, perm);
    assert Flat(s', p, u) == Entry(f, perm);
  }

  // ----- Super pages

  lemma BlockTables(s: Vm, p: nat, len: Word)
    requires TableInv(s) && p < NUM_IDS
    ensures TableInv(s.(pmm := ConsecutiveAlloc(s.pmm, p, len).0))
  {
    var m := ConsecutiveAlloc(s.pmm, p, len).0;
    var s' := s.(pmm := m);
    assert forall f :: IsNorm(m.at, f) <==> IsNorm(s.pmm.at, f);
    assert forall f :: IsTaken(s.pmm.at, f) ==> IsTaken(m.at, f);
    SameEnts(s, s');
    forall q, i | HasTable(s', q, i) ensures IsTaken(m.at, TableOf(s', q, i)) && m.cont[q].used && Perm(s'.pdir[q][i]) == PTU {
      assert HasTable(s, q, i);
    }
    forall f | IsFree(m.at, f) ensures s'.phys[f] == ZeroPage() {
      assert IsFree(s.pmm.at, f);
    }
  }

  /** The scan either stops in its first round, where it started, or is running after every round. */
  lemma {:induction false} ScanStopsAtOnceOrNever(s: Vm, p: nat, va: Word, n: nat)
    ensures EntryByVa(s, p, U32(va - 4096)) == EntryByVa(s, p, va) ==> ScanAfter(s, p, va, n).1
    ensures EntryByVa(s, p, U32(va - 4096)) != EntryByVa(s, p, va) ==> ScanAfter(s, p, va, n) == (va, n == 0)
    decreases n
  {
    hide EntryByVa;
    if n > 0 {
      ScanStopsAtOnceOrNever(s, p, va, n - 1);
    }
  }

  lemma UnmapIsLimit(s: Vm, p: nat, va: Word)
    requires p < NUM_IDS
    ensures UnmapPage(s, p, va).None? <==> forall n :: UnmapWithin(s, p, va, n).None?
    ensures UnmapPage(s, p, va).Some? ==> forall n :: n >= 1 ==> UnmapWithin(s, p, va, n) == UnmapPage(s, p, va)
  {
    hide EntryByVa, SetWord, UnmapLoop, ScanAfter;
    forall n: nat ensures UnmapPage(s, p, va).None? ==> UnmapWithin(s, p, va, n).None?
      ensures UnmapPage(s, p, va).Some? && n >= 1 ==> UnmapWithin(s, p, va, n) == UnmapPage(s, p, va)
    {
      ScanStopsAtOnceOrNever(s, p, va, n);
    }
    assert UnmapPage(s, p, va).Some? ==> UnmapWithin(s, p, va, 1) == UnmapPage(s, p, va);
  }

  /** A call that returns returns the entry the page had. */
  lemma UnmapReturnsEntry(s: Vm, p: nat, va: Word, n: nat)
    requires p < NUM_IDS && UnmapWithin(s, p, va, n).Some?
    ensures UnmapWithin(s, p, va, n).value.1 == Flat(s, p, va / 4096)
    ensures UnmapPage(s, p, va).Some? ==> UnmapPage(s, p, va).value.1 == Flat(s, p, va / 4096)
  {
    hide EntryByVa, Flat, SetWord, UnmapLoop, ScanAfter;
    FlatByVa(s, p, va);
  }

  /** The call is still scanning after every number of rounds exactly when the page before holds the
      very entry of a super page. */
  lemma UnmapHangsIff(s: Vm, p: nat, va: Word)
    requires p < NUM_IDS && va >= 4096
    ensures (forall n :: UnmapWithin(s, p, va, n).None?) <==>
            Flat(s, p, va / 4096) != 0 && Super(Flat(s, p, va / 4096)) && Flat(s, p, va / 4096 - 1) == Flat(s, p, va / 4096)
  {
    hide Flat, EntryByVa, SetWord, UnmapLoop, UnmapWithin;
    UnmapIsLimit(s, p, va);
    PageBefore(va);
    FlatByVa(s, p, va);
    FlatByVa(s, p, U32(va - 4096));
  }

  /** The call returns, having scanned one round, where frames within a process are distinct. */
  lemma UnmapReturns(s: Vm, p: nat, va: Word)
    requires TableInv(s) && FramesInjective(s) && 1 <= p < NUM_IDS && UserPage(va / 4096)
    ensures UnmapWithin(s, p, va, 1).Some? && UnmapWithin(s, p, va, 1) == UnmapPage(s, p, va)
  {
    hide Flat, EntryByVa, TableInv, FramesInjective, UnmapPage, UnmapWithin;
    UnmapIsLimit(s, p, va);
    UnmapHangsIff(s, p, va);
    NeighboursDiffer(s, p, va / 4096);
  }

  lemma PageBefore(va: Word)
    requires va >= 4096
    ensures U32(va - 4096) / 4096 == va / 4096 - 1
  {
  }

  lemma NeighboursDiffer(s: Vm, p: nat, v: int)
    requires TableInv(s) && FramesInjective(s) && 1 <= p < NUM_IDS && UserPage(v)
    ensures Flat(s, p, v) != 0 && Super(Flat(s, p, v)) ==> Flat(s, p, v - 1) != Flat(s, p, v)
  {
    hide TableInv, Flat;
    FlatUser(s, p, v);
    if UserPage(v - 1) {
      FlatUser(s, p, v - 1);
      DistinctFrames(s, p, v / 1024, v % 1024, (v - 1) / 1024, (v - 1) % 1024);
    } else {
      KernelBefore(s, p, v);
    }
  }

  lemma DistinctFrames(s: Vm, p: nat, i: int, j: int, k: int, l: int)
    requires FramesInjective(s) && Cell(p, i, j) && Cell(p, k, l) && !(i == k && j == l)
    ensures Seen(Ent(s, p, i, j)) != 0 ==> Seen(Ent(s, p, i, j)) != Seen(Ent(s, p, k, l))
  {
    assert Mapped(s, p, i, j) && Mapped(s, p, k, l) ==> FrameOf(s, p, i, j) != FrameOf(s, p, k, l);
  }

  /** A kernel page is never part of a super page. */
  lemma KernelBefore(s: Vm, p: nat, v: int)
    requires TableInv(s) && p < NUM_IDS && UserPage(v) && !UserPage(v - 1)
    ensures !Super(Flat(s, p, v - 1))
  {
    hide Flat;
    FlatIdentity(s, p, v - 1);
    EntryFields(v - 1, PTE_P + PTE_W + PTE_G);
  }

  /** A super page mapped into an unmapped range is taken out again by one `unmap_page` at its
      base, which returns and restores the map of every process. */
  lemma SuperThenUnmapRestores(s: Vm, p: nat, va: Word, perm: nat)
    requires TableInv(s) && FramesTaken(s) && 1 <= p < NUM_IDS && UserRange(va / 4096, 1024)
    requires perm < 4096 && Present(perm)
    requires forall u :: va / 4096 <= u < va / 4096 + 1024 ==> Flat(s, p, u) == 0
    requires AllocSuperPage(s, p, va, perm).1 != MAGIC
    ensures var s1 := AllocSuperPage(s, p, va, perm).0;
            UnmapWithin(s1, p, va, 1).Some? && SameFlat(s, UnmapWithin(s1, p, va, 1).value.0)
  {
    hide TableInv, FramesTaken, Flat, SameFlat, MappedRange, MapLoop, UnmapLoop, EntryByVa, SetWord, PdirByVa;
    var (m, r) := ConsecutiveAlloc(s.pmm, p, 1024);
    var s0 := s.(pmm := m);
    var perm' := WithSuper(perm);
    SuperBlock(s, p, va);
    MapLoopFlat(s0, p, va, r, perm', 1024);
    SameMapped(s, s0, MapLoop(s0, p, va, r, perm', 1024).0, p, va / 4096, 1024, r, perm');
    SuperEntryBefore(s, MapLoop(s0, p, va, r, perm', 1024).0, p, va, r, perm');
    UnmappedStays(s, s0, p, va / 4096, 1024);
    MapThenUnmapRestores(s0, p, va, r, perm', 1024);
    SameFlatTrans(s, s0, UnmapLoop(MapLoop(s0, p, va, r, perm', 1024).0, p, va, 1024).0);
    UnmapIsLimit(MapLoop(s0, p, va, r, perm', 1024).0, p, va);
  }

  /** The block a super page is made of starts with the lowest free page; no mapping changed yet. */
  lemma SuperBlock(s: Vm, p: nat, va: Word)
    requires TableInv(s) && p < NUM_IDS
    ensures var (m, r) := ConsecutiveAlloc(s.pmm, p, 1024);
            TableInv(s.(pmm := m)) && SameFlat(s, s.(pmm := m)) && (r != 0 ==> IsFree(s.pmm.at, r) && r + 1024 <= TABLE_SIZE)
  {
    var s0 := s.(pmm := ConsecutiveAlloc(s.pmm, p, 1024).0);
    BlockTables(s, p, 1024);
    hide TableInv, Flat;
    SameEnts(s, s0);
    SameEntsSameFlat(s, s0);
  }

  lemma SameMapped(s: Vm, s0: Vm, s1: Vm, p: int, v: int, n: nat, page: nat, perm: nat)
    requires SameFlat(s, s0) && MappedRange(s0, s1, p, v, n, page, perm)
    ensures MappedRange(s, s1, p, v, n, page, perm)
  {
    hide Flat, Entry;
  }

  lemma UnmappedStays(s: Vm, s0: Vm, p: int, v: int, n: nat)
    requires SameFlat(s, s0) && 0 <= p < NUM_IDS && 0 <= v && v + n <= TABLE_SIZE
    requires forall u :: v <= u < v + n ==> Flat(s, p, u) == 0
    ensures forall u :: v <= u < v + n ==> Flat(s0, p, u) == 0
  {
    hide Flat;
  }

  lemma SameFlatTrans(s: Vm, s0: Vm, s1: Vm)
    requires SameFlat(s, s0) && SameFlat(s0, s1)
    ensures SameFlat(s, s1)
  {
    hide Flat;
  }

  /** The page before a new super page does not hold the entry of its first page. */
  lemma SuperEntryBefore(s: Vm, s1: Vm, p: nat, va: Word, r: nat, perm: nat)
    requires TableInv(s) && FramesTaken(s) && 1 <= p < NUM_IDS && UserRange(va / 4096, 1024)
    requires IsFree(s.pmm.at, r) && perm < 4096 && Present(perm) && Super(perm)
    requires MappedRange(s, s1, p, va / 4096, 1024, r, perm)
    ensures var e := EntryByVa(s1, p, va);
            e != 0 && Super(e) && EntryByVa(s1, p, U32(va - 4096)) != e
  {
    hide Flat, EntryByVa, TableInv, FramesTaken, Entry;
    var v := va / 4096;
    PageBefore(va);
    FlatByVa(s1, p, va);
    FlatByVa(s1, p, U32(va - 4096));
    EntryFields(r, perm);
    assert Flat(s1, p, v) == Entry(r + (v - v), perm);
    assert Flat(s1, p, v - 1) == Flat(s, p, v - 1);
    BeforeIsOther(s, p, v, r);
  }

  lemma BeforeIsOther(s: Vm, p: nat, v: int, r: nat)
    requires TableInv(s) && FramesTaken(s) && 1 <= p < NUM_IDS && UserPage(v) && IsFree(s.pmm.at, r)
    ensures var e := Flat(s, p, v - 1);
            e == 0 || !Super(e) || Frame(e) != r
  {
    hide TableInv, Flat;
    if UserPage(v - 1) {
      FlatUser(s, p, v - 1);
      assert Mapped(s, p, (v - 1) / 1024, (v - 1) % 1024) ==>
          IsTaken(s.pmm.at, FrameOf(s, p, (v - 1) / 1024, (v - 1) % 1024));
    } else {
      KernelBefore(s, p, v);
    }
  }

  // ----- Unmapping a super page elsewhere than at its base

  /** Clearing pages after `v` leaves the entry of `v` alone, even where the loop runs into kernel pages. */
  lemma {:induction false} UnmapLeavesBefore(s: Vm, p: nat, va: Word, len: nat, v: int)
    requires TablesDistinct(s) && KernelDirs(s) && 1 <= p < NUM_IDS && UserPage(v)
    requires HasTable(s, p, v / 1024) && TableOf(s, p, v / 1024) >= USERLO_PI
    requires v < va / 4096 && va / 4096 + len <= TABLE_SIZE
    ensures Flat(UnmapLoop(s, p, va, len).0, p, v) == Flat(s, p, v)
    decreases len
  {
    hide TablesDistinct, KernelDirs, Flat, EntryByVa, SetWord;
    if len > 0 && EntryByVa(s, p, va) != 0 {
      var s1 := SetWord(s, p, DirOf(va), TblOf(va), 0);
      ClearElsewhere(s, p, va, v);
      if len > 1 {
        NextPage(va);
        UnmapLeavesBefore(s1, p, U32(va + 4096), len - 1, v);
      } else {
        assert UnmapLoop(s1, p, U32(va + 4096), 0) == (s1, 0);
      }
    }
  }

  lemma ClearElsewhere(s: Vm, p: nat, va: Word, v: int)
    requires TablesDistinct(s) && KernelDirs(s) && 1 <= p < NUM_IDS && UserPage(v) && v != va / 4096
    requires HasTable(s, p, v / 1024) && TableOf(s, p, v / 1024) >= USERLO_PI && EntryByVa(s, p, va) != 0
    ensures var s1 := SetWord(s, p, DirOf(va), TblOf(va), 0);
            TablesDistinct(s1) && KernelDirs(s1) && HasTable(s1, p, v / 1024) && TableOf(s1, p, v / 1024) >= USERLO_PI
            && Flat(s1, p, v) == Flat(s, p, v)
  {
    var s1 := SetWord(s, p, DirOf(va), TblOf(va), 0);
    var d, i := DirOf(va), v / 1024;
    FlatUser(s, p, v);
    FlatUser(s1, p, v);
    assert d == va / 4096 / 1024 && TblOf(va) == va / 4096 % 1024;
    hide Flat, DirOf, TblOf;
    OtherEntryStays(s, p, d, TblOf(va), i, v % 1024);
    SameDirs(s, s1);
  }

  lemma SameDirs(s: Vm, s1: Vm)
    requires s1.pdir == s.pdir && s1.idBase == s.idBase && TablesDistinct(s) && KernelDirs(s)
    ensures TablesDistinct(s1) && KernelDirs(s1)
  {
    assert forall q, k :: HasTable(s1, q, k) <==> HasTable(s, q, k);
    assert forall q, k :: Slot(q, k) ==> TableOf(s1, q, k) == TableOf(s, q, k);
  }

  lemma OtherEntryStays(s: Vm, p: nat, d: nat, t: nat, i: int, j: int)
    requires TablesDistinct(s) && KernelDirs(s) && Cell(p, i, j) && d < 1024 && t < 1024 && !(d == i && t == j)
    requires HasTable(s, p, i) && TableOf(s, p, i) >= USERLO_PI && Present(s.pdir[p][d])
    ensures var s1 := SetWord(s, p, d, t, 0);
            s1.pdir == s.pdir && s1.idBase == s.idBase && Ent(s1, p, i, j) == Ent(s, p, i, j)
  {
    if !Slot(p, d) {
      EntryFields(s.idBase + d, PTU);
      assert s.pdir[p][d] == Entry(s.idBase + d, PTU);
    } else {
      assert HasTable(s, p, d);
    }
  }

  /** The state right after a super page was mapped into an unmapped range. */
  lemma SuperMapped(s: Vm, p: nat, va: Word, perm: nat)
    requires TableInv(s) && FramesTaken(s) && 1 <= p < NUM_IDS && UserRange(va / 4096, 1024)
    requires perm < 4096 && Present(perm) && AllocSuperPage(s, p, va, perm).1 != MAGIC
    ensures var (s1, r) := (AllocSuperPage(s, p, va, perm).0, ConsecutiveAlloc(s.pmm, p, 1024).1);
            TableInv(s1) && MappedRange(s, s1, p, va / 4096, 1024, r, WithSuper(perm)) && r + 1024 <= TABLE_SIZE
            && r != 0 && IsFree(s.pmm.at, r)
  {
    hide TableInv, FramesTaken, Flat, SameFlat, MappedRange, MapLoop, EntryByVa, PdirByVa;
    var (m, r) := ConsecutiveAlloc(s.pmm, p, 1024);
    var s0 := s.(pmm := m);
    SuperBlock(s, p, va);
    MapLoopFlat(s0, p, va, r, WithSuper(perm), 1024);
    SameMapped(s, s0, MapLoop(s0, p, va, r, WithSuper(perm), 1024).0, p, va / 4096, 1024, r, WithSuper(perm));
  }

  /** Each of its 1024 entries has its own frame and every bit of the permissions asked for, with P_SUPER
      added. */
  lemma SuperPermissions(s: Vm, p: nat, va: Word, perm: nat, k: nat)
    requires TableInv(s) && FramesTaken(s) && 1 <= p < NUM_IDS && UserRange(va / 4096, 1024) && k < 1024
    requires perm < 4096 && Present(perm) && AllocSuperPage(s, p, va, perm).1 != MAGIC
    ensures var e := Flat(AllocSuperPage(s, p, va, perm).0, p, va / 4096 + k);
            Frame(e) == ConsecutiveAlloc(s.pmm, p, 1024).1 + k && Super(e)
            && Perm(e) % 0x200 == perm % 0x200 && Perm(e) / 0x400 == perm / 0x400
  {
    hide TableInv, FramesTaken, AllocSuperPage, ConsecutiveAlloc, Flat, Entry, WithSuper;
    SuperMapped(s, p, va, perm);
    var (r, v) := (ConsecutiveAlloc(s.pmm, p, 1024).1, va / 4096);
    EntryFields(r + k, WithSuper(perm));
    assert Flat(AllocSuperPage(s, p, va, perm).0, p, v + k) == Entry(r + (v + k - v), WithSuper(perm));
  }

  /** `unmap_page` at page `k` of a super page: the scan stops at once, wherever it starts. */
  lemma SuperScanStops(s: Vm, s1: Vm, p: nat, va: Word, r: nat, perm: nat, k: nat)
    requires TableInv(s) && FramesTaken(s) && 1 <= p < NUM_IDS && UserRange(va / 4096, 1024) && k < 1024
    requires IsFree(s.pmm.at, r) && r + 1024 <= TABLE_SIZE && perm < 4096 && Present(perm) && Super(perm)
    requires MappedRange(s, s1, p, va / 4096, 1024, r, perm)
    ensures var at := va + 4096 * k;
            var e := EntryByVa(s1, p, at);
            e != 0 && Super(e) && EntryByVa(s1, p, U32(at - 4096)) != e
  {
    hide TableInv, FramesTaken, EntryByVa, MappedRange;
    if k == 0 {
      SuperEntryBefore(s, s1, p, va, r, perm);
    } else {
      InsideDiffers(s, s1, p, va / 4096, r, perm, k);
      PageBefore(va + 4096 * k);
      FlatByVa(s1, p, va + 4096 * k);
      FlatByVa(s1, p, U32(va + 4096 * k - 4096));
      assert (va + 4096 * k) / 4096 == va / 4096 + k;
    }
  }

  /** Two neighbours within a super page have different frames. */
  lemma InsideDiffers(s: Vm, s1: Vm, p: nat, v: int, r: nat, perm: nat, k: nat)
    requires p < NUM_IDS && UserRange(v, 1024) && 0 < k < 1024 && r + 1024 <= TABLE_SIZE
    requires perm < 4096 && Present(perm) && Super(perm) && MappedRange(s, s1, p, v, 1024, r, perm)
    ensures var e := Flat(s1, p, v + k);
            e != 0 && Super(e) && Flat(s1, p, v + k - 1) != e
  {
    hide Flat, Entry;
    EntryFields(r + k, perm);
    EntryFields(r + k - 1, perm);
    assert Flat(s1, p, v + k) == Entry(r + (v + k - v), perm);
    assert Flat(s1, p, v + k - 1) == Entry(r + (v + k - 1 - v), perm);
  }

  /** `unmap_page` at page `k` of a super page mapped into an unmapped range returns, and restores the map
      exactly at the base: elsewhere the `k` pages before it stay mapped. */
  lemma SuperUnmapRestoresIff(s: Vm, p: nat, va: Word, perm: nat, k: nat)
    requires TableInv(s) && FramesTaken(s) && 1 <= p < NUM_IDS && UserRange(va / 4096, 1024) && k < 1024
    requires perm < 4096 && Present(perm) && AllocSuperPage(s, p, va, perm).1 != MAGIC
    requires forall u :: va / 4096 <= u < va / 4096 + 1024 ==> Flat(s, p, u) == 0
    ensures var s1 := AllocSuperPage(s, p, va, perm).0;
            var at := va + 4096 * k;
            UnmapWithin(s1, p, at, 1).Some? && UnmapWithin(s1, p, at, 1).value.0 == UnmapLoop(s1, p, at, 1024).0
            && (SameFlat(s, UnmapLoop(s1, p, at, 1024).0) <==> k == 0)
  {
    hide TableInv, FramesTaken, Flat, SameFlat, MappedRange, MapLoop, UnmapLoop, EntryByVa, SetWord, ConsecutiveAlloc,
         AllocSuperPage, UnmapWithin, KernelDirs, TablesDistinct;
    var (s1, r) := (AllocSuperPage(s, p, va, perm).0, ConsecutiveAlloc(s.pmm, p, 1024).1);
    var at := va + 4096 * k;
    SuperMapped(s, p, va, perm);
    SuperScanStops(s, s1, p, va, r, WithSuper(perm), k);
    UnmapIsLimit(s1, p, at);
    if k == 0 {
      SuperThenUnmapRestores(s, p, va, perm);
    } else {
      FirstStays(s, s1, p, va, r, WithSuper(perm), at);
    }
  }

  lemma FirstStays(s: Vm, s1: Vm, p: nat, va: Word, r: nat, perm: nat, at: Word)
    requires TableInv(s1) && 1 <= p < NUM_IDS && UserRange(va / 4096, 1024) && va / 4096 < at / 4096 < va / 4096 + 1024
    requires MappedRange(s, s1, p, va / 4096, 1024, r, perm) && r + 1024 <= TABLE_SIZE && perm < 4096 && Present(perm)
    requires Flat(s, p, va / 4096) == 0
    ensures !SameFlat(s, UnmapLoop(s1, p, at, 1024).0)
  {
    var v := va / 4096;
    TableOfMapped(s, s1, p, v, r, perm);
    hide TableInv, Flat, UnmapLoop, KernelDirs, TablesDistinct, MappedRange;
    UnmapLeavesBefore(s1, p, at, 1024, v);
    MappedIsNotZero(s, s1, p, v, 1024, r, perm, v);
  }

  lemma TableOfMapped(s: Vm, s1: Vm, p: nat, v: int, r: nat, perm: nat)
    requires TableInv(s1) && 1 <= p < NUM_IDS && UserPage(v) && MappedRange(s, s1, p, v, 1024, r, perm) && r + 1024 <= TABLE_SIZE
    requires perm < 4096 && Present(perm)
    ensures TablesDistinct(s1) && KernelDirs(s1) && HasTable(s1, p, v / 1024) && TableOf(s1, p, v / 1024) >= USERLO_PI
  {
    FlatUser(s1, p, v);
    MappedIsNotZero(s, s1, p, v, 1024, r, perm, v);
    assert HasTable(s1, p, v / 1024);
    assert IsTaken(s1.pmm.at, TableOf(s1, p, v / 1024));
  }

  /** And within the user range it clears the rest of the super page and whatever follows without a gap. */
  lemma SuperUnmapClears(s: Vm, p: nat, va: Word, perm: nat, k: nat)
    requires TableInv(s) && FramesTaken(s) && 1 <= p < NUM_IDS && k < 1024 && UserRange(va / 4096, 1024 + k)
    requires perm < 4096 && Present(perm) && AllocSuperPage(s, p, va, perm).1 != MAGIC
    ensures var s1 := AllocSuperPage(s, p, va, perm).0;
            var (s2, n) := UnmapLoop(s1, p, va + 4096 * k, 1024);
            1024 - k <= n <= 1024 && ClearedRange(s1, s2, p, va / 4096 + k, n)
            && (n < 1024 ==> Flat(s1, p, va / 4096 + k + n) == 0)
  {
    hide TableInv, FramesTaken, Flat, MappedRange, ClearedRange, UnmapLoop, ConsecutiveAlloc, AllocSuperPage;
    var (s1, r) := (AllocSuperPage(s, p, va, perm).0, ConsecutiveAlloc(s.pmm, p, 1024).1);
    var v := va / 4096;
    SuperMapped(s, p, va, perm);
    UnmapLoopFlat(s1, p, va + 4096 * k, 1024);
    assert (va + 4096 * k) / 4096 == v + k;
    var n := UnmapLoop(s1, p, va + 4096 * k, 1024).1;
    if n < 1024 - k {
      MappedIsNotZero(s, s1, p, v, 1024, r, WithSuper(perm), v + k + n);
    }
  }
}
