/** What a fork leaves in the page tables of parent and child, and which stores go through after it:
    those to the parent's pages do, after one copy-on-write fault, and so do stores to pages the
    parent could only read. */
module ForkProgress {
  import opened Words
  import opened Containers
  import opened PageTables
  import opened Mapping
  import opened Fork
  import opened CowRefinement
  import opened PageDemand
  import opened UserCopy
  import AllocTable

  /** The entries after a fork that found the slot `child` and copied the directories below `lim`. */
  ghost predicate Forked(s: Vm, s': Vm, p: int, child: int, lim: int) {
    && 1 <= p < child < NUM_IDS && USERLO <= lim <= USERHI
    && (forall q, k, l :: Cell(q, k, l) ==>
          Ent(s', q, k, l) ==
          if (q == p || q == child) && k < lim && Mapped(s, p, k, l) then Entry(FrameOf(s, p, k, l), COW_PERM)
          else if q == child then 0 else Ent(s, q, k, l))
  }

  lemma ForkEntries(s: Vm, p: nat)
    requires Inv(s) && 1 <= p < NUM_IDS && ProcFork(s, p).1 != NUM_IDS
    ensures var (s', child, lim) := ProcFork(s, p);
            Inv(s') && Forked(s, s', p, child, lim)
  {
    CommonPages(s);
    hide TableInv, FrameInv, PmmInv, Lost, SameViews, SameViewsBut, NoTablesFrom, KctxNew, ForkQuota, CopyDirs, EntriesCopied, NoSuper;
    var (m, child) := KctxNew(s.pmm, p, ForkQuota(s.pmm.cont, p));
    var s1 := s.(pmm := m);
    ForkSplit(s, p);
    var (s', lim) := VmmCopy(s1, p, child);
    VmmCopyIsEagerCopy(s1, p, child);
    CopyDirsPmm(s1, p, child, USERLO);
    SameEnts(s, s1);
    CopiedIsForked(s, s1, s', p, child, lim);
  }

  lemma CommonPages(s: Vm)
    requires FrameInv(s)
    ensures NoSuper(s)
  {
  }

  lemma CopiedIsForked(s: Vm, s1: Vm, s': Vm, p: nat, child: nat, lim: nat)
    requires NoSuper(s) && SameEntries(s, s1) && EntriesCopied(s1, s', p, child, USERLO, 0, lim, 0)
    requires 1 <= p < child < NUM_IDS && USERLO <= lim <= USERHI && NoTablesFrom(s1, child, USERLO)
    ensures Forked(s, s', p, child, lim)
  {
    hide Entry;
    forall q, k, l | Cell(q, k, l)
      ensures Ent(s', q, k, l) ==
              if (q == p || q == child) && k < lim && Mapped(s, p, k, l) then Entry(FrameOf(s, p, k, l), COW_PERM)
              else if q == child then 0 else Ent(s, q, k, l)
    {
      assert Cell(p, k, l) && Ent(s1, p, k, l) == Ent(s, p, k, l);
      assert Between(k, l, USERLO, 0, lim, 0) <==> k < lim;
      assert !HasTable(s1, child, k);
      assert Mapped(s, p, k, l) ==> !Super(Ent(s, p, k, l));
    }
  }

  /** A fork whatever the parent has mapped, super pages included: every page the parent had below the
      point reached is protected in parent and child, so neither can write a frame both have; the child
      has nothing else, and no other entry of anybody changes. */
  lemma ForkProtects(s: Vm, p: nat)
    requires TableInv(s) && PmmInv(s.pmm) && 1 <= p < NUM_IDS && ProcFork(s, p).1 != NUM_IDS
    ensures var (s', child, lim) := ProcFork(s, p);
            TableInv(s') && 1 <= p < child < NUM_IDS && USERLO <= lim <= USERHI
            && (forall k, l :: Mapped(s, p, k, l) && k < lim ==>
                  Protected(Ent(s, p, k, l), Ent(s', p, k, l)) && Protected(Ent(s, p, k, l), Ent(s', child, k, l)))
            && (forall k, l :: Cell(child, k, l) && !(k < lim && Mapped(s, p, k, l)) ==> Ent(s', child, k, l) == 0)
            && (forall q, k, l :: Cell(q, k, l) && q != child && !(q == p && k < lim && Mapped(s, p, k, l)) ==>
                  Ent(s', q, k, l) == Ent(s, q, k, l))
  {
    hide PmmInv, KctxNew, ForkQuota, CopyDirs, Protected;
    var (m, child) := KctxNew(s.pmm, p, ForkQuota(s.pmm.cont, p));
    var s1 := s.(pmm := m);
    SplitKeepsTables(s, p, ForkQuota(s.pmm.cont, p));
    SameEnts(s, s1);
    hide TableInv;
    VmmCopyProtects(s1, p, child);
    forall k, l | Cell(child, k, l) ensures Ent(s, child, k, l) == 0 {
      assert !HasTable(s1, child, k);
    }
  }

  lemma SplitKeepsTables(s: Vm, p: nat, quota: Word)
    requires TableInv(s) && PmmInv(s.pmm) && KctxNew(s.pmm, p, quota).1 != NUM_IDS
    ensures var (m, child) := KctxNew(s.pmm, p, quota);
            var s1 := s.(pmm := m);
            TableInv(s1) && p < child < NUM_IDS && NoTablesFrom(s1, child, USERLO)
  {
    var (m, child) := KctxNew(s.pmm, p, quota);
    var s1 := s.(pmm := m);
    KctxNewKeeps(s.pmm, p, quota);
    KctxNewForm(s.pmm, p, quota);
    SameEnts(s, s1);
    forall q, i | HasTable(s1, q, i)
      ensures AllocTable.IsTaken(m.at, TableOf(s1, q, i)) && Perm(s1.pdir[q][i]) == PTU && m.cont[q].used
    {
      assert HasTable(s, q, i);
    }
    forall k | USERLO <= k < USERHI ensures !HasTable(s1, child, k) {
      assert !HasTable(s, child, k);
    }
  }

  /** The paging hardware lets a user load through. */
  predicate LoadAllowed(s: Vm, p: nat, va: Word) {
    var e := EntryByVa(s, p, va);
    Present(e) && UserOk(e)
  }

  /** What the parent could read before a fork it can read after it, and so can the child where the fork
      copied. */
  lemma LoadsAfterFork(s: Vm, p: nat, va: Word)
    requires Inv(s) && 1 <= p < NUM_IDS && UserPage(va / 4096) && LoadAllowed(s, p, va) && ProcFork(s, p).1 != NUM_IDS
    ensures var (s', child, lim) := ProcFork(s, p);
            LoadAllowed(s', p, va) && (LoadAllowed(s', child, va) <==> DirOf(va) < lim)
  {
    hide Inv, ProcFork, EntryByVa, DirOf, Forked;
    SharedBits();
    ForkEntries(s, p);
    ForkedParts(s, ProcFork(s, p).0, p, ProcFork(s, p).1, ProcFork(s, p).2);
    EntryAfterFork(s, p, va, p);
    EntryAfterFork(s, p, va, ProcFork(s, p).1);
  }

  /** After a fork every page the parent had below `lim` is mapped copy-on-write to one frame in
      parent and child; the child has nothing else, and the parent's pages from `lim` on keep their
      permissions. */
  lemma ForkPermissions(s: Vm, p: nat, i: nat, j: nat)
    requires Inv(s) && Cell(p, i, j) && ProcFork(s, p).1 != NUM_IDS
    ensures var (s', child, lim) := ProcFork(s, p);
            Cell(child, i, j)
            && (i < lim && Mapped(s, p, i, j) ==>
                  Perm(Ent(s', p, i, j)) == Perm(Ent(s', child, i, j)) == COW_PERM
                  && FrameOf(s', p, i, j) == FrameOf(s', child, i, j) == FrameOf(s, p, i, j))
            && (!(i < lim && Mapped(s, p, i, j)) ==> !Mapped(s', child, i, j) && Ent(s', p, i, j) == Ent(s, p, i, j))
  {
    hide Inv, ProcFork, Ent, Entry;
    ForkEntries(s, p);
    EntryFields(FrameOf(s, p, i, j), COW_PERM);
  }

  /** The entry the accessors find after a fork. */
  lemma EntryAfterFork(s: Vm, p: nat, va: Word, q: nat)
    requires Inv(s) && 1 <= p < NUM_IDS && UserPage(va / 4096) && ProcFork(s, p).1 != NUM_IDS
    requires q == p || q == ProcFork(s, p).1
    ensures var (s', child, lim) := ProcFork(s, p);
            var e := EntryByVa(s', q, va);
            Inv(s') && 1 <= q < NUM_IDS
            && (Present(EntryByVa(s, p, va)) && DirOf(va) < lim ==> Perm(e) == COW_PERM)
            && (!(Present(EntryByVa(s, p, va)) && DirOf(va) < lim) ==>
                  e == if q == p then EntryByVa(s, p, va) else 0)
  {
    hide Inv, ProcFork, Ent, Forked, EntryByVa;
    ForkEntries(s, p);
    ForkedParts(s, ProcFork(s, p).0, p, ProcFork(s, p).1, ProcFork(s, p).2);
    UserCell(s, p, va);
    UserCell(ProcFork(s, p).0, q, va);
    hide DirOf, TblOf;
    ForkPermissions(s, p, DirOf(va), TblOf(va));
  }

  lemma ForkedParts(s: Vm, s': Vm, p: int, child: int, lim: int)
    requires Forked(s, s', p, child, lim)
    ensures 1 <= p < child < NUM_IDS && USERLO <= lim <= USERHI
  {
  }

  /** The write fault handler on a page: it goes through exactly on copy-on-write pages, and then,
      exactly when a page can be had, the next store is let through. */
  lemma WriteFault(s: Vm, q: nat, va: Word)
    requires Inv(s) && 1 <= q < NUM_IDS && UserPage(va / 4096) && !StoreAllowed(s, q, va)
    ensures var (s', panic) := PageFault(s, q, va, 7);
            (panic <==> !Cow(EntryByVa(s, q, va))) && (panic ==> s' == s)
            && (StoreAllowed(s', q, va) <==> Cow(EntryByVa(s, q, va)) && AllocFrame(s, q).1 != 0)
  {
    hide Inv, EntryByVa, CopyOnWrite, AllocFrame;
    if Cow(EntryByVa(s, q, va)) {
      if AllocFrame(s, q).1 != 0 {
        FaultEnablesStore(s, q, va, 7);
      } else {
        NoPageNoChange(s, q, va);
      }
    }
  }

  lemma NoPageNoChange(s: Vm, q: nat, va: Word)
    requires Inv(s) && q < NUM_IDS && AllocFrame(s, q).1 == 0
    ensures EntryByVa(CopyOnWrite(s, q, va), q, va) == EntryByVa(s, q, va)
  {
  }

  /** A store the parent could make before a fork goes through after it, in parent and child alike:
      the first attempt is refused, its fault does not panic, and the next attempt is the write of
      the private machine, which the other of the two does not see. */
  lemma StoreAfterFork(s: Vm, p: nat, va: Word, b: Byte, q: nat)
    requires Inv(s) && 1 <= p < NUM_IDS && UserPage(va / 4096) && StoreAllowed(s, p, va)
    requires ProcFork(s, p).1 != NUM_IDS && (q == p || q == ProcFork(s, p).1) && DirOf(va) < ProcFork(s, p).2
    requires AllocFrame(ProcFork(s, p).0, q).1 != 0
    ensures var s1 := ProcFork(s, p).0;
            q < NUM_IDS && !StoreAllowed(s1, q, va)
            && var (s2, panic) := PageFault(s1, q, va, 7);
               !panic && StoreAllowed(s2, q, va)
               && Label(s2, Store(q, va, b)) == WriteByte(q, va / 4096, va % 4096, b)
               && Abs(Step(s2, Store(q, va, b))) == Act(Abs(s1), WriteByte(q, va / 4096, va % 4096, b))
  {
    hide Inv, ProcFork, EntryByVa, DirOf, Abs, AllocFrame, PageFault;
    var s1 := ProcFork(s, p).0;
    EntryAfterFork(s, p, va, q);
    WriteFault(s1, q, va);
    WriteAfterFault(s1, q, va, b);
  }

  lemma WriteAfterFault(s: Vm, q: nat, va: Word, b: Byte)
    requires Inv(s) && 1 <= q < NUM_IDS && UserPage(va / 4096)
    requires Cow(EntryByVa(s, q, va)) && StoreAllowed(PageFault(s, q, va, 7).0, q, va)
    ensures var s2 := PageFault(s, q, va, 7).0;
            Label(s2, Store(q, va, b)) == WriteByte(q, va / 4096, va % 4096, b)
            && Abs(Step(s2, Store(q, va, b))) == Act(Abs(s), WriteByte(q, va / 4096, va % 4096, b))
  {
    hide Inv, EntryByVa, CopyOnWrite, Abs, Step, Act, StoreAllowed;
    CowFaultRefines(s, q, va);
    StoreRefines(PageFault(s, q, va, 7).0, q, va, b);
  }

  /** Before a fork a write to a page mapped without PTE_W panics; after it the handler takes the page
      for copy-on-write and the store goes through, in parent and child alike. */
  lemma ReadOnlyPageBecomesWritable(s: Vm, p: nat, va: Word, q: nat)
    requires Inv(s) && 1 <= p < NUM_IDS && UserPage(va / 4096)
    requires var e := EntryByVa(s, p, va); Present(e) && !Writable(e) && !Cow(e)
    requires ProcFork(s, p).1 != NUM_IDS && (q == p || q == ProcFork(s, p).1) && DirOf(va) < ProcFork(s, p).2
    requires AllocFrame(ProcFork(s, p).0, q).1 != 0
    ensures PageFault(s, p, va, 7) == (s, true)
    ensures var (s', panic) := PageFault(ProcFork(s, p).0, q, va, 7);
            !panic && StoreAllowed(s', q, va)
  {
    hide Inv, ProcFork, EntryByVa, DirOf, AllocFrame, CopyOnWrite;
    EntryAfterFork(s, p, va, q);
    WriteFault(ProcFork(s, p).0, q, va);
  }

  /** Exactly which refused stores a fork and one write fault make possible: those to pages that were
      mapped in a directory the fork copied, and, in the parent, those to pages that were
      copy-on-write already; in both cases if a page can be had. */
  lemma StorableAfterForkIff(s: Vm, p: nat, va: Word, q: nat)
    requires Inv(s) && 1 <= p < NUM_IDS && UserPage(va / 4096) && !StoreAllowed(s, p, va)
    requires ProcFork(s, p).1 != NUM_IDS && (q == p || q == ProcFork(s, p).1)
    ensures var (s1, child, lim) := ProcFork(s, p);
            var e := EntryByVa(s, p, va);
            q < NUM_IDS
            && (StoreAllowed(PageFault(s1, q, va, 7).0, q, va) <==>
                AllocFrame(s1, q).1 != 0 && ((Present(e) && DirOf(va) < lim) || (q == p && Cow(e))))
  {
    hide Inv, ProcFork, EntryByVa, DirOf, AllocFrame, PageFault;
    EntryAfterFork(s, p, va, q);
    WriteFault(ProcFork(s, p).0, q, va);
  }

  /** When the fault handler panics, for every error code: a protection fault unless it is a write to a
      copy-on-write page, and a missing page that cannot be had. */
  lemma FaultPanicsIff(s: Vm, p: nat, va: Word, errno: nat)
    requires Inv(s) && 1 <= p < NUM_IDS && UserPage(va / 4096)
    ensures var cost := if HasTable(s, p, DirOf(va)) then 1 else 2;
            PageFault(s, p, va, errno).1 <==>
            if errno % 2 == 1 then errno % 4 == 1 || !Cow(EntryByVa(s, p, va)) else Avail(s.pmm, p) < cost
  {
    hide Inv, EntryByVa, AllocPage, CopyOnWrite, Avail, DirOf, TblOf, TablesOf, Ent, HasTable, PageFault;
    UserCell(s, p, va);
    AllocPageCost(s, p, va, PTU);
    PanicForm(s, p, va, errno);
  }

  lemma PanicForm(s: Vm, p: nat, va: Word, errno: nat)
    requires p < NUM_IDS
    ensures PageFault(s, p, va, errno).1 <==>
            if errno % 2 == 1 then errno % 4 == 1 || !Cow(EntryByVa(s, p, va)) else AllocPage(s, p, va, PTU).1 == MAGIC
  {
    hide EntryByVa, AllocPage, CopyOnWrite;
    assert errno % 2 == errno % 4 % 2;
  }

  // ----- Kernel copies after a fork

  /** The pages a fork copied are shared by parent and child. */
  lemma SharedAfterFork(s: Vm, p: nat, u: int)
    requires Inv(s) && 1 <= p < NUM_IDS && MappedAt(s, p, u) && ProcFork(s, p).1 != NUM_IDS && u / 1024 < ProcFork(s, p).2
    ensures var (s1, child, _) := ProcFork(s, p);
            Inv(s1) && child != p && Shares(s1, p, u, child, u)
  {
    hide Inv, ProcFork, Ent;
    ForkEntries(s, p);
    CellsOfPage(u);
    ForkPermissions(s, p, u / 1024, u % 1024);
  }

  /** A `pt_copyout` to the parent right after a fork is seen by the child: the kernel writes the shared
      frames without breaking the sharing. */
  lemma CopyoutAfterForkIsSeen(s: Vm, p: nat, kva: Word, buf: seq<Byte>, va: Word, a: int)
    requires Inv(s) && 1 <= p < NUM_IDS && VM_USERLO <= va && va + |buf| <= VM_USERHI && kva + |buf| <= VM_USERHI
    requires ProcFork(s, p).1 != NUM_IDS && va <= a < va + |buf|
    requires MappedAt(s, p, a / 4096) && a / 4096 / 1024 < ProcFork(s, p).2
    ensures var (s1, child, _) := ProcFork(s, p);
            var s2 := Copyout(s1, kva, buf, p, va).0;
            UByte(s2, child, a) == UByte(s2, p, a) == Some(buf[a - va])
  {
    hide Inv, ProcFork, CopyLoop, EntAt, ViewAt, ByteAt;
    var (s1, child, _) := ProcFork(s, p);
    var u := a / 4096;
    SharedAfterFork(s, p, u);
    CopyLoopIsByteCopy(s1, p, va, buf);
    AddressPage(va, |buf|, a);
    var s2 := CopyLoop(s1, p, va, buf);
    assert EntAt(s2, p, u) == EntAt(s1, p, u);
    assert ViewAt(s2, child, u) == ViewAt(s2, p, u);
  }

  // ----- Where a fork stops

  /** The directory index, from `i` on, of the first page table of `p` beyond the first `budget`; USERHI if
      there is none. */
  function StopAt(s: Vm, p: int, i: int, budget: int): (lim: int)
    requires 1 <= p < NUM_IDS && USERLO <= i <= USERHI
    ensures i <= lim <= USERHI
    decreases USERHI - i, s
  {
    if i == USERHI then USERHI
    else if !HasTable(s, p, i) then StopAt(s, p, i + 1, budget)
    else if budget <= 0 then i
    else StopAt(s, p, i + 1, budget - 1)
  }

  lemma {:induction false} StopAtSame(s: Vm, s': Vm, p: int, i: int, budget: int)
    requires 1 <= p < NUM_IDS && USERLO <= i <= USERHI && s'.pdir[p] == s.pdir[p]
    ensures StopAt(s', p, i, budget) == StopAt(s, p, i, budget)
    decreases USERHI - i
  {
    if i < USERHI {
      StopAtSame(s, s', p, i + 1, budget);
      StopAtSame(s, s', p, i + 1, budget - 1);
    }
  }

  /** By then as many tables were passed as the budget allows, and one more is there if it ran out. */
  lemma {:induction false} StopAtCounts(s: Vm, p: int, i: int, budget: nat)
    requires 1 <= p < NUM_IDS && USERLO <= i <= USERHI
    ensures var (lim, all) := (StopAt(s, p, i, budget), TableCount(s, p, i));
            TableCount(s, p, lim) == (if all <= budget then 0 else all - budget)
            && (lim < USERHI <==> all > budget) && (lim < USERHI ==> HasTable(s, p, lim))
    decreases USERHI - i
  {
    if i < USERHI {
      if !HasTable(s, p, i) {
        StopAtCounts(s, p, i + 1, budget);
      } else if budget > 0 {
        StopAtCounts(s, p, i + 1, budget - 1);
      }
    }
  }

  lemma {:induction false} CopyStopsAt(s: Vm, from: nat, to: nat, i: nat)
    requires AtDir(s, from, to, i) && USERLO <= i <= USERHI && PmmInv(s.pmm)
    ensures CopyDirs(s, from, to, i).1 == StopAt(s, from, i, Avail(s.pmm, to))
    decreases USERHI - i
  {
    hide TableInv, FrameInv, Mirrors, SameViewsBut, CopyTable, PmmInv, Avail, EntriesCopied, SameEntries;
    if i < USERHI {
      if !HasTable(s, from, i) {
        MirrorsSkip(s, from, to, i);
        CopyStopsAt(s, from, to, i + 1);
      } else {
        var (s1, r) := AllocFrame(s, to);
        CopyDirKeeps(s, from, to, i);
        PmmSound(s.pmm);
        FrameCost(s, to);
        AllocFramePmm(s, to);
        if r != 0 {
          var s2 := CopyTable(SetPdir(s1, to, i, r), from, to, i, 0);
          CopyStopsAt(s2, from, to, i + 1);
          StopAtSame(s, s2, from, i + 1, Avail(s2.pmm, to));
        }
      }
    }
  }

  lemma PmmSound(m: Pmm)
    requires PmmInv(m)
    ensures Sound(m)
  {
  }

  /** The pages a fork can spend on page tables: half of what the parent may ask for, if they are there. */
  ghost function ForkBudget(s: Vm, p: nat): (n: int)
    requires p < NUM_IDS
  {
    var half, free := Slack(s.pmm.cont[p]) / 2, |AllocTable.FreePages(s.pmm.at)|;
    if half < free then half else free
  }

  /** A fork that finds a child slot stops at the parent's first page table beyond that budget. */
  lemma ForkStopsAt(s: Vm, p: nat)
    requires Inv(s) && 1 <= p < NUM_IDS && ProcFork(s, p).1 != NUM_IDS
    ensures ProcFork(s, p).2 == StopAt(s, p, USERLO, ForkBudget(s, p))
  {
    hide TableInv, FrameInv, PmmInv, Lost, SameViews, NoTablesFrom, KctxNew, ForkQuota, CopyDirs, AllocTable.FreePages;
    var (m, child) := KctxNew(s.pmm, p, ForkQuota(s.pmm.cont, p));
    var s1 := s.(pmm := m);
    ForkSplit(s, p);
    SplitLeavesTable(s.pmm, p, ForkQuota(s.pmm.cont, p));
    StartOfCopy(s1, p, child);
    CopyStopsAt(s1, p, child, USERLO);
    StopAtSame(s, s1, p, USERLO, ForkBudget(s, p));
  }

  /** So which refused stores a fork makes possible can be told before it, but for whether a page can be
      had after it. */
  lemma StorableForeseen(s: Vm, p: nat, va: Word, q: nat)
    requires Inv(s) && 1 <= p < NUM_IDS && UserPage(va / 4096) && !StoreAllowed(s, p, va)
    requires ProcFork(s, p).1 != NUM_IDS && (q == p || q == ProcFork(s, p).1)
    ensures var s1 := ProcFork(s, p).0;
            var e := EntryByVa(s, p, va);
            q < NUM_IDS
            && (StoreAllowed(PageFault(s1, q, va, 7).0, q, va) <==>
                AllocFrame(s1, q).1 != 0
                && ((Present(e) && DirOf(va) < StopAt(s, p, USERLO, ForkBudget(s, p))) || (q == p && Cow(e))))
  {
    hide Inv, ProcFork, EntryByVa, DirOf, AllocFrame, PageFault, StopAt, ForkBudget, StoreAllowed;
    StorableAfterForkIff(s, p, va, q);
    ForkStopsAt(s, p);
  }
}
