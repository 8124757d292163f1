/** Runs of everything user processes can make the kernel do to memory: the events of `CowRefinement`,
    blocks of consecutive pages, and programs loaded into new processes. */
module KernelRuns {
  import opened Words
  import opened AllocTable
  import opened Containers
  import opened PageTables
  import opened Mapping
  import opened Fork
  import opened CowRefinement
  import opened UserCopy
  import opened ElfLoad
  import opened PageStructure
  import opened ProgramMemory
  import opened PageDemand
  import opened BlockMapping
  import opened BlockOverrun
  import Ledger
  import Boot
  import MemoryMap

  datatype KernelEvent =
    | Basic(e: Event)
    | MapBlock(p: nat, va: Word, perm: nat, len: Word)   // alloc_consecutive_page, as mmap calls it
    | Launch(p: nat, quota: Word, exe: Word, file: seq<Byte>, hs: seq<ProgHeader>)  // proc_create

  predicate Possible(k: KernelEvent) {
    match k
    case Basic(e) => Enabled(e)
    case MapBlock(p, va, perm, len) =>
      1 <= p < NUM_IDS && len >= 1 && UserRange(va / 4096, len) && perm < 4096 && !Super(perm)
    case Launch(p, _, exe, file, hs) =>
      p < NUM_IDS && forall i :: 0 <= i < |hs| && hs[i].ptype == ELF_PROG_LOAD ==> SegmentOk(exe, file, hs[i])
  }

  /** `proc_create`: the new state and the child, NUM_IDS if refused. */
  function ProcCreate(s: Vm, p: nat, quota: Word, exe: Word, file: seq<Byte>, hs: seq<ProgHeader>): (res: (Vm, nat))
    ensures res.1 <= NUM_IDS
  {
    var (m, child) := KctxNew(s.pmm, p, quota);
    if child >= NUM_IDS then (s.(pmm := m), NUM_IDS) else (Load(s.(pmm := m), child, exe, file, hs), child)
  }

  function KernelStep(s: Vm, k: KernelEvent): (r: Vm)
    requires Possible(k)
  {
    match k
    case Basic(e) => Step(s, e)
    case MapBlock(p, va, perm, len) => AllocConsecutivePage(s, p, va, perm, len).0
    case Launch(p, quota, exe, file, hs) => ProcCreate(s, p, quota, exe, file, hs).0
  }

  function KernelRun(s: Vm, ks: seq<KernelEvent>): (r: Vm)
    requires forall i :: 0 <= i < |ks| ==> Possible(ks[i])
    decreases |ks|
  {
    if ks == [] then s else KernelRun(KernelStep(s, ks[0]), ks[1..])
  }

  /** What the event is to the machine with private memories: a block is a row of zero fills, and a launch
      gives the new process the memory its executable and the pages it can get determine. */
  ghost function Effect(a: Memories, s: Vm, k: KernelEvent): (r: Memories)
    requires Possible(k)
  {
    match k
    case Basic(e) => Act(a, Label(s, e))
    case MapBlock(p, va, perm, len) => ActAll(a, Fills(p, va / 4096, BlockCount(s, p, va, perm, len), perm))
    case Launch(p, quota, exe, file, hs) =>
      var child := KctxNew(s.pmm, p, quota).1;
      if child >= NUM_IDS then a else a[child := LaunchMemory(Pages(s, quota), file, hs)]
  }

  ghost function Effects(a: Memories, s: Vm, ks: seq<KernelEvent>): (r: Memories)
    requires forall i :: 0 <= i < |ks| ==> Possible(ks[i])
    decreases |ks|
  {
    if ks == [] then a else Effects(Effect(a, s, ks[0]), KernelStep(s, ks[0]), ks[1..])
  }

  // ----- One event

  /** What makes an event safe whatever the layout of memory: no fault on the last page that gets a page,
      and no block that the allocator would take from pages in use. */
  ghost predicate Safe(s: Vm, k: KernelEvent)
    requires Possible(k)
  {
    match k
    case Basic(e) => Raised(s, e) && Harmless(s, e)
    case MapBlock(p, _, _, len) => Fits(s.pmm, p, len)
    case Launch(_, _, _, _, _) => true
  }

  lemma LaunchRefines(s: Vm, p: nat, quota: Word, exe: Word, file: seq<Byte>, hs: seq<ProgHeader>)
    requires Inv(s) && Possible(Launch(p, quota, exe, file, hs))
    ensures var s' := ProcCreate(s, p, quota, exe, file, hs).0;
            var child := KctxNew(s.pmm, p, quota).1;
            Inv(s') && Abs(s') == if child >= NUM_IDS then Abs(s) else Abs(s)[child := LaunchMemory(Pages(s, quota), file, hs)]
  {
    hide Inv, Abs, KctxNew, Load, ViewAt, SegmentOk, LaunchMemory, Pages, MemoryOf;
    var (m, child) := KctxNew(s.pmm, p, quota);
    CreateRefines(s, p, quota);
    if child < NUM_IDS {
      LaunchExact(s, p, quota, exe, file, hs);
      OneProcessChanges(s, Load(s.(pmm := m), child, exe, file, hs), child);
    }
  }

  lemma OneProcessChanges(s: Vm, s': Vm, c: nat)
    requires 1 <= c < NUM_IDS && forall q, x :: q != c ==> ViewAt(s', q, x) == ViewAt(s, q, x)
    ensures Abs(s') == Abs(s)[c := MemoryOf(s', c)]
  {
    hide ViewAt, MemoryOf;
    forall q | 0 <= q < NUM_IDS && q != c ensures Abs(s')[q] == Abs(s)[q] {
      SameMemory(s, s', q);
    }
  }

  lemma KernelStepRefines(s: Vm, k: KernelEvent)
    requires Inv(s) && Possible(k) && Safe(s, k)
    ensures Inv(KernelStep(s, k)) && Abs(KernelStep(s, k)) == Effect(Abs(s), s, k)
  {
    hide Inv, Abs, Step, Act, Label, Raised, Harmless, Fits, ProcCreate, AllocConsecutivePage, KctxNew, LaunchMemory;
    match k {
      case Basic(e) => StepRefines(s, e);
      case MapBlock(p, va, perm, len) => BlockRefines(s, p, va, perm, len);
      case Launch(p, quota, exe, file, hs) => LaunchRefines(s, p, quota, exe, file, hs);
    }
  }

  /** And the pages a block maps have exactly the permissions asked for. */
  lemma BlockPermissions(s: Vm, p: nat, va: Word, perm: nat, len: Word, k: nat)
    requires Inv(s) && Possible(MapBlock(p, va, perm, len)) && Present(perm) && k < BlockCount(s, p, va, perm, len)
    ensures Perm(Flat(KernelStep(s, MapBlock(p, va, perm, len)), p, va / 4096 + k)) == perm
  {
    hide TableInv, FrameInv, AllocConsecutivePage, ConsecutiveAlloc, MapLoop, Flat, Entry;
    var (m, r) := ConsecutiveAlloc(s.pmm, p, len);
    var (s', v) := (AllocConsecutivePage(s, p, va, perm, len).0, va / 4096);
    BlockFlat(s, p, va, perm, len);
    assert MapLoop(s.(pmm := m), p, va, r, perm, len).1 <= len;
    assert Flat(s', p, v + k) == Entry(r + (v + k - v), perm);
    EntryPerm(r + (v + k - v), perm);
  }

  lemma EntryPerm(page: nat, perm: nat)
    requires perm < 4096
    ensures Perm(Entry(page, perm)) == perm
  {
  }

  // ----- Whole runs, whatever the layout of memory

  ghost predicate RunSafe(s: Vm, ks: seq<KernelEvent>)
    requires forall i :: 0 <= i < |ks| ==> Possible(ks[i])
    decreases |ks|
  {
    ks == [] || (Safe(s, ks[0]) && RunSafe(KernelStep(s, ks[0]), ks[1..]))
  }

  /** Every safe run gives every process the memory of the private machine, and keeps the invariant. */
  lemma {:induction false} KernelRunRefines(s: Vm, ks: seq<KernelEvent>)
    requires Inv(s) && (forall i :: 0 <= i < |ks| ==> Possible(ks[i])) && RunSafe(s, ks)
    ensures Inv(KernelRun(s, ks)) && Abs(KernelRun(s, ks)) == Effects(Abs(s), s, ks)
    decreases |ks|
  {
    hide Inv, Abs, KernelStep, Effect, Safe;
    if ks != [] {
      assert Possible(ks[0]);
      KernelStepRefines(s, ks[0]);
      KernelRunRefines(KernelStep(s, ks[0]), ks[1..]);
    }
  }

  // ----- One contiguous region, handed out from the bottom up

  /** The pages handed out are a prefix of the region. */
  ghost predicate Filled(t: Table, lo: nat, hi: nat) {
    exists next: nat :: Ledger.Prefix(t, lo, hi, next)
  }

  lemma PallocFilled(t: Table, lo: nat, hi: nat)
    requires Filled(t, lo, hi)
    ensures Filled(Palloc(t).0, lo, hi)
  {
    var next: nat :| Ledger.Prefix(t, lo, hi, next);
    Ledger.PrefixFree(t, lo, hi, next);
    if next < hi {
      Ledger.SingleMark(t, next);
      Ledger.MarkPrefix(t, lo, hi, next, 1);
    }
  }

  lemma AllocFilled(s: Vm, id: nat, lo: nat, hi: nat)
    requires id < NUM_IDS && Filled(s.pmm.at, lo, hi)
    ensures Filled(AllocFrame(s, id).0.pmm.at, lo, hi)
  {
    hide Filled, Palloc;
    PallocFilled(s.pmm.at, lo, hi);
  }

  lemma EnsureFilled(s: Vm, p: nat, i: nat, lo: nat, hi: nat)
    requires p < NUM_IDS && Filled(s.pmm.at, lo, hi)
    ensures Filled(EnsureTable(s, p, i).0.pmm.at, lo, hi)
  {
    hide Filled, AllocFrame;
    AllocFilled(s, p, lo, hi);
  }

  lemma AllocPageFilled(s: Vm, p: nat, va: Word, perm: nat, lo: nat, hi: nat)
    requires p < NUM_IDS && Filled(s.pmm.at, lo, hi)
    ensures Filled(AllocPage(s, p, va, perm).0.pmm.at, lo, hi)
  {
    hide Filled, AllocFrame, EnsureTable;
    AllocFilled(s, p, lo, hi);
    EnsureFilled(AllocFrame(s, p).0, p, DirOf(va), lo, hi);
  }

  lemma {:induction false} MapLoopFilled(s: Vm, p: nat, va: Word, page: nat, perm: nat, len: nat, lo: nat, hi: nat)
    requires p < NUM_IDS && Filled(s.pmm.at, lo, hi)
    ensures Filled(MapLoop(s, p, va, page, perm, len).0.pmm.at, lo, hi)
    decreases len
  {
    hide Filled, EnsureTable;
    if len > 0 {
      EnsureFilled(s, p, DirOf(va), lo, hi);
      var (s1, ok) := EnsureTable(s, p, DirOf(va));
      if ok {
        MapLoopFilled(SetPtbl(s1, p, DirOf(va), TblOf(va), page, perm), p, U32(va + 4096), page + 1, perm, len - 1, lo, hi);
      }
    }
  }

  lemma {:induction false} CopyDirsFilled(s: Vm, from: nat, to: nat, i: nat, lo: nat, hi: nat)
    requires from < NUM_IDS && to < NUM_IDS && i <= USERHI && Filled(s.pmm.at, lo, hi)
    ensures Filled(CopyDirs(s, from, to, i).0.pmm.at, lo, hi)
    decreases USERHI - i
  {
    hide Filled, CopyTable, AllocFrame;
    if i < USERHI {
      if !Present(GetPdir(s, from, i)) {
        CopyDirsFilled(s, from, to, i + 1, lo, hi);
      } else {
        var (s1, r) := AllocFrame(s, to);
        AllocFilled(s, to, lo, hi);
        if r != 0 {
          CopyTablePmm(SetPdir(s1, to, i, r), from, to, i, 0);
          CopyDirsFilled(CopyTable(SetPdir(s1, to, i, r), from, to, i, 0), from, to, i + 1, lo, hi);
        }
      }
    }
  }

  lemma {:induction false} CopyLoopFilled(s: Vm, p: nat, va: Word, buf: seq<Byte>, lo: nat, hi: nat)
    requires p < NUM_IDS && Filled(s.pmm.at, lo, hi)
    ensures Filled(CopyLoop(s, p, va, buf).pmm.at, lo, hi)
    decreases |buf|
  {
    hide Filled, AllocPage, EntryByVa, PutBytes;
    if buf != [] {
      var n := Chunk(va, |buf|);
      AllocPageFilled(s, p, va, PTU, lo, hi);
      CopyLoopFilled(CopyChunk(s, p, va, buf[..n]), p, U32(va + n), buf[n..], lo, hi);
      LoopUnfolds(s, p, va, buf);
    }
  }

  lemma LoadPageFilled(s: Vm, p: nat, exe: Word, file: seq<Byte>, h: ProgHeader, va: Word, off: nat, lo: nat, hi: nat)
    requires p < NUM_IDS && Filled(s.pmm.at, lo, hi)
    ensures Filled(LoadPage(s, p, exe, file, h, va, off).pmm.at, lo, hi)
  {
    hide Filled, AllocPage, CopyLoop, FileBytes, SegPerm;
    var zva := U32(h.va + h.filesz);
    var s1 := AllocPage(s, p, va, SegPerm(h)).0;
    AllocPageFilled(s, p, va, SegPerm(h), lo, hi);
    if va < RoundDown(zva) {
      CopyLoopFilled(s1, p, va, FileBytes(file, off, 4096), lo, hi);
    } else {
      CopyLoopFilled(s1, p, va, seq<Byte>(4096, _ => 0), lo, hi);
      if va < zva && h.filesz != 0 {
        CopyLoopFilled(Memset(s1, p, va, 0, 4096), p, va, FileBytes(file, off, zva - va), lo, hi);
      }
    }
  }

  lemma {:induction false} LoadPagesFilled(s: Vm, p: nat, exe: Word, file: seq<Byte>, h: ProgHeader, va: Word, off: nat, lo: nat, hi: nat)
    requires p < NUM_IDS && Filled(s.pmm.at, lo, hi)
    ensures Filled(LoadPages(s, p, exe, file, h, va, off).pmm.at, lo, hi)
    decreases 0x1_0000_0000 - va
  {
    hide Filled, LoadPage, RoundDown;
    if va < RoundUp(U32(h.va + h.memsz)) {
      LoadPageFilled(s, p, exe, file, h, va, off, lo, hi);
      LoadPagesFilled(LoadPage(s, p, exe, file, h, va, off), p, exe, file, h, va + 4096, off + 4096, lo, hi);
    }
  }

  lemma {:induction false} LoadFilled(s: Vm, p: nat, exe: Word, file: seq<Byte>, hs: seq<ProgHeader>, lo: nat, hi: nat)
    requires p < NUM_IDS && Filled(s.pmm.at, lo, hi)
    ensures Filled(Load(s, p, exe, file, hs).pmm.at, lo, hi)
    decreases |hs|
  {
    hide Filled, LoadPages, RoundDown;
    if hs != [] {
      LoadPagesFilled(s, p, exe, file, hs[0], RoundDown(hs[0].va), RoundDown(hs[0].offset), lo, hi);
      LoadFilled(LoadSegment(s, p, exe, file, hs[0]), p, exe, file, hs[1..], lo, hi);
    }
  }

  lemma UnmapLeavesTable(s: Vm, p: nat, va: Word)
    requires Inv(s) && Enabled(Unmap(p, va))
    ensures Step(s, Unmap(p, va)).pmm == s.pmm
  {
    hide Inv, EntryByVa;
    UnmapIs(s, p, va);
  }

  lemma BasicFilled(s: Vm, e: Event, lo: nat, hi: nat)
    requires Inv(s) && Enabled(e) && Filled(s.pmm.at, lo, hi)
    ensures Filled(Step(s, e).pmm.at, lo, hi)
  {
    hide Inv, Filled, AllocPage, EntryByVa, AllocFrame, CopyDirs, KctxNew, ForkQuota;
    match e {
      case Store(p, va, b) =>
      case Fault(p, va, errno) =>
        AllocFilled(s, p, lo, hi);
        AllocPageFilled(s, p, va, PTU, lo, hi);
      case MapNew(p, va, perm) => AllocPageFilled(s, p, va, perm, lo, hi);
      case Unmap(p, va) => UnmapLeavesTable(s, p, va);
      case ForkProc(p) =>
        var (m, child) := KctxNew(s.pmm, p, ForkQuota(s.pmm.cont, p));
        SplitLeavesTable(s.pmm, p, ForkQuota(s.pmm.cont, p));
        if child < NUM_IDS {
          CopyDirsFilled(s.(pmm := m), p, child, USERLO, lo, hi);
        }
      case Create(p, quota) => SplitLeavesTable(s.pmm, p, quota);
    }
  }

  /** On such a region a block fits unless it overruns what is left. */
  lemma FitsUnlessOverrun(s: Vm, p: nat, len: Word, lo: nat, hi: nat)
    requires Inv(s) && p < NUM_IDS && len >= 1 && Filled(s.pmm.at, lo, hi)
    ensures Fits(s.pmm, p, len) <==> !Overruns(s, p, len)
  {
    hide Inv;
    var next: nat :| Ledger.Prefix(s.pmm.at, lo, hi, next);
    Ledger.PrefixFree(s.pmm.at, lo, hi, next);
    if next < hi {
      assert IsFree(s.pmm.at, hi) <==> hi <= hi < hi;
      assert len > hi - next ==> next <= hi < next + len;
    }
  }

  lemma BlockFilled(s: Vm, p: nat, va: Word, perm: nat, len: Word, lo: nat, hi: nat)
    requires Inv(s) && Possible(MapBlock(p, va, perm, len)) && Filled(s.pmm.at, lo, hi)
    ensures Filled(AllocConsecutivePage(s, p, va, perm, len).0.pmm.at, lo, hi)
  {
    hide Filled, ConsecutiveAlloc, MapLoop, PdirByVa, TableInv, FrameInv, PmmInv;
    TakeFilled(s.pmm, p, len, lo, hi);
    var (m, r) := ConsecutiveAlloc(s.pmm, p, len);
    MapLoopFilled(s.(pmm := m), p, va, r, perm, len, lo, hi);
  }

  lemma TakeFilled(m: Pmm, p: nat, len: Word, lo: nat, hi: nat)
    requires p < NUM_IDS && len >= 1 && Filled(m.at, lo, hi)
    ensures Filled(ConsecutiveAlloc(m, p, len).0.at, lo, hi)
  {
    var next: nat :| Ledger.Prefix(m.at, lo, hi, next);
    Ledger.PrefixFree(m.at, lo, hi, next);
    if next < hi {
      MarkBeyond(m.at, lo, hi, next, MarkedCount(next, len));
    }
  }

  lemma LaunchFilled(s: Vm, p: nat, quota: Word, exe: Word, file: seq<Byte>, hs: seq<ProgHeader>, lo: nat, hi: nat)
    requires Filled(s.pmm.at, lo, hi)
    ensures Filled(ProcCreate(s, p, quota, exe, file, hs).0.pmm.at, lo, hi)
  {
    hide Filled, Load, KctxNew;
    SplitLeavesTable(s.pmm, p, quota);
    var (m, child) := KctxNew(s.pmm, p, quota);
    if child < NUM_IDS {
      LoadFilled(s.(pmm := m), child, exe, file, hs, lo, hi);
    }
  }

  /** A fault comes from the hardware as it is. */
  predicate Genuine(s: Vm, k: KernelEvent)
    requires Possible(k)
  {
    k.Basic? ==> Raised(s, k.e)
  }

  /** The exact condition on such a region: no fault on the last page that gets a page, and no block
      request that overruns what is left and does not survive it. */
  ghost predicate Kept(s: Vm, k: KernelEvent)
    requires Possible(k)
  {
    match k
    case Basic(e) => Harmless(s, e)
    case MapBlock(p, va, perm, len) =>
      Overruns(s, p, len) ==> LowestFree(s.pmm.at) != 0 && Survives(s, p, va / 4096, perm, len)
    case Launch(_, _, _, _, _) => true
  }

  lemma BlockStep(s: Vm, p: nat, va: Word, perm: nat, len: Word, lo: nat, hi: nat)
    requires Inv(s) && Possible(MapBlock(p, va, perm, len)) && Filled(s.pmm.at, lo, hi)
    ensures var (k, s') := (MapBlock(p, va, perm, len), AllocConsecutivePage(s, p, va, perm, len).0);
            (Inv(s') <==> Kept(s, k)) && (Kept(s, k) ==> Abs(s') == Effect(Abs(s), s, k))
  {
    hide Inv, Overruns, Survives, Fits, AllocConsecutivePage, Abs, ActAll, BlockCount, Fills;
    FitsUnlessOverrun(s, p, len, lo, hi);
    if Overruns(s, p, len) {
      var next: nat :| Ledger.Prefix(s.pmm.at, lo, hi, next);
      OverrunIff(s, p, va, perm, len, lo, hi, next);
    } else {
      BlockRefines(s, p, va, perm, len);
    }
  }

  /** One event: the invariant survives exactly when it should, and then the event has its effect. */
  lemma KernelStepIff(s: Vm, k: KernelEvent, lo: nat, hi: nat)
    requires Inv(s) && Filled(s.pmm.at, lo, hi) && Possible(k) && Genuine(s, k)
    ensures Inv(KernelStep(s, k)) <==> Kept(s, k)
    ensures Kept(s, k) ==> Abs(KernelStep(s, k)) == Effect(Abs(s), s, k)
    ensures Filled(KernelStep(s, k).pmm.at, lo, hi)
  {
    hide Inv, Filled, Step, AllocConsecutivePage, ProcCreate, Overruns, Survives, Raised, Harmless, Abs, Act, Label, ActAll,
         BlockCount, Fills, KctxNew, LaunchMemory;
    match k {
      case Basic(e) =>
        BasicFilled(s, e, lo, hi);
        HarmlessIff(s, e);
        if Harmless(s, e) {
          StepRefines(s, e);
        }
      case MapBlock(p, va, perm, len) =>
        BlockFilled(s, p, va, perm, len, lo, hi);
        BlockStep(s, p, va, perm, len, lo, hi);
      case Launch(p, quota, exe, file, hs) =>
        LaunchFilled(s, p, quota, exe, file, hs, lo, hi);
        LaunchRefines(s, p, quota, exe, file, hs);
    }
  }

  predicate RunGenuine(s: Vm, ks: seq<KernelEvent>)
    requires forall i :: 0 <= i < |ks| ==> Possible(ks[i])
    decreases |ks|
  {
    ks == [] || (Genuine(s, ks[0]) && RunGenuine(KernelStep(s, ks[0]), ks[1..]))
  }

  ghost predicate RunKept(s: Vm, ks: seq<KernelEvent>)
    requires forall i :: 0 <= i < |ks| ==> Possible(ks[i])
    decreases |ks|
  {
    ks == [] || (Kept(s, ks[0]) && RunKept(KernelStep(s, ks[0]), ks[1..]))
  }

  /** The invariant holds in every state of the run. */
  ghost predicate InvThroughout(s: Vm, ks: seq<KernelEvent>)
    requires forall i :: 0 <= i < |ks| ==> Possible(ks[i])
    decreases |ks|
  {
    Inv(s) && (ks == [] || InvThroughout(KernelStep(s, ks[0]), ks[1..]))
  }

  /** Over any run on such a region: the invariant holds throughout exactly when every event meets its
      condition, and then every process has the memory of the private machine. */
  lemma {:induction false} KernelRunIff(s: Vm, ks: seq<KernelEvent>, lo: nat, hi: nat)
    requires Inv(s) && Filled(s.pmm.at, lo, hi) && (forall i :: 0 <= i < |ks| ==> Possible(ks[i])) && RunGenuine(s, ks)
    ensures InvThroughout(s, ks) <==> RunKept(s, ks)
    ensures RunKept(s, ks) ==> Inv(KernelRun(s, ks)) && Abs(KernelRun(s, ks)) == Effects(Abs(s), s, ks)
    decreases |ks|
  {
    hide Inv, Filled, KernelStep, Kept, Genuine, Abs, Effect;
    if ks != [] {
      assert Possible(ks[0]);
      KernelStepIff(s, ks[0], lo, hi);
      if Kept(s, ks[0]) {
        KernelRunIff(KernelStep(s, ks[0]), ks[1..], lo, hi);
      } else {
        BrokenAtOnce(KernelStep(s, ks[0]), ks[1..]);
      }
    }
  }

  lemma BrokenAtOnce(s: Vm, ks: seq<KernelEvent>)
    requires !Inv(s) && forall i :: 0 <= i < |ks| ==> Possible(ks[i])
    ensures !InvThroughout(s, ks)
  {
  }

  /** While no page has been lost to an over-quota request no block within quota overruns. */
  lemma NoLossNoOverrun(s: Vm, p: nat, len: Word)
    requires PmmInv(s.pmm) && p < NUM_IDS && Lost(s.pmm) == 0
    ensures !Overruns(s, p, len)
  {
    SlackBelowTotal(s.pmm, p);
  }

  /** From boot on a machine whose usable pages are one contiguous region, over every run of process
      launches, block mappings, user stores, page faults, mappings, unmappings and forks: the invariant
      holds throughout exactly when every event meets its condition, and then every process has the
      memory of the machine that starts with empty memories and shares nothing. */
  lemma KernelRunFromBoot(s: Vm, es: seq<MemoryMap.E820>, ks: seq<KernelEvent>, lo: nat, hi: nat)
    requires Boot.Booted(s, es) && Ledger.Contiguous(s.pmm.at, lo, hi)
    requires (forall i :: 0 <= i < |ks| ==> Possible(ks[i])) && RunGenuine(s, ks)
    ensures InvThroughout(s, ks) <==> RunKept(s, ks)
    ensures RunKept(s, ks) ==> Inv(KernelRun(s, ks)) && Abs(KernelRun(s, ks)) == Effects(Boot.NoMemory(), s, ks)
  {
    BootFilled(s, es, lo, hi);
    hide Inv, Filled, BootMap, KernelRun, Effects, Abs, RunGenuine, RunKept, InvThroughout;
    Boot.BootIsEmpty(s);
    KernelRunIff(s, ks, lo, hi);
  }

  lemma BootFilled(s: Vm, es: seq<MemoryMap.E820>, lo: nat, hi: nat)
    requires Boot.Booted(s, es) && Ledger.Contiguous(s.pmm.at, lo, hi)
    ensures Inv(s) && Filled(s.pmm.at, lo, hi)
  {
    hide Inv, BootMap;
    Boot.NothingTaken(s, es);
    assert Ledger.Prefix(s.pmm.at, lo, hi, lo);
  }
}
