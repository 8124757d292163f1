/** Whole runs of process creations, user stores, page faults, page allocations and forks, and the
    theorem that they refine a machine in which every process has memory of its own and fork copies
    all of it. */
module CowRefinement {
  import opened Words
  import opened AllocTable
  import opened Containers
  import opened PageTables
  import opened Mapping
  import opened Fork

  // ----- The machine the kernel implements

  datatype Event =
    | Store(p: nat, va: Word, b: Byte)         // a user store instruction, one byte
    | Fault(p: nat, va: Word, errno: nat)      // pgflt_handler
    | MapNew(p: nat, va: Word, perm: nat)      // alloc_page, as the loader and mmap call it
    | Unmap(p: nat, va: Word)                  // unmap_page
    | ForkProc(p: nat)                         // proc_fork
    | Create(p: nat, quota: Word)              // proc_create by process p, up to the loading of the program

  /** Processes 1 to 63 store to any address and fault at any address; the kernel maps and unmaps user
      pages for them, with 12 permission bits and without P_SUPER.  Any process creates processes. */
  predicate Enabled(e: Event) {
    e.p < NUM_IDS && (e.p == 0 ==> e.Create?)
    && (match e
        case Store(_, _, _) => true
        case Fault(_, _, _) => true
        case MapNew(_, va, perm) => UserPage(va / 4096) && perm < 4096 && !Super(perm)
        case Unmap(_, va) => UserPage(va / 4096)
        case ForkProc(_) => true
        case Create(_, _) => true)
  }

  const LASTPAGE := TABLE_SIZE - 1

  /** The error code of a fault says truly whether the page is there, as the hardware reports it; in
      the user range nothing depends on that. */
  predicate Raised(s: Vm, e: Event)
    requires Enabled(e)
  {
    e.Fault? && !UserPage(e.va / 4096) ==> (e.errno % 2 == 1 <==> Present(EntryByVa(s, e.p, e.va)))
  }

  /** Not a fault on the last page of the address space for which a page can be had. */
  predicate Harmless(s: Vm, e: Event)
    requires Enabled(e)
  {
    e.Fault? && e.va / 4096 == LASTPAGE ==> AllocFrame(s, e.p).1 == 0
  }

  /** The paging hardware lets a user store through. */
  predicate StoreAllowed(s: Vm, p: nat, va: Word) {
    var e := EntryByVa(s, p, va);
    Present(e) && Writable(e) && UserOk(e)
  }

  /** `pgflt_handler`: the new state and whether it panics. */
  function PageFault(s: Vm, p: nat, va: Word, errno: nat): (res: (Vm, bool))
    requires p < NUM_IDS
  {
    if errno % 4 == 3 then
      if Cow(EntryByVa(s, p, va)) then (CopyOnWrite(s, p, va), false) else (s, true)
    else if errno % 2 == 1 then (s, true)
    else
      var (s', ret) := AllocPage(s, p, va, PTU);
      (s', ret == MAGIC)
  }

  /** `proc_fork`: the new state, the child (NUM_IDS if refused), and where the copy stopped. */
  function ProcFork(s: Vm, p: nat): (res: (Vm, nat, nat))
    requires p < NUM_IDS
    ensures res.1 != NUM_IDS ==> res.1 < NUM_IDS
  {
    var (m, child) := KctxNew(s.pmm, p, ForkQuota(s.pmm.cont, p));
    if child >= NUM_IDS then (s.(pmm := m), NUM_IDS, USERLO)
    else
      var (s', lim) := VmmCopy(s.(pmm := m), p, child);
      (s', child, lim)
  }

  function Step(s: Vm, e: Event): (r: Vm)
    requires Enabled(e)
  {
    match e
    case Store(p, va, b) =>
      if StoreAllowed(s, p, va) then
        var f := Frame(EntryByVa(s, p, va));
        SetFrame(s, f, StoreByte(s.phys[f], va % 4096, b))
      else s
    case Fault(p, va, errno) => PageFault(s, p, va, errno).0
    case MapNew(p, va, perm) => AllocPage(s, p, va, perm).0
    case Unmap(p, va) =>
      match UnmapPage(s, p, va) {
        case Some((s', _)) => s'
        case None => s
      }
    case ForkProc(p) => ProcFork(s, p).0
    case Create(p, quota) => s.(pmm := KctxNew(s.pmm, p, quota).0)
  }

  function Run(s: Vm, evs: seq<Event>): (r: Vm)
    requires forall k :: 0 <= k < |evs| ==> Enabled(evs[k])
    decreases |evs|
  {
    if evs == [] then s else Run(Step(s, evs[0]), evs[1..])
  }

  /** Every event of the run comes from the hardware as it is. */
  predicate RunRaised(s: Vm, evs: seq<Event>)
    requires forall k :: 0 <= k < |evs| ==> Enabled(evs[k])
    decreases |evs|
  {
    evs == [] || (Raised(s, evs[0]) && RunRaised(Step(s, evs[0]), evs[1..]))
  }

  predicate RunHarmless(s: Vm, evs: seq<Event>)
    requires forall k :: 0 <= k < |evs| ==> Enabled(evs[k])
    decreases |evs|
  {
    evs == [] || (Harmless(s, evs[0]) && RunHarmless(Step(s, evs[0]), evs[1..]))
  }

  // ----- The machine with private memories

  type Private = map<int, Page>
  type Memories = a: seq<Private> | |a| == NUM_IDS witness seq<Private>(64, _ => map[])

  datatype Action =
    | WriteByte(p: nat, u: int, off: nat, b: Byte)
    | ZeroFill(p: nat, u: int)
    | Drop(p: nat, u: int)
    | CopyAll(p: nat, child: nat, lim: nat)    // pages below directory index lim; all if lim is USERHI
    | Stutter

  predicate Legal(c: Action) {
    match c
    case WriteByte(p, _, off, _) => p < NUM_IDS && off < 4096
    case ZeroFill(p, _) => p < NUM_IDS
    case Drop(p, _) => p < NUM_IDS
    case CopyAll(p, child, _) => p < NUM_IDS && child < NUM_IDS
    case Stutter => true
  }

  function Put(m: Private, u: int, pg: Page): (r: Private) {
    var one: Private := map[u := pg];
    m + one
  }

  function Act(a: Memories, c: Action): (r: Memories)
    requires Legal(c)
  {
    match c
    case WriteByte(p, u, off, b) => if u in a[p] then a[p := Put(a[p], u, StoreByte(a[p][u], off, b))] else a
    case ZeroFill(p, u) => a[p := Put(a[p], u, ZeroPage())]
    case Drop(p, u) => a[p := a[p] - {u}]
    case CopyAll(p, child, lim) => a[child := map u | u in a[p] && u < lim * 1024 :: a[p][u]]
    case Stutter => a
  }

  function ActAll(a: Memories, cs: seq<Action>): (r: Memories)
    requires forall k :: 0 <= k < |cs| ==> Legal(cs[k])
    decreases |cs|
  {
    if cs == [] then a else ActAll(Act(a, cs[0]), cs[1..])
  }

  /** What each kernel event is to the private machine. */
  function Label(s: Vm, e: Event): (c: Action)
    requires Enabled(e)
    ensures Legal(c)
  {
    match e
    case Store(p, va, b) => if StoreAllowed(s, p, va) then WriteByte(p, va / 4096, va % 4096, b) else Stutter
    case Fault(p, va, errno) =>
      if errno % 2 == 1 || AllocPage(s, p, va, PTU).1 == MAGIC then Stutter else ZeroFill(p, va / 4096)
    case MapNew(p, va, perm) =>
      if AllocPage(s, p, va, perm).1 == MAGIC then Stutter
      else if Present(perm) then ZeroFill(p, va / 4096) else Drop(p, va / 4096)
    case Unmap(p, va) => Drop(p, va / 4096)
    case ForkProc(p) =>
      var (_, child, lim) := ProcFork(s, p);
      if child == NUM_IDS then Stutter else CopyAll(p, child, lim)
    case Create(_, _) => Stutter
  }

  function Labels(s: Vm, evs: seq<Event>): (cs: seq<Action>)
    requires forall k :: 0 <= k < |evs| ==> Enabled(evs[k])
    ensures |cs| == |evs| && forall k :: 0 <= k < |cs| ==> Legal(cs[k])
    decreases |evs|
  {
    if evs == [] then [] else [Label(s, evs[0])] + Labels(Step(s, evs[0]), evs[1..])
  }

  // ----- Abstraction

  function ViewAt(s: Vm, p: int, u: int): (v: Option<Page>) {
    if 1 <= p < NUM_IDS && UserPage(u) then View(s, p, u / 1024, u % 1024) else None
  }

  function MemoryOf(s: Vm, p: int): (m: Private) {
    map u | USERLO * 1024 <= u < USERHI * 1024 && ViewAt(s, p, u).Some? :: ViewAt(s, p, u).value
  }

  /** The memory of every process, as the process sees it. */
  function Abs(s: Vm): (a: Memories) {
    seq(NUM_IDS, p => MemoryOf(s, p))
  }

  ghost predicate SameAt(s: Vm, s': Vm, p: int) {
    forall u :: ViewAt(s', p, u) == ViewAt(s, p, u)
  }

  lemma SameMemory(s: Vm, s': Vm, p: int)
    requires SameAt(s, s', p)
    ensures MemoryOf(s', p) == MemoryOf(s, p)
  {
  }

  lemma CellsOfPage(u: int)
    requires UserPage(u)
    ensures USERLO <= u / 1024 < USERHI && 0 <= u % 1024 < 1024
  {
  }

  lemma SameViewsAbs(s: Vm, s': Vm)
    requires SameViews(s, s')
    ensures Abs(s') == Abs(s)
  {
    forall p | 0 <= p < NUM_IDS ensures Abs(s')[p] == Abs(s)[p] {
      forall u ensures ViewAt(s', p, u) == ViewAt(s, p, u) {
        if 1 <= p && UserPage(u) {
          CellsOfPage(u);
        }
      }
      SameMemory(s, s', p);
    }
  }

  /** One page of one process changed. */
  lemma OnePageAbs(s: Vm, s': Vm, p: nat, u: int)
    requires 1 <= p < NUM_IDS && UserPage(u) && SameViewsButCell(s, s', p, u / 1024, u % 1024)
    ensures Abs(s') == Abs(s)[p := match ViewAt(s', p, u)
                                   case Some(pg) => Put(Abs(s)[p], u, pg)
                                   case None => Abs(s)[p] - {u}]
  {
    forall q, x | 0 <= q < NUM_IDS && !(q == p && x == u) ensures ViewAt(s', q, x) == ViewAt(s, q, x) {
      if 1 <= q && UserPage(x) {
        CellsOfPage(x);
        assert x / 1024 == u / 1024 && x % 1024 == u % 1024 ==> x == u;
      }
    }
    forall q | 0 <= q < NUM_IDS && q != p ensures Abs(s')[q] == Abs(s)[q] {
      SameMemory(s, s', q);
    }
    OneMemory(s, s', p, u);
  }

  lemma OneMemory(s: Vm, s': Vm, p: nat, u: int)
    requires UserPage(u) && forall x :: x != u ==> ViewAt(s', p, x) == ViewAt(s, p, x)
    ensures MemoryOf(s', p) == match ViewAt(s', p, u)
                              case Some(pg) => Put(MemoryOf(s, p), u, pg)
                              case None => MemoryOf(s, p) - {u}
  {
  }

  lemma CopyMemory(s: Vm, s': Vm, p: nat, child: nat, lim: nat)
    requires 1 <= p < NUM_IDS && 1 <= child < NUM_IDS && lim <= USERHI
    requires forall k, l :: Cell(child, k, l) ==> View(s', child, k, l) == if k < lim then View(s, p, k, l) else None
    ensures MemoryOf(s', child) == map u | u in MemoryOf(s, p) && u < lim * 1024 :: MemoryOf(s, p)[u]
  {
    forall u ensures ViewAt(s', child, u) == if u < lim * 1024 then ViewAt(s, p, u) else None {
      if UserPage(u) {
        CellsOfPage(u);
        assert u / 1024 < lim <==> u < lim * 1024;
      }
    }
  }

  // ----- Each event

  lemma StoreKeeps(s: Vm, p: nat, i: nat, j: nat, pg: Page)
    requires TableInv(s) && FrameInv(s) && Mapped(s, p, i, j) && Writable(Ent(s, p, i, j))
    ensures var s' := SetFrame(s, FrameOf(s, p, i, j), pg);
            TableInv(s') && FrameInv(s') && SameViewsButCell(s, s', p, i, j) && View(s', p, i, j) == Some(pg)
  {
    FrameWriteKeeps(s, FrameOf(s, p, i, j), pg);
    OthersKeepView(s, p, i, j, FrameOf(s, p, i, j), pg);
  }

  /** The cell of a user address, and the entry the accessors find there. */
  lemma UserCell(s: Vm, p: nat, va: Word)
    requires 1 <= p < NUM_IDS && UserPage(va / 4096)
    ensures Cell(p, DirOf(va), TblOf(va)) && DirOf(va) == va / 4096 / 1024 && TblOf(va) == va / 4096 % 1024
    ensures EntryByVa(s, p, va) == Seen(Ent(s, p, DirOf(va), TblOf(va)))
  {
  }

  lemma StoreRefines(s: Vm, p: nat, va: Word, b: Byte)
    requires Inv(s) && Enabled(Store(p, va, b))
    ensures var e := Store(p, va, b);
            Inv(Step(s, e)) && Abs(Step(s, e)) == Act(Abs(s), Label(s, e))
  {
    hide Inv, Abs, StoreAllowed, Label, Step, Act;
    if StoreAllowed(s, p, va) {
      if !UserPage(va / 4096) {
        KernelRefusesStore(s, p, va);
        assert false;
      }
      AllowedStoreRefines(s, p, va, b);
    } else {
      RefusedStore(s, p, va, b);
    }
  }

  lemma RefusedStore(s: Vm, p: nat, va: Word, b: Byte)
    requires Enabled(Store(p, va, b)) && !StoreAllowed(s, p, va)
    ensures Step(s, Store(p, va, b)) == s && Label(s, Store(p, va, b)) == Stutter && Act(Abs(s), Stutter) == Abs(s)
  {
  }

  lemma AllowedStoreRefines(s: Vm, p: nat, va: Word, b: Byte)
    requires Inv(s) && Enabled(Store(p, va, b)) && UserPage(va / 4096) && StoreAllowed(s, p, va)
    ensures var e := Store(p, va, b);
            Inv(Step(s, e)) && Abs(Step(s, e)) == Act(Abs(s), Label(s, e))
  {
    hide TableInv, FrameInv, PmmInv, SameViewsButCell, Abs, EntryByVa, Ent, SetFrame, StoreByte, DirOf, TblOf;
    var u := va / 4096;
    var i, j := DirOf(va), TblOf(va);
    UserCell(s, p, va);
    var f := FrameOf(s, p, i, j);
    var pg := StoreByte(s.phys[f], va % 4096, b);
    StoreKeeps(s, p, i, j, pg);
    FrameLeavesPmm(s, f, pg);
    OnePageAbs(s, SetFrame(s, f, pg), p, u);
    AbsAt(s, p, u);
  }

  /** What the accessors find outside the user range: the identity, or nothing on the last page. */
  lemma KernelEntry(s: Vm, p: nat, va: Word)
    requires Inv(s) && p < NUM_IDS && !UserPage(va / 4096)
    ensures var e := EntryByVa(s, p, va);
            (va / 4096 == LASTPAGE ==> e == 0)
            && (va / 4096 != LASTPAGE ==> Present(e) && !UserOk(e) && !Cow(e))
  {
    hide TableInv, FrameInv, PmmInv, EntryByVa, Flat, Entry;
    FlatByVa(s, p, va);
    IdentityFlat(s, p, va / 4096);
    EntryFields(va / 4096, PTE_P + PTE_W + PTE_G);
  }

  lemma IdentityFlat(s: Vm, p: nat, v: int)
    requires TableInv(s) && p < NUM_IDS && 0 <= v < TABLE_SIZE && !UserPage(v)
    ensures Flat(s, p, v) == if v == LASTPAGE then 0 else Entry(v, PTE_P + PTE_W + PTE_G)
  {
    hide Flat, Entry;
    FlatIdentity(s, p, v);
  }

  lemma KernelRefusesStore(s: Vm, p: nat, va: Word)
    requires Inv(s) && p < NUM_IDS && !UserPage(va / 4096)
    ensures !StoreAllowed(s, p, va)
  {
    hide Inv, EntryByVa;
    KernelEntry(s, p, va);
  }

  lemma FrameLeavesPmm(s: Vm, f: nat, pg: Page)
    requires f < TABLE_SIZE
    ensures SetFrame(s, f, pg).pmm == s.pmm
  {
  }

  lemma AbsAt(s: Vm, p: nat, u: int)
    requires 1 <= p < NUM_IDS && UserPage(u)
    ensures u in Abs(s)[p] <==> ViewAt(s, p, u).Some?
    ensures u in Abs(s)[p] ==> Abs(s)[p][u] == ViewAt(s, p, u).value
  {
  }

  lemma MapNewRefines(s: Vm, p: nat, va: Word, perm: nat)
    requires Inv(s) && Enabled(MapNew(p, va, perm))
    ensures var e := MapNew(p, va, perm);
            Inv(Step(s, e)) && Abs(Step(s, e)) == Act(Abs(s), Label(s, e))
  {
    hide Inv, SameViews, SameViewsButCell, Abs, AllocPage, View;
    var u := va / 4096;
    var (s', ret) := AllocPage(s, p, va, perm);
    UserCell(s, p, va);
    AllocPageIsZeroFill(s, p, va, perm);
    if ret == MAGIC {
      SameViewsAbs(s, s');
    } else {
      OnePageAbs(s, s', p, u);
    }
  }

  lemma CowFaultRefines(s: Vm, p: nat, va: Word)
    requires Inv(s) && 1 <= p < NUM_IDS && UserPage(va / 4096) && Cow(EntryByVa(s, p, va))
    ensures Inv(CopyOnWrite(s, p, va)) && Abs(CopyOnWrite(s, p, va)) == Abs(s)
  {
    hide Inv, SameViews, CopyOnWrite, Abs, EntryByVa;
    UserCell(s, p, va);
    CopyOnWriteIsInvisible(s, p, va);
    SameViewsAbs(s, CopyOnWrite(s, p, va));
  }

  /** The fault a store takes makes the store possible, provided the process gets a page: its next
      attempt is let through, on a copy-on-write page as on a missing one. */
  lemma FaultEnablesStore(s: Vm, p: nat, va: Word, errno: nat)
    requires Inv(s) && 1 <= p < NUM_IDS && UserPage(va / 4096) && AllocFrame(s, p).1 != 0
    requires !PageFault(s, p, va, errno).1
    ensures StoreAllowed(PageFault(s, p, va, errno).0, p, va)
  {
    hide Inv, SameViews, SameViewsButCell, SameEntriesBut, Unshared, CopyOnWrite, AllocPage, EntryByVa, Ent, DirOf, TblOf,
         AllocFrame, UserPage, View;
    UserCell(s, p, va);
    UserCell(PageFault(s, p, va, errno).0, p, va);
    if errno % 4 == 3 {
      CopyOnWriteIsInvisible(s, p, va);
    } else {
      AllocPageIsZeroFill(s, p, va, PTU);
    }
  }

  lemma UserFaultRefines(s: Vm, p: nat, va: Word, errno: nat)
    requires Inv(s) && Enabled(Fault(p, va, errno)) && UserPage(va / 4096)
    ensures var e := Fault(p, va, errno);
            Inv(Step(s, e)) && Abs(Step(s, e)) == Act(Abs(s), Label(s, e))
  {
    hide Inv, Abs, CopyOnWrite, AllocPage, EntryByVa;
    if errno % 4 == 3 {
      if Cow(EntryByVa(s, p, va)) {
        CowFaultRefines(s, p, va);
      }
    } else if errno % 2 == 0 {
      MapNewRefines(s, p, va, PTU);
    }
  }

  /** A fault in the kernel range panics; on its last page, with no page to be had, it panics too. */
  lemma KernelFaultRefines(s: Vm, p: nat, va: Word, errno: nat)
    requires Inv(s) && Enabled(Fault(p, va, errno)) && !UserPage(va / 4096)
    requires Raised(s, Fault(p, va, errno)) && Harmless(s, Fault(p, va, errno))
    ensures var e := Fault(p, va, errno);
            Inv(Step(s, e)) && Abs(Step(s, e)) == Act(Abs(s), Label(s, e)) == Abs(s) && PageFault(s, p, va, errno).1
  {
    hide Inv, Abs, CopyOnWrite, EntryByVa, AllocFrame, MapPage;
    KernelEntry(s, p, va);
    if errno % 2 == 0 {
      RefusedFrame(s, p);
    }
  }

  /** A page asked for and not obtained changes what no process sees. */
  lemma RefusedFrame(s: Vm, p: nat)
    requires Inv(s) && p < NUM_IDS && AllocFrame(s, p).1 == 0
    ensures Inv(AllocFrame(s, p).0) && Abs(AllocFrame(s, p).0) == Abs(s)
  {
    var s1 := AllocFrame(s, p).0;
    AllocFramePmm(s, p);
    AllocFrameTables(s, p);
    AllocFrameFrames(s, p);
    hide TableInv, FrameInv, PmmInv, AllocFrame;
    SameEnts(s, s1);
    StructuresViews(s, s1);
    SameViewsAbs(s, s1);
  }

  /** The last page of the address space is missing at boot, its directory slot is open to user mode,
      and its page table is the one all processes share.  A fault there for which a page can be had
      maps that page, writable, into every process at once. */
  lemma LastPageIsShared(s: Vm, p: nat, q: nat, b: Byte)
    requires Inv(s) && 1 <= p < NUM_IDS && 1 <= q < NUM_IDS && AllocFrame(s, p).1 != 0
    ensures var (s', panic) := PageFault(s, p, 0xFFFF_F000, 4);
            !panic && !Inv(s') && StoreAllowed(s', p, 0xFFFF_F000) && StoreAllowed(s', q, 0xFFFF_F000)
            && Frame(EntryByVa(s', p, 0xFFFF_F000)) == Frame(EntryByVa(s', q, 0xFFFF_F000))
            && ByteRead(Step(s', Store(p, 0xFFFF_F000, b)), q, 0xFFFF_F000) == b
  {
    hide Inv, AllocPage, EntryByVa, AllocFrame, Step, ByteRead;
    LastPageMapped(s, p, q, 0xFFFF_F000);
    LastPageByte(s, p, q, 0xFFFF_F000, b);
  }

  /** The byte an access by process `q` at `va` finds, through the entry the accessors return. */
  function ByteRead(s: Vm, q: nat, va: Word): (b: Byte) {
    ByteAt(s.phys[Frame(EntryByVa(s, q, va))], va % 4096)
  }

  /** A byte one process stores there is the byte every other process reads there. */
  lemma LastPageByte(s: Vm, p: nat, q: nat, va: Word, b: Byte)
    requires Inv(s) && 1 <= p < NUM_IDS && 1 <= q < NUM_IDS && AllocFrame(s, p).1 != 0 && va / 4096 == LASTPAGE
    ensures ByteRead(Step(AllocPage(s, p, va, PTU).0, Store(p, va, b)), q, va) == b
  {
    var (s1, r) := AllocFrame(s, p);
    LastPageState(s, p, va);
    FreshIsNormal(s, p);
    hide Inv, AllocPage, AllocFrame, StoreByte, ByteAt;
    var s' := SetWord(s1, p, 1023, 1023, Entry(r, PTU));
    SharedTable(s1, p, q, Entry(r, PTU));
    EntryFields(r, PTU);
    var pg := StoreByte(s'.phys[r], va % 4096, b);
    SameSharedEntry(s', q, r, pg);
    StoreByteGet(s'.phys[r], va % 4096, b, va % 4096);
  }

  lemma FreshIsNormal(s: Vm, p: nat)
    requires Inv(s) && p < NUM_IDS && AllocFrame(s, p).1 != 0
    ensures USERLO_PI <= AllocFrame(s, p).1 < TABLE_SIZE
  {
    hide Inv;
  }

  lemma SameSharedEntry(s: Vm, q: nat, r: nat, pg: Page)
    requires KernelDirs(s) && q < NUM_IDS && USERLO_PI <= r < TABLE_SIZE
    ensures EntryAt(SetFrame(s, r, pg), q, 1023, 1023) == EntryAt(s, q, 1023, 1023)
  {
    EntryFields(s.idBase + 1023, PTU);
    assert s.pdir[q][1023] == Entry(s.idBase + 1023, PTU);
  }

  lemma LastPageMapped(s: Vm, p: nat, q: nat, va: Word)
    requires Inv(s) && 1 <= p < NUM_IDS && 1 <= q < NUM_IDS && AllocFrame(s, p).1 != 0 && va / 4096 == LASTPAGE
    ensures var (s', ret) := AllocPage(s, p, va, PTU);
            ret != MAGIC && !Inv(s') && StoreAllowed(s', p, va) && StoreAllowed(s', q, va)
            && Frame(EntryByVa(s', p, va)) == Frame(EntryByVa(s', q, va))
  {
    var (s1, r) := AllocFrame(s, p);
    LastPageState(s, p, va);
    hide Inv, AllocPage, AllocFrame;
    SharedTable(s1, p, q, Entry(r, PTU));
    EntryFields(r, PTU);
    var s' := SetWord(s1, p, 1023, 1023, Entry(r, PTU));
    IdentityBroken(s');
  }

  /** Its page table is the last identity table, so the call is one write to that. */
  lemma LastPageState(s: Vm, p: nat, va: Word)
    requires Inv(s) && 1 <= p < NUM_IDS && AllocFrame(s, p).1 != 0 && va / 4096 == LASTPAGE
    ensures var (s1, r) := AllocFrame(s, p);
            KernelDirs(s1) && r < TABLE_SIZE && DirOf(va) == 1023 && TblOf(va) == 1023
            && AllocPage(s, p, va, PTU).0 == SetWord(s1, p, 1023, 1023, Entry(r, PTU))
            && AllocPage(s, p, va, PTU).1 != MAGIC
  {
    hide AllocFrame, PmmInv, FrameInv, TableInv, Entry;
    var (s1, r) := AllocFrame(s, p);
    AllocFrameTables(s, p);
    KernelDirsOf(s1);
    LastIndex(va);
    EntryFields(s1.idBase + 1023, PTU);
    assert s1.pdir[p][1023] == Entry(s1.idBase + 1023, PTU);
    assert Perm(MAGIC) == 1;
  }

  lemma KernelDirsOf(s: Vm)
    requires TableInv(s)
    ensures KernelDirs(s)
  {
  }

  lemma LastIndex(va: Word)
    requires va / 4096 == LASTPAGE
    ensures DirOf(va) == 1023 && TblOf(va) == 1023
  {
  }

  lemma SharedTable(s: Vm, p: nat, q: nat, e: Word)
    requires KernelDirs(s) && p < NUM_IDS && q < NUM_IDS
    ensures var s' := SetWord(s, p, 1023, 1023, e);
            EntryAt(s', p, 1023, 1023) == EntryAt(s', q, 1023, 1023) == Seen(e) && IdWord(s', 1023, 1023) == e
  {
    EntryFields(s.idBase + 1023, PTU);
    assert s.pdir[p][1023] == s.pdir[q][1023] == Entry(s.idBase + 1023, PTU);
  }

  lemma IdentityBroken(s: Vm)
    requires Present(IdWord(s, 1023, 1023))
    ensures !Inv(s)
  {
    assert IdEntry(1023, 1023) == 0;
  }

  /** A fault the hardware raises refines its label and keeps the invariant exactly when it is not on
      the last page or no page can be had for it. */
  lemma FaultRefinesIff(s: Vm, p: nat, va: Word, errno: nat)
    requires Inv(s) && Enabled(Fault(p, va, errno)) && Raised(s, Fault(p, va, errno))
    ensures var e := Fault(p, va, errno);
            Inv(Step(s, e)) && Abs(Step(s, e)) == Act(Abs(s), Label(s, e))
            <==> va / 4096 != LASTPAGE || AllocFrame(s, p).1 == 0
  {
    hide Inv, Abs, Step, Act, Label, Raised, AllocFrame;
    var e := Fault(p, va, errno);
    if UserPage(va / 4096) {
      UserFaultRefines(s, p, va, errno);
    } else if Harmless(s, e) {
      KernelFaultRefines(s, p, va, errno);
    } else {
      LastPageBreaks(s, p, va, errno);
    }
  }

  lemma LastPageBreaks(s: Vm, p: nat, va: Word, errno: nat)
    requires Inv(s) && Enabled(Fault(p, va, errno)) && Raised(s, Fault(p, va, errno))
    requires va / 4096 == LASTPAGE && AllocFrame(s, p).1 != 0
    ensures !Inv(Step(s, Fault(p, va, errno)))
  {
    hide Inv, AllocPage, AllocFrame, EntryByVa, CopyOnWrite;
    KernelEntry(s, p, va);
    LastPageMapped(s, p, p, va);
  }

  lemma UnmapKeeps(s: Vm, p: nat, i: nat, j: nat)
    requires TableInv(s) && FrameInv(s) && Mapped(s, p, i, j)
    ensures var s' := SetWord(s, p, i, j, 0);
            TableInv(s') && FrameInv(s') && SameViewsButCell(s, s', p, i, j) && View(s', p, i, j) == None && s'.pmm == s.pmm
  {
    WriteTables(s, p, i, j, 0);
    WriteFrames(s, p, i, j, 0);
    WriteViews(s, p, i, j, 0);
    WriteViewHere(s, p, i, j, 0);
  }

  lemma NotSuper(s: Vm, p: nat, va: Word)
    requires FrameInv(s) && 1 <= p < NUM_IDS && UserPage(va / 4096)
    ensures !Super(EntryByVa(s, p, va))
  {
    UserCell(s, p, va);
    assert Mapped(s, p, DirOf(va), TblOf(va)) ==> !Super(Ent(s, p, DirOf(va), TblOf(va)));
  }

  lemma UnmapRefines(s: Vm, p: nat, va: Word)
    requires Inv(s) && Enabled(Unmap(p, va))
    ensures var e := Unmap(p, va);
            Inv(Step(s, e)) && Abs(Step(s, e)) == Act(Abs(s), Label(s, e))
  {
    hide Inv, Abs, Step, EntryByVa, SetWord, DirOf, TblOf, Ent;
    UserCell(s, p, va);
    UnmapIs(s, p, va);
    if EntryByVa(s, p, va) != 0 {
      DropPage(s, p, va / 4096);
    } else {
      NothingToDrop(s, p, va / 4096);
    }
  }

  lemma UnmapIs(s: Vm, p: nat, va: Word)
    requires Inv(s) && Enabled(Unmap(p, va))
    ensures Step(s, Unmap(p, va)) == if EntryByVa(s, p, va) == 0 then s else SetWord(s, p, DirOf(va), TblOf(va), 0)
  {
    NotSuper(s, p, va);
    hide Inv, EntryByVa, SetWord, DirOf, TblOf, UnmapLoop;
  }

  lemma DropPage(s: Vm, p: nat, u: int)
    requires Inv(s) && 1 <= p < NUM_IDS && UserPage(u) && Mapped(s, p, u / 1024, u % 1024)
    ensures var s' := SetWord(s, p, u / 1024, u % 1024, 0);
            Inv(s') && Abs(s') == Abs(s)[p := Abs(s)[p] - {u}]
  {
    CellsOfPage(u);
    hide TableInv, FrameInv, PmmInv, Abs, SetWord, SameViewsButCell, Ent;
    UnmapKeeps(s, p, u / 1024, u % 1024);
    OnePageAbs(s, SetWord(s, p, u / 1024, u % 1024, 0), p, u);
  }

  lemma NothingToDrop(s: Vm, p: nat, u: int)
    requires 1 <= p < NUM_IDS && UserPage(u) && !Mapped(s, p, u / 1024, u % 1024)
    ensures Abs(s) == Abs(s)[p := Abs(s)[p] - {u}]
  {
    CellsOfPage(u);
    AbsAt(s, p, u);
    assert Abs(s)[p] - {u} == Abs(s)[p];
  }

  lemma SplitTables(s: Vm, m: Pmm)
    requires TableInv(s) && FrameInv(s) && PmmInv(m) && m.at == s.pmm.at
    requires forall x :: 0 <= x < NUM_IDS && s.pmm.cont[x].used ==> m.cont[x].used
    ensures TableInv(s.(pmm := m)) && FrameInv(s.(pmm := m)) && SameViews(s, s.(pmm := m))
  {
    var s' := s.(pmm := m);
    SameEnts(s, s');
    StructuresViews(s, s');
    forall p, i | HasTable(s', p, i)
      ensures IsTaken(m.at, TableOf(s', p, i)) && Perm(s'.pdir[p][i]) == PTU && m.cont[p].used
    {
      assert HasTable(s, p, i);
    }
    forall p, i, j | Mapped(s', p, i, j) ensures IsTaken(m.at, FrameOf(s', p, i, j)) {
      assert Mapped(s, p, i, j);
    }
  }

  lemma CreateRefines(s: Vm, p: nat, quota: Word)
    requires Inv(s) && p < NUM_IDS
    ensures var e := Create(p, quota);
            Inv(Step(s, e)) && Abs(Step(s, e)) == Act(Abs(s), Label(s, e))
  {
    hide Abs, SameViews;
    var m := KctxNew(s.pmm, p, quota).0;
    KctxNewKeeps(s.pmm, p, quota);
    KctxNewForm(s.pmm, p, quota);
    SplitTables(s, m);
    SameViewsAbs(s, s.(pmm := m));
  }

  /** And the new process gets the quota asked for, charged to its creator. */
  lemma CreateGives(s: Vm, p: nat, quota: Word)
    requires Inv(s) && p < NUM_IDS
    ensures var (m', child) := (Step(s, Create(p, quota)).pmm, 3 * p + 1 + s.pmm.cont[p].nchildren);
            if HasSlot(s.pmm.cont, p) && quota <= Slack(s.pmm.cont[p]) then SplitGives(s.pmm, m', p, quota, child) else m' == s.pmm
  {
    KctxNewGives(s.pmm, p, quota);
  }

  /** A page mapped for a process has the permissions asked for. */
  lemma MapNewPermissions(s: Vm, p: nat, va: Word, perm: nat)
    requires Inv(s) && Enabled(MapNew(p, va, perm)) && AllocPage(s, p, va, perm).1 != MAGIC
    ensures var e := EntryByVa(Step(s, MapNew(p, va, perm)), p, va);
            if Present(perm) then Perm(e) == perm else e == 0
  {
    var s' := AllocPage(s, p, va, perm).0;
    UserCell(s, p, va);
    UserCell(s', p, va);
    hide Inv, AllocPage, EntryByVa, Ent, SameViews, SameViewsButCell, SameEntries, SameEntriesBut, Unshared, View, DirOf, TblOf;
    AllocPageIsZeroFill(s, p, va, perm);
    assert Perm(perm) == perm;
  }

  /** The split made by a fork: the child has no page tables yet. */
  lemma ForkSplit(s: Vm, p: nat)
    requires Inv(s) && 1 <= p < NUM_IDS
    ensures var (m, child) := KctxNew(s.pmm, p, ForkQuota(s.pmm.cont, p));
            var s1 := s.(pmm := m);
            Inv(s1) && SameViews(s, s1) && Lost(m) == Lost(s.pmm)
            && (child == NUM_IDS || (p < child < NUM_IDS && NoTablesFrom(s1, child, USERLO)
                                     && Slack(m.cont[child]) == Slack(s.pmm.cont[p]) / 2))
  {
    var q := ForkQuota(s.pmm.cont, p);
    var (m, child) := KctxNew(s.pmm, p, q);
    var s1 := s.(pmm := m);
    KctxNewKeeps(s.pmm, p, q);
    KctxNewForm(s.pmm, p, q);
    SplitTables(s, m);
    if child != NUM_IDS {
      ForkQuotaAlwaysFits(s.pmm, p);
      assert UnusedIsEmpty(s) && !s.pmm.cont[child].used;
      forall k | USERLO <= k < USERHI ensures !HasTable(s1, child, k) {
        assert !HasTable(s, child, k);
      }
    }
  }

  lemma ForkRefines(s: Vm, p: nat)
    requires Inv(s) && Enabled(ForkProc(p))
    ensures var e := ForkProc(p);
            Inv(Step(s, e)) && Abs(Step(s, e)) == Act(Abs(s), Label(s, e))
  {
    hide TableInv, FrameInv, PmmInv, Abs, Lost, SameViews, SameViewsBut, NoTablesFrom, KctxNew, ForkQuota, CopyDirs;
    var (m, child) := KctxNew(s.pmm, p, ForkQuota(s.pmm.cont, p));
    var s1 := s.(pmm := m);
    ForkSplit(s, p);
    SameViewsAbs(s, s1);
    if child < NUM_IDS {
      var (s', lim) := VmmCopy(s1, p, child);
      VmmCopyIsEagerCopy(s1, p, child);
      CopyDirsPmm(s1, p, child, USERLO);
      CopyMemory(s1, s', p, child, lim);
      OnlyChildChanges(s1, s', child);
      AbsIs(s1, p);
    }
  }

  /** A fork that finds a child slot copies the whole address space exactly when the parent has no
      more page tables than half the pages it may still ask for (while no page was lost). */
  lemma ForkCompletes(s: Vm, p: nat)
    requires Inv(s) && 1 <= p < NUM_IDS && Lost(s.pmm) == 0 && ProcFork(s, p).1 != NUM_IDS
    ensures ProcFork(s, p).2 == USERHI <==> TableCount(s, p, USERLO) <= Slack(s.pmm.cont[p]) / 2
  {
    hide TableInv, FrameInv, PmmInv, Lost, SameViews, NoTablesFrom, KctxNew, ForkQuota, CopyDirs;
    var (m, child) := KctxNew(s.pmm, p, ForkQuota(s.pmm.cont, p));
    var s1 := s.(pmm := m);
    ForkSplit(s, p);
    StartOfCopy(s1, p, child);
    CopyDirsCompletes(s1, p, child, USERLO);
    TableCountSame(s, s1, p, USERLO);
  }

  lemma StartOfCopy(s: Vm, p: nat, child: nat)
    requires TableInv(s) && FrameInv(s) && 1 <= p < child < NUM_IDS && NoTablesFrom(s, child, USERLO)
    ensures AtDir(s, p, child, USERLO)
  {
    assert Mirrors(s, p, child, USERLO, 0);
  }

  lemma AbsIs(s: Vm, p: nat)
    requires p < NUM_IDS
    ensures Abs(s)[p] == MemoryOf(s, p)
  {
  }

  lemma OnlyChildChanges(s: Vm, s': Vm, c: nat)
    requires 1 <= c < NUM_IDS && SameViewsBut(s, s', c)
    ensures Abs(s') == Abs(s)[c := MemoryOf(s', c)]
  {
    forall q | 0 <= q < NUM_IDS && q != c ensures Abs(s')[q] == Abs(s)[q] {
      forall u ensures ViewAt(s', q, u) == ViewAt(s, q, u) {
        if 1 <= q && UserPage(u) {
          CellsOfPage(u);
        }
      }
      SameMemory(s, s', q);
    }
  }

  // ----- Runs

  lemma StepRefines(s: Vm, e: Event)
    requires Inv(s) && Enabled(e) && Raised(s, e) && Harmless(s, e)
    ensures Inv(Step(s, e)) && Abs(Step(s, e)) == Act(Abs(s), Label(s, e))
  {
    hide Inv, Abs, Step, Act, Label;
    match e {
      case Store(p, va, b) => StoreRefines(s, p, va, b);
      case Fault(p, va, errno) => FaultRefinesIff(s, p, va, errno);
      case MapNew(p, va, perm) => MapNewRefines(s, p, va, perm);
      case Unmap(p, va) => UnmapRefines(s, p, va);
      case ForkProc(p) => ForkRefines(s, p);
      case Create(p, quota) => CreateRefines(s, p, quota);
    }
  }

  /** Copy-on-write fork is eager copying: after any run without a fault on the last page for which
      a page can be had, from any state satisfying the invariant, every process sees the memory the
      private machine gives it; the invariant (writable frames are mapped once, tables are distinct
      and never data, free pages are zero, kernel mappings are the identity) holds throughout, also
      when a copy stops midway for want of a page. */
  lemma {:induction false} RunRefines(s: Vm, evs: seq<Event>)
    requires Inv(s) && forall k :: 0 <= k < |evs| ==> Enabled(evs[k])
    requires RunRaised(s, evs) && RunHarmless(s, evs)
    ensures Inv(Run(s, evs)) && Abs(Run(s, evs)) == ActAll(Abs(s), Labels(s, evs))
    decreases |evs|
  {
    hide Inv, Abs, Step, Act, Label, Raised, Harmless;
    if evs != [] {
      var e := evs[0];
      assert Enabled(e);
      StepRefines(s, e);
      RunRefines(Step(s, e), evs[1..]);
      assert Labels(s, evs)[1..] == Labels(Step(s, e), evs[1..]);
    }
  }

  /** The invariant holds in every state of the run. */
  ghost predicate Throughout(s: Vm, evs: seq<Event>)
    requires forall k :: 0 <= k < |evs| ==> Enabled(evs[k])
    decreases |evs|
  {
    Inv(s) && (evs == [] || Throughout(Step(s, evs[0]), evs[1..]))
  }

  /** And that condition is exact: a run with such a fault leaves the invariant. */
  lemma {:induction false} InvThroughoutIff(s: Vm, evs: seq<Event>)
    requires Inv(s) && forall k :: 0 <= k < |evs| ==> Enabled(evs[k])
    requires RunRaised(s, evs)
    ensures Throughout(s, evs) <==> RunHarmless(s, evs)
    decreases |evs|
  {
    hide Inv, Abs, Step, Act, Label, Raised, Harmless;
    if evs != [] {
      var e := evs[0];
      assert Enabled(e);
      HarmlessIff(s, e);
      if Harmless(s, e) {
        InvThroughoutIff(Step(s, e), evs[1..]);
      } else {
        BrokenStays(Step(s, e), evs[1..]);
      }
    }
  }

  lemma BrokenStays(s: Vm, evs: seq<Event>)
    requires !Inv(s) && forall k :: 0 <= k < |evs| ==> Enabled(evs[k])
    ensures !Throughout(s, evs)
  {
  }

  lemma HarmlessIff(s: Vm, e: Event)
    requires Inv(s) && Enabled(e) && Raised(s, e)
    ensures Harmless(s, e) <==> Inv(Step(s, e))
  {
    hide Inv, Abs, Step, Act, Label, Raised, AllocFrame;
    if Harmless(s, e) {
      StepRefines(s, e);
    } else {
      LastPageBreaks(s, e.p, e.va, e.errno);
    }
  }

  /** In particular a store by one process, to whatever address, changes no other process's memory. */
  lemma StoreIsPrivate(s: Vm, evs: seq<Event>, p: nat, va: Word, b: Byte, q: nat)
    requires Inv(s) && (forall k :: 0 <= k < |evs| ==> Enabled(evs[k])) && RunRaised(s, evs) && RunHarmless(s, evs)
    requires Enabled(Store(p, va, b)) && q < NUM_IDS && q != p
    ensures Abs(Step(Run(s, evs), Store(p, va, b)))[q] == Abs(Run(s, evs))[q]
  {
    hide Inv, Abs, Step, Run, RunRaised, RunHarmless;
    RunRefines(s, evs);
    StoreRefines(Run(s, evs), p, va, b);
  }

  /** No run touches the identity mappings of the kernel, nor those of process 0. */
  lemma KernelMapStable(s: Vm, evs: seq<Event>, p: nat, v: nat)
    requires Inv(s) && (forall k :: 0 <= k < |evs| ==> Enabled(evs[k])) && RunRaised(s, evs) && RunHarmless(s, evs)
    requires p < NUM_IDS && v < TABLE_SIZE - 1 && (p == 0 || !UserPage(v))
    ensures Flat(Run(s, evs), p, v) == Flat(s, p, v)
            == Entry(v, if UserPage(v) then PTE_P + PTE_W else PTE_P + PTE_W + PTE_G)
    ensures Frame(Flat(s, p, v)) == v && Perm(Flat(s, p, v)) == if 0x4_0000 <= v < 0xF_0000 then 3 else 0x103
  {
    hide Run, Flat, Entry, RunRaised, RunHarmless;
    EntryFields(v, PTE_P + PTE_W);
    EntryFields(v, PTE_P + PTE_W + PTE_G);
    RunRefines(s, evs);
    FlatIdentity(s, p, v);
    FlatIdentity(Run(s, evs), p, v);
  }
}
