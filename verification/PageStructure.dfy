/** Page directories, page tables and physical memory as the kernel updates them: the layers
    MPTIntro, MPTOp, MPTComm, MPTKern, MPTNew and MPTFork as methods over arrays, each proved
    against the function of the state that describes it. */
module PageStructure {
  import opened Words
  import opened AllocTable
  import opened Containers
  import opened PageTables
  import opened Mapping
  import opened ContainerTable
  import Fork
  import CowRefinement

  lemma IdEntryOfPage(v: nat)
    requires v < TABLE_SIZE - 1
    ensures IdEntry(v / 1024, v % 1024) ==
            (v / 1024) * 0x40_0000 + (v % 1024) * 4096
            + (if v < USERLO_PI || v >= USERHI_PI then PTE_P + PTE_W + PTE_G else PTE_P + PTE_W)
  {
  }

  /** The identity tables filled for the pages below `v`. */
  ghost predicate IdFilled(s: Vm, v: int) {
    forall i, j :: 0 <= i < 1024 && 0 <= j < 1024 ==> IdWord(s, i, j) == if i * 1024 + j < v then IdEntry(i, j) else 0
  }

  lemma IdFillsNext(s: Vm, s': Vm, v: nat)
    requires v < NPS && IdFilled(s, v) && s'.idBase == s.idBase
    requires s'.phys == s.phys[s.idBase + v / 1024 := s.phys[s.idBase + v / 1024][v % 1024 := IdEntry(v / 1024, v % 1024)]]
    ensures IdFilled(s', v + 1)
  {
    hide IdEntry;
    forall i, j | 0 <= i < 1024 && 0 <= j < 1024
      ensures IdWord(s', i, j) == if i * 1024 + j < v + 1 then IdEntry(i, j) else 0
    {
      assert IdWord(s, i, j) == if i * 1024 + j < v then IdEntry(i, j) else 0;
      assert i * 1024 + j == v ==> i == v / 1024 && j == v % 1024;
    }
  }

  lemma LastIdEntry(i: nat, j: nat)
    requires i < 1024 && j < 1024
    ensures i * 1024 + j < NPS || IdEntry(i, j) == 0
  {
  }

  lemma {:induction false} ScanStays(s: Vm, p: nat, va: Word, k: nat, n: nat)
    requires k <= n && !ScanAfter(s, p, va, k).1
    ensures ScanAfter(s, p, va, n) == ScanAfter(s, p, va, k)
    decreases n
  {
    hide EntryByVa;
    if k < n {
      ScanStays(s, p, va, k, n - 1);
    }
  }

  /** The address spaces at boot: the identity everywhere outside the user range, with the last page
      missing; user pages are the identity for process 0 and missing for the others. */
  ghost predicate BootMap(s: Vm) {
    forall p, v :: 0 <= p < NUM_IDS && 0 <= v < TABLE_SIZE ==> Flat(s, p, v) == BootEntry(p, v)
  }

  function BootEntry(p: int, v: int): (e: Word)
    requires 0 <= v
  {
    if v == TABLE_SIZE - 1 || (p > 0 && UserPage(v)) then 0
    else Entry(v, if UserPage(v) then PTE_P + PTE_W else PTE_P + PTE_W + PTE_G)
  }

  /** The state paging initialization leaves satisfies the invariant. */
  lemma BootPaging(s: Vm)
    requires PmmInv(s.pmm) && IdTables(s) && KernelDirs(s)
    requires forall f :: USERLO_PI <= f < TABLE_SIZE ==> s.phys[f] == ZeroPage()
    requires forall p, i :: !HasTable(s, p, i)
    ensures Inv(s) && BootMap(s)
  {
    BootInvariant(s);
    hide PmmInv, TableInv, FrameInv, Flat, Entry, IdTables, KernelDirs;
    forall p, v | 0 <= p < NUM_IDS && 0 <= v < TABLE_SIZE ensures Flat(s, p, v) == BootEntry(p, v) {
      BootEntryIs(s, p, v);
    }
  }

  lemma BootInvariant(s: Vm)
    requires PmmInv(s.pmm) && IdTables(s) && KernelDirs(s)
    requires forall f :: USERLO_PI <= f < TABLE_SIZE ==> s.phys[f] == ZeroPage()
    requires forall p, i :: !HasTable(s, p, i)
    ensures Inv(s)
  {
    forall f | IsFree(s.pmm.at, f) ensures s.phys[f] == ZeroPage() {
      assert IsNorm(s.pmm.at, f);
    }
    assert forall p, i, j :: !Mapped(s, p, i, j);
  }

  lemma BootEntryIs(s: Vm, p: int, v: int)
    requires IdTables(s) && KernelDirs(s) && (forall q, i :: !HasTable(s, q, i)) && 0 <= p < NUM_IDS && 0 <= v < TABLE_SIZE
    ensures Flat(s, p, v) == BootEntry(p, v)
  {
    hide IdTables, KernelDirs, Flat, Entry;
    if p > 0 && UserPage(v) {
      FlatUser(s, p, v);
    } else {
      FlatIdentity(s, p, v);
    }
  }

  class PagedMemory {
    const pool: ContainerArray
    const pdir: array<Page>   // PDirPool
    const phys: array<Page>   // physical memory, IDPTbl included
    const idBase: IdBase      // the page index of IDPTbl

    ghost predicate Valid() {
      && pool.Valid() && pdir.Length == NUM_IDS && phys.Length == TABLE_SIZE && pdir != phys
      && pool.cont as object != pdir && pool.cont as object != phys
      && pool.alloc.at as object != pdir && pool.alloc.at as object != phys
    }

    ghost function State(): (s: Vm)
      requires Valid()
      reads pool.alloc.at, pool.cont, pdir, phys
    {
      Vm(pool.State(), pdir[..], phys[..], idBase)
    }

    /** Static data and unallocated RAM are zero at boot. */
    constructor (base: IdBase)
      ensures Valid() && idBase == base
      ensures fresh(pool.alloc.at) && fresh(pool.cont) && fresh(pdir) && fresh(phys)
      ensures forall f :: 0 <= f < TABLE_SIZE ==> State().phys[f] == ZeroPage()
      ensures forall i :: 0 <= i < NUM_IDS ==> State().pmm.cont[i] == Unused
      ensures forall i :: 0 <= i < TABLE_SIZE ==> State().pmm.at[i] == PageInfo(0, 0)
    {
      pool := new ContainerArray();
      pdir := new Page[NUM_IDS](_ => ZeroPage());
      phys := new Page[TABLE_SIZE](_ => ZeroPage());
      idBase := base;
    }

    // ----- Initialization

    /** `set_ptbl_entry_identity` */
    method SetPtblEntryIdentity(i: nat, j: nat, perm: nat)
      requires Valid()
      modifies phys
      ensures phys[..] ==
              if i < 1024 && j < 1024
              then old(phys[..])[idBase + i := old(phys[idBase + i])[j := U32(i * 0x40_0000 + j * 4096 + perm)]]
              else old(phys[..])
    {
      if i < 1024 && j < 1024 {
        phys[idBase + i] := phys[idBase + i][j := U32(i * 0x40_0000 + j * 4096 + perm)];
      }
    }

    /** The loop of `idptbl_init`, over every page but the last. */
    method IdptblInit()
      requires Valid() && forall f :: idBase <= f < idBase + 1024 ==> phys[f] == ZeroPage()
      modifies phys
      ensures IdTables(State())
      ensures forall f :: USERLO_PI <= f < TABLE_SIZE ==> phys[f] == old(phys[f])
    {
      hide IdEntry;
      var v := 0;
      while v < NPS
        invariant 0 <= v <= NPS && IdFilled(State(), v)
        invariant forall f :: USERLO_PI <= f < TABLE_SIZE ==> phys[f] == old(phys[f])
      {
        var va: Word := v * 4096;
        PageSplit(v);
        var perm := if v < USERLO_PI || v >= USERHI_PI then PTE_P + PTE_W + PTE_G else PTE_P + PTE_W;
        IdEntryOfPage(v);
        ghost var before := State();
        SetPtblEntryIdentity(DirOf(va), TblOf(va), perm);
        IdFillsNext(before, State(), v);
        v := v + 1;
      }
      forall i, j | 0 <= i < 1024 && 0 <= j < 1024 ensures IdWord(State(), i, j) == IdEntry(i, j) {
        LastIdEntry(i, j);
      }
    }

    /** `pdir_init`: kernel slots point into IDPTbl, user slots are empty. */
    method PdirInit()
      requires Valid()
      modifies pdir
      ensures forall p, i :: 0 <= p < NUM_IDS && 0 <= i < 1024 ==>
                pdir[p][i] == if USERLO <= i < USERHI then 0 else Entry(idBase + i, PTU)
    {
      var p := 0;
      while p < NUM_IDS
        invariant 0 <= p <= NUM_IDS
        invariant forall q, i :: 0 <= q < p && 0 <= i < 1024 ==>
                    pdir[q][i] == if USERLO <= i < USERHI then 0 else Entry(idBase + i, PTU)
      {
        var j := 0;
        while j < 1024
          invariant 0 <= j <= 1024
          invariant forall q, i :: 0 <= q < p && 0 <= i < 1024 ==>
                      pdir[q][i] == if USERLO <= i < USERHI then 0 else Entry(idBase + i, PTU)
          invariant forall i :: 0 <= i < j ==> pdir[p][i] == if USERLO <= i < USERHI then 0 else Entry(idBase + i, PTU)
        {
          if j < USERLO || j >= USERHI {
            SetPdirEntryIdentity(p, j);
          } else {
            RmvPdirEntry(p, j);
          }
          j := j + 1;
        }
        p := p + 1;
      }
    }

    /** `pdir_init_kern`: process 0 gets the identity map everywhere. */
    method PdirInitKern()
      requires Valid()
      modifies pdir
      ensures KernelDirs(State()) && forall p, i :: !HasTable(State(), p, i)
    {
      PdirInit();
      var i := USERLO;
      while i < USERHI
        invariant USERLO <= i <= USERHI
        invariant forall p, k :: 0 <= p < NUM_IDS && 0 <= k < 1024 ==>
                    pdir[p][k] == if USERLO <= k < USERHI && (p > 0 || k >= i) then 0 else Entry(idBase + k, PTU)
      {
        SetPdirEntryIdentity(0, i);
        i := i + 1;
      }
    }

    /** Paging initialization after the allocator and the root container are set up: the whole
        invariant holds and no page is lost. */
    method PagingInit()
      requires Valid() && PmmInv(State().pmm)
      requires forall f :: idBase <= f < idBase + 1024 || USERLO_PI <= f < TABLE_SIZE ==> phys[f] == ZeroPage()
      modifies pdir, phys
      ensures Inv(State()) && State().pmm == old(State().pmm)
      ensures BootMap(State())
    {
      IdptblInit();
      PdirInitKern();
      BootPaging(State());
    }

    // ----- MPTIntro

    method GetPdirEntry(p: nat, i: nat) returns (e: Word)
      requires Valid()
      ensures e == GetPdir(State(), p, i)
    {
      if p < NUM_IDS && i < 1024 {
        e := pdir[p][i];
      } else {
        e := 0;
      }
    }

    method SetPdirEntry(p: nat, i: nat, page: nat)
      requires Valid()
      modifies pdir
      ensures State() == SetPdir(old(State()), p, i, page)
    {
      if p < NUM_IDS && i < 1024 {
        pdir[p] := pdir[p][i := Entry(page, PTU)];
      }
    }

    method SetPdirEntryIdentity(p: nat, i: nat)
      requires Valid()
      modifies pdir
      ensures State() == SetPdir(old(State()), p, i, idBase + i)
    {
      if p < NUM_IDS && i < 1024 {
        pdir[p] := pdir[p][i := Entry(idBase + i, PTU)];
      }
    }

    method RmvPdirEntry(p: nat, i: nat)
      requires Valid()
      modifies pdir
      ensures State() == SetDir(old(State()), p, i, 0)
    {
      if p < NUM_IDS && i < 1024 {
        pdir[p] := pdir[p][i := 0];
      }
    }

    method GetPtblEntry(p: nat, i: nat, j: nat) returns (e: Word)
      requires Valid()
      ensures e == GetPtbl(State(), p, i, j)
    {
      if p < NUM_IDS && i < 1024 && j < 1024 {
        e := phys[Frame(pdir[p][i])][j];
      } else {
        e := 0;
      }
    }

    method SetPtblEntry(p: nat, i: nat, j: nat, page: nat, perm: nat)
      requires Valid()
      modifies phys
      ensures State() == SetPtbl(old(State()), p, i, j, page, perm)
    {
      if p < NUM_IDS && i < 1024 && j < 1024 {
        var t := Frame(pdir[p][i]);
        phys[t] := phys[t][j := Entry(page, perm)];
      }
    }

    method RmvPtblEntry(p: nat, i: nat, j: nat)
      requires Valid()
      modifies phys
      ensures State() == SetWord(old(State()), p, i, j, 0)
    {
      if p < NUM_IDS && i < 1024 && j < 1024 {
        var t := Frame(pdir[p][i]);
        phys[t] := phys[t][j := 0];
      }
    }

    // ----- MPTOp

    method GetPtblEntryByVa(p: nat, va: Word) returns (e: Word)
      requires Valid()
      ensures e == EntryByVa(State(), p, va)
    {
      var d := GetPdirEntry(p, DirOf(va));
      if !Present(d) {
        return 0;
      }
      e := GetPtblEntry(p, DirOf(va), TblOf(va));
      if !Present(e) {
        return 0;
      }
    }

    method GetPdirEntryByVa(p: nat, va: Word) returns (e: Word)
      requires Valid()
      ensures e == PdirByVa(State(), p, va)
    {
      e := GetPdirEntry(p, DirOf(va));
      if !Present(e) {
        return 0;
      }
    }

    // ----- MPTComm and MPTKern

    /** `get_pdir_entry_by_va`, then `alloc_ptbl` if the entry is missing. */
    method EnsureTable(p: nat, va: Word) returns (ok: bool)
      requires Valid() && p < NUM_IDS
      modifies pool.alloc.at, pool.cont, pdir
      ensures (State(), ok) == Mapping.EnsureTable(old(State()), p, DirOf(va))
    {
      var d := GetPdirEntryByVa(p, va);
      if d == 0 {
        var page := pool.Alloc(p);
        if page == 0 {
          return false;
        }
        SetPdirEntry(p, DirOf(va), page);
      }
      return true;
    }

    method MapPage(p: nat, va: Word, page: nat, perm: nat) returns (r: Word)
      requires Valid() && p < NUM_IDS
      modifies pool.alloc.at, pool.cont, pdir, phys
      ensures (State(), r) == Mapping.MapPage(old(State()), p, va, page, perm)
    {
      var ok := EnsureTable(p, va);
      if !ok {
        return MAGIC;
      }
      SetPtblEntry(p, DirOf(va), TblOf(va), page, perm);
      r := GetPdirEntryByVa(p, va);
    }

    method MapConsecutivePage(p: nat, va: Word, page: nat, perm: nat, len: nat) returns (r: Word)
      requires Valid() && p < NUM_IDS
      modifies pool.alloc.at, pool.cont, pdir, phys
      ensures (State(), r) == MapConsecutive(old(State()), p, va, page, perm, len)
    {
      hide Mapping.EnsureTable, SetPtbl, PdirByVa;
      var vaNow: Word := va;
      var pageNow, i := page, 0;
      while i < len
        invariant 0 <= i <= len
        invariant var (s, n) := MapLoop(State(), p, vaNow, pageNow, perm, len - i);
                  MapLoop(old(State()), p, va, page, perm, len) == (s, n + i)
      {
        var ok := EnsureTable(p, vaNow);
        if !ok {
          return MAGIC;
        }
        SetPtblEntry(p, DirOf(vaNow), TblOf(vaNow), pageNow, perm);
        vaNow := U32(vaNow as int + 4096);
        pageNow := pageNow + 1;
        i := i + 1;
      }
      r := GetPdirEntryByVa(p, va);
    }

    method UnmapConsecutivePage(p: nat, va: Word, len: nat) returns (r: Word)
      requires Valid() && p < NUM_IDS
      modifies phys
      ensures var (s, n) := UnmapLoop(old(State()), p, va, len);
              State() == s && r == if n < len then MAGIC else 1
    {
      hide EntryByVa, SetWord;
      var vaNow: Word := va;
      var i := 0;
      while i < len
        invariant 0 <= i <= len
        invariant var (s, n) := UnmapLoop(State(), p, vaNow, len - i);
                  UnmapLoop(old(State()), p, va, len) == (s, n + i)
      {
        var e := GetPtblEntryByVa(p, vaNow);
        if e == 0 {
          return MAGIC;
        }
        RmvPtblEntry(p, DirOf(vaNow), TblOf(vaNow));
        vaNow := U32(vaNow as int + 4096);
        i := i + 1;
      }
      return 1;
    }

    /** `unmap_page`, given up with None if its backward scan has not ended after `rounds` rounds. */
    method UnmapPage(p: nat, va: Word, rounds: nat) returns (r: Option<Word>)
      requires Valid() && p < NUM_IDS
      modifies phys
      ensures match UnmapWithin(old(State()), p, va, rounds)
              case None => r == None && State() == old(State())
              case Some((s, e)) => r == Some(e) && State() == s
    {
      hide EntryByVa, UnmapLoop, ScanAfter, SetWord;
      var e := GetPtblEntryByVa(p, va);
      if e == 0 {
        return Some(0);
      }
      if Super(e) {
        var now, running := ScanBack(p, va, e, rounds);
        if running {
          return None;
        }
        var _ := UnmapConsecutivePage(p, now, 1024);
      } else {
        RmvPtblEntry(p, DirOf(va), TblOf(va));
      }
      return Some(e);
    }

    /** The loop of `unmap_page`, cut off after `rounds` tests of its condition. */
    method ScanBack(p: nat, va: Word, e: Word, rounds: nat) returns (now: Word, running: bool)
      requires Valid() && e == EntryByVa(State(), p, va)
      ensures (now, running) == ScanAfter(State(), p, va, rounds)
    {
      hide EntryByVa;
      now, running := va, true;
      var k := 0;
      while running && k < rounds
        invariant k <= rounds && (now, running) == ScanAfter(State(), p, va, k)
        invariant !running ==> k > 0 && ScanAfter(State(), p, va, rounds) == (now, false)
        decreases rounds - k
      {
        var before := GetPtblEntryByVa(p, U32(va - 4096));
        if before == e {
          now := U32(now - 4096);
        } else {
          running := false;
        }
        k := k + 1;
        if !running {
          ScanStays(State(), p, va, k, rounds);
        }
      }
    }

    // ----- MPTNew

    method AllocPage(p: nat, va: Word, perm: nat) returns (r: Word)
      requires Valid() && p < NUM_IDS
      modifies pool.alloc.at, pool.cont, pdir, phys
      ensures (State(), r) == Mapping.AllocPage(old(State()), p, va, perm)
    {
      var page := pool.Alloc(p);
      if page == 0 {
        return MAGIC;
      }
      r := MapPage(p, va, page, perm);
    }

    method AllocConsecutivePage(p: nat, va: Word, perm: nat, len: Word) returns (r: Word)
      requires Valid() && p < NUM_IDS
      modifies pool.alloc.at, pool.cont, pdir, phys
      ensures (State(), r) == Mapping.AllocConsecutivePage(old(State()), p, va, perm, len)
    {
      var page := pool.ConsecutiveAlloc(p, len);
      if page == 0 {
        return MAGIC;
      }
      r := MapConsecutivePage(p, va, page, perm, len);
    }

    method AllocSuperPage(p: nat, va: Word, perm: nat) returns (r: Word)
      requires Valid() && p < NUM_IDS && perm < 4096
      modifies pool.alloc.at, pool.cont, pdir, phys
      ensures (State(), r) == Mapping.AllocSuperPage(old(State()), p, va, perm)
    {
      r := AllocConsecutivePage(p, va, WithSuper(perm), 1024);
    }

    // ----- MPTFork

    method VmmCopy(from: nat, to: nat)
      requires Valid() && from < NUM_IDS && to < NUM_IDS
      modifies pool.alloc.at, pool.cont, pdir, phys
      ensures State() == Fork.VmmCopy(old(State()), from, to).0
    {
      var i := USERLO;
      while i < USERHI
        invariant USERLO <= i <= USERHI
        invariant Fork.CopyDirs(State(), from, to, i).0 == Fork.VmmCopy(old(State()), from, to).0
      {
        var d := GetPdirEntry(from, i);
        if Present(d) {
          var page := pool.Alloc(to);
          if page == 0 {
            return;
          }
          SetPdirEntry(to, i, page);
          CopyTable(from, to, i);
        }
        i := i + 1;
      }
    }

    /** The inner loop of `vmm_copy`. */
    method CopyTable(from: nat, to: nat, i: nat)
      requires Valid() && from < NUM_IDS && to < NUM_IDS
      modifies phys
      ensures State() == Fork.CopyTable(old(State()), from, to, i, 0)
    {
      var j := 0;
      while j < 1024
        invariant 0 <= j <= 1024
        invariant Fork.CopyTable(State(), from, to, i, j) == Fork.CopyTable(old(State()), from, to, i, 0)
      {
        var e := GetPtblEntry(from, i, j);
        if Present(e) {
          if Super(e) {
            SetPtblEntry(from, i, j, Frame(e), COW_PERM + P_SUPER);
            SetPtblEntry(to, i, j, Frame(e), COW_PERM + P_SUPER);
          } else {
            SetPtblEntry(from, i, j, Frame(e), COW_PERM);
            SetPtblEntry(to, i, j, Frame(e), COW_PERM);
          }
        }
        j := j + 1;
      }
    }

    /** Copies a page byte by byte. */
    method CopyBytes(from: nat, to: nat)
      requires Valid() && from < TABLE_SIZE && to < TABLE_SIZE
      modifies phys
      ensures State() == SetFrame(old(State()), to, old(State()).phys[from])
    {
      hide StoreByte, ByteAt;
      var i := 0;
      while i < 4096
        invariant 0 <= i <= 4096
        invariant phys[..] == old(phys[..])[to := CopyUpTo(old(phys[to]), old(phys[from]), i)]
      {
        if from == to {
          CopyOntoItself(old(phys[to]), i);
        }
        phys[to] := StoreByte(phys[to], i, ByteAt(phys[from], i));
        i := i + 1;
      }
      CopyUpToEnd(old(phys[to]), old(phys[from]));
    }

    method CopyOnWrite(p: nat, va: Word)
      requires Valid() && p < NUM_IDS && !Super(EntryByVa(State(), p, va))
      modifies pool.alloc.at, pool.cont, phys
      ensures State() == Fork.CopyOnWrite(old(State()), p, va)
    {
      var fromEntry := GetPtblEntryByVa(p, va);
      var page := pool.Alloc(p);
      if page == 0 {
        return;
      }
      RmvPtblEntry(p, DirOf(va), TblOf(va));
      SetPtblEntry(p, DirOf(va), TblOf(va), page, PTU);
      var toEntry := GetPtblEntryByVa(p, va);
      CopyBytes(Frame(fromEntry), Frame(toEntry));
    }

    /** The page fault handler; true when it panics. */
    method PageFault(p: nat, va: Word, errno: nat) returns (panic: bool)
      requires Valid() && p < NUM_IDS
      requires errno % 4 == 3 && Cow(EntryByVa(State(), p, va)) ==> !Super(EntryByVa(State(), p, va))
      modifies pool.alloc.at, pool.cont, pdir, phys
      ensures (State(), panic) == CowRefinement.PageFault(old(State()), p, va, errno)
    {
      if errno % 4 == 3 {
        var e := GetPtblEntryByVa(p, va);
        if Cow(e) {
          CopyOnWrite(p, va);
          return false;
        } else {
          return true;
        }
      }
      if errno % 2 == 1 {
        return true;
      }
      var r := AllocPage(p, va, PTU);
      return r == MAGIC;
    }

    /** `proc_fork` without the thread queue and the saved user context. */
    method ProcFork(p: nat) returns (child: nat)
      requires Valid() && p < NUM_IDS
      modifies pool.alloc.at, pool.cont, pdir, phys
      ensures var (s, c, _) := CowRefinement.ProcFork(old(State()), p);
              State() == s && child == c
    {
      var quota: Word := if pool.cont[p].used then U32(pool.cont[p].quota) else 0;
      var usage := U32(pool.cont[p].usage);
      var assign := U32(quota - usage) / 2;
      child := pool.KctxNew(p, assign);
      if child < NUM_IDS {
        VmmCopy(p, child);
      }
    }
  }
}
