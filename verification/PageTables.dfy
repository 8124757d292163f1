/** Two-level page structures: the state they live in, the primitives of the layers MPTIntro and
    MPTOp, and the invariants that tie page tables to the allocator. */
module PageTables {
  import opened Words
  import opened AllocTable
  import opened Containers

  /** One 4 KB page as 1024 words; page directories have the same shape. */
  type Page = p: seq<Word> | |p| == 1024 witness seq(1024, _ => 0)
  type Memory = m: seq<Page> | |m| == TABLE_SIZE witness seq<Page>(0x10_0000, _ => ZeroPage())
  type Directories = d: seq<Page> | |d| == NUM_IDS witness seq<Page>(64, _ => ZeroPage())

  /** The page index at which the linker put the identity page tables `IDPTbl`; the kernel is linked
      at 1 MB. */
  type IdBase = b: nat | 256 <= b && b + 1024 <= USERLO_PI witness 256

  datatype Vm = Vm(pmm: Pmm, pdir: Directories, phys: Memory, idBase: IdBase)

  const PTU := 7        // PTE_P | PTE_W | PTE_U
  const COW_PERM := 0x805  // PTE_P | PTE_U | PTE_COW
  const USERLO := 256   // first user page directory index
  const USERHI := 960   // one past the last

  function ZeroPage(): (p: Page) { seq(1024, _ => 0) }

  // ----- Bytes of a page

  function ByteAt(pg: Page, off: nat): (b: Byte)
    requires off < 4096
  {
    ByteOf(pg[off / 4], off % 4)
  }

  /** The page with byte `off` replaced. */
  function StoreByte(pg: Page, off: nat, b: Byte): (r: Page)
    requires off < 4096
  {
    pg[off / 4 := SetByte(pg[off / 4], off % 4, b)]
  }

  lemma StoreByteGet(pg: Page, off: nat, b: Byte, o: nat)
    requires off < 4096 && o < 4096
    ensures ByteAt(StoreByte(pg, off, b), o) == if o == off then b else ByteAt(pg, o)
  {
    SetByteGet(pg[off / 4], off % 4, b, o % 4);
  }

  /** A page is determined by its 4096 bytes. */
  lemma SameBytesSamePage(p: Page, q: Page)
    requires forall o :: 0 <= o < 4096 ==> ByteAt(p, o) == ByteAt(q, o)
    ensures p == q
  {
    forall k | 0 <= k < 1024 ensures p[k] == q[k] {
      forall b | 0 <= b < 4 ensures ByteOf(p[k], b) == ByteOf(q[k], b) {
        assert ByteAt(p, 4 * k + b) == ByteAt(q, 4 * k + b);
      }
      SameBytesSameWord(p[k], q[k]);
    }
  }

  /** `dst` after its first `n` bytes have been copied from `src`, lowest first. */
  function CopyUpTo(dst: Page, src: Page, n: nat): (r: Page)
    requires n <= 4096
    decreases n, dst
  {
    if n == 0 then dst else StoreByte(CopyUpTo(dst, src, n - 1), n - 1, ByteAt(src, n - 1))
  }

  lemma {:induction false} CopyUpToBytes(dst: Page, src: Page, n: nat, o: nat)
    requires n <= 4096 && o < 4096
    ensures ByteAt(CopyUpTo(dst, src, n), o) == ByteAt(if o < n then src else dst, o)
  {
    hide ByteAt, StoreByte;
    if n > 0 {
      CopyUpToBytes(dst, src, n - 1, o);
      StoreByteGet(CopyUpTo(dst, src, n - 1), n - 1, ByteAt(src, n - 1), o);
    }
  }

  lemma CopyUpToEnd(dst: Page, src: Page)
    ensures CopyUpTo(dst, src, 4096) == src
  {
    forall o | 0 <= o < 4096 ensures ByteAt(CopyUpTo(dst, src, 4096), o) == ByteAt(src, o) {
      CopyUpToBytes(dst, src, 4096, o);
    }
    SameBytesSamePage(CopyUpTo(dst, src, 4096), src);
  }

  lemma CopyOntoItself(pg: Page, n: nat)
    requires n <= 4096
    ensures CopyUpTo(pg, pg, n) == pg
  {
    forall o | 0 <= o < 4096 ensures ByteAt(CopyUpTo(pg, pg, n), o) == ByteAt(pg, o) {
      CopyUpToBytes(pg, pg, n, o);
    }
    SameBytesSamePage(CopyUpTo(pg, pg, n), pg);
  }

  // ----- Primitives by index

  function GetPdir(s: Vm, p: nat, i: nat): (e: Word) {
    if p < NUM_IDS && i < 1024 then s.pdir[p][i] else 0
  }

  function SetDir(s: Vm, p: nat, i: nat, e: Word): (r: Vm) {
    if p < NUM_IDS && i < 1024 then s.(pdir := s.pdir[p := s.pdir[p][i := e]]) else s
  }

  function SetPdir(s: Vm, p: nat, i: nat, page: nat): (r: Vm) {
    SetDir(s, p, i, Entry(page, PTU))
  }

  function GetPtbl(s: Vm, p: nat, i: nat, j: nat): (e: Word) {
    if p < NUM_IDS && i < 1024 && j < 1024 then s.phys[Frame(s.pdir[p][i])][j] else 0
  }

  function SetWord(s: Vm, p: nat, i: nat, j: nat, e: Word): (r: Vm) {
    if p < NUM_IDS && i < 1024 && j < 1024 then
      var t := Frame(s.pdir[p][i]);
      s.(phys := s.phys[t := s.phys[t][j := e]])
    else s
  }

  function SetPtbl(s: Vm, p: nat, i: nat, j: nat, page: nat, perm: nat): (r: Vm) {
    SetWord(s, p, i, j, Entry(page, perm))
  }

  // ----- Views used by the proofs: user slots of the user processes 1 to 63

  predicate Slot(p: int, i: int) {
    1 <= p < NUM_IDS && USERLO <= i < USERHI
  }

  predicate Cell(p: int, i: int, j: int) {
    Slot(p, i) && 0 <= j < 1024
  }

  predicate HasTable(s: Vm, p: int, i: int) {
    Slot(p, i) && Present(s.pdir[p][i])
  }

  function TableOf(s: Vm, p: int, i: int): (t: nat)
    requires Slot(p, i)
    ensures t < TABLE_SIZE
  {
    Frame(s.pdir[p][i])
  }

  /** The entry a user page has; 0 where the page table is missing. */
  function Ent(s: Vm, p: int, i: int, j: int): (e: Word)
    requires Cell(p, i, j)
  {
    if HasTable(s, p, i) then s.phys[TableOf(s, p, i)][j] else 0
  }

  predicate Mapped(s: Vm, p: int, i: int, j: int) {
    Cell(p, i, j) && Present(Ent(s, p, i, j))
  }

  function FrameOf(s: Vm, p: int, i: int, j: int): (f: nat)
    requires Cell(p, i, j)
    ensures f < TABLE_SIZE
  {
    Frame(Ent(s, p, i, j))
  }

  // ----- Invariants of the page structures

  ghost predicate TablesTaken(s: Vm) {
    forall p, i :: HasTable(s, p, i) ==> IsTaken(s.pmm.at, TableOf(s, p, i)) && Perm(s.pdir[p][i]) == PTU
  }

  ghost predicate TablesDistinct(s: Vm) {
    forall p, i, q, k :: HasTable(s, p, i) && HasTable(s, q, k) && TableOf(s, p, i) == TableOf(s, q, k) ==> p == q && i == k
  }

  ghost predicate FreeIsZero(s: Vm) {
    forall f :: IsFree(s.pmm.at, f) ==> s.phys[f] == ZeroPage()
  }

  ghost predicate UnusedIsEmpty(s: Vm) {
    forall p, i :: HasTable(s, p, i) ==> s.pmm.cont[p].used
  }

  /** The entry `idptbl_init` gives to identity page i * 1024 + j. */
  function IdEntry(i: nat, j: nat): (e: Word)
    requires i < 1024 && j < 1024
  {
    if i == 1023 && j == 1023 then 0
    else i * 0x40_0000 + j * 4096 + (if USERLO <= i < USERHI then PTE_P + PTE_W else PTE_P + PTE_W + PTE_G)
  }

  function IdWord(s: Vm, i: int, j: int): (e: Word)
    requires 0 <= i < 1024 && 0 <= j < 1024
  {
    s.phys[s.idBase + i][j]
  }

  ghost predicate IdTables(s: Vm) {
    forall i, j :: 0 <= i < 1024 && 0 <= j < 1024 ==> IdWord(s, i, j) == IdEntry(i, j)
  }

  ghost predicate KernelDirs(s: Vm) {
    forall p, i :: 0 <= p < NUM_IDS && 0 <= i < 1024 && !Slot(p, i) ==> s.pdir[p][i] == Entry(s.idBase + i, PTU)
  }

  /** A container that is not in use has nothing left to ask for. */
  ghost predicate UnusedHasNoQuota(c: Pool) {
    forall x :: 0 <= x < NUM_IDS && !c[x].used ==> c[x].usage >= c[x].quota
  }

  /** What holds of the page structures whatever frames they map. */
  ghost predicate TableInv(s: Vm) {
    && UnusedHasNoQuota(s.pmm.cont) && NormalInUserRange(s.pmm.at)
    && TablesTaken(s) && TablesDistinct(s) && FreeIsZero(s) && UnusedIsEmpty(s)
    && IdTables(s) && KernelDirs(s)
  }

  ghost predicate FramesTaken(s: Vm) {
    forall p, i, j :: Mapped(s, p, i, j) ==> IsTaken(s.pmm.at, FrameOf(s, p, i, j))
  }

  ghost predicate FramesNotTables(s: Vm) {
    forall p, i, j, q, k :: Mapped(s, p, i, j) && HasTable(s, q, k) ==> FrameOf(s, p, i, j) != TableOf(s, q, k)
  }

  /** Within one process, two pages never share a frame. */
  ghost predicate FramesInjective(s: Vm) {
    forall p, i, j, k, l ::
      Mapped(s, p, i, j) && Mapped(s, p, k, l) && FrameOf(s, p, i, j) == FrameOf(s, p, k, l) ==> i == k && j == l
  }

  /** A frame mapped writable is mapped by one process only. */
  ghost predicate WritableExclusive(s: Vm) {
    forall p, i, j, q, k, l ::
      (Mapped(s, p, i, j) && Mapped(s, q, k, l) && Writable(Ent(s, p, i, j))
       && FrameOf(s, p, i, j) == FrameOf(s, q, k, l)) ==> p == q
  }

  ghost predicate NoSuper(s: Vm) {
    forall p, i, j :: Mapped(s, p, i, j) ==> !Super(Ent(s, p, i, j))
  }

  ghost predicate FrameInv(s: Vm) {
    FramesTaken(s) && FramesNotTables(s) && FramesInjective(s) && WritableExclusive(s) && NoSuper(s)
  }

  ghost predicate Inv(s: Vm) {
    PmmInv(s.pmm) && TableInv(s) && FrameInv(s)
  }

  /** A page just taken from the allocator: zero, and used by no page structure. */
  ghost predicate Fresh(s: Vm, f: int) {
    IsTaken(s.pmm.at, f) && s.phys[f] == ZeroPage()
    && forall p, i :: HasTable(s, p, i) ==> TableOf(s, p, i) != f
  }

  ghost predicate Unmapped(s: Vm, f: int) {
    forall p, i, j :: Mapped(s, p, i, j) ==> FrameOf(s, p, i, j) != f
  }

  ghost predicate Spare(s: Vm, f: int) {
    Fresh(s, f) && Unmapped(s, f)
  }

  ghost predicate SameEntries(s: Vm, s': Vm) {
    forall q, k, l :: Cell(q, k, l) ==> Ent(s', q, k, l) == Ent(s, q, k, l)
  }

  // ----- Step 1: the allocator takes a page

  /** `container_alloc` seen from the page structures. */
  function AllocFrame(s: Vm, id: nat): (res: (Vm, nat))
    requires id < NUM_IDS
  {
    var (m, r) := Alloc(s.pmm, id);
    (s.(pmm := m), r)
  }

  ghost predicate SameStructures(s: Vm, s': Vm) {
    s'.pdir == s.pdir && s'.phys == s.phys && s'.idBase == s.idBase
  }

  lemma SameEnts(s: Vm, s': Vm)
    requires SameStructures(s, s')
    ensures SameEntries(s, s')
    ensures forall p, i, j :: Mapped(s', p, i, j) <==> Mapped(s, p, i, j)
    ensures forall p, i :: HasTable(s', p, i) <==> HasTable(s, p, i)
    ensures forall p, i :: Slot(p, i) ==> TableOf(s', p, i) == TableOf(s, p, i)
  {
  }

  lemma AllocFrameTables(s: Vm, id: nat)
    requires TableInv(s) && id < NUM_IDS
    ensures var (s', r) := AllocFrame(s, id);
            TableInv(s') && SameStructures(s, s') && (r != 0 ==> Fresh(s', r) && r < TABLE_SIZE && s'.pmm.cont[id].used)
            && (forall x :: 0 <= x < NUM_IDS ==> s'.pmm.cont[x].used == s.pmm.cont[x].used)
  {
    var (s', r) := AllocFrame(s, id);
    assert forall i :: IsNorm(s'.pmm.at, i) ==> IsNorm(s.pmm.at, i);
    SameEnts(s, s');
    forall f | IsFree(s'.pmm.at, f) ensures s'.phys[f] == ZeroPage() {
      assert IsFree(s.pmm.at, f);
    }
    forall p, i | HasTable(s', p, i)
      ensures IsTaken(s'.pmm.at, TableOf(s', p, i)) && s'.pmm.cont[p].used && (r != 0 ==> TableOf(s', p, i) != r)
    {
      assert HasTable(s, p, i);
      assert IsTaken(s.pmm.at, TableOf(s, p, i));
    }
  }

  lemma AllocFrameFrames(s: Vm, id: nat)
    requires TableInv(s) && FrameInv(s) && id < NUM_IDS
    ensures var (s', r) := AllocFrame(s, id);
            FrameInv(s') && (r != 0 ==> Unmapped(s', r))
  {
    var (s', r) := AllocFrame(s, id);
    SameEnts(s, s');
    forall p, i, j | Mapped(s', p, i, j)
      ensures IsTaken(s'.pmm.at, FrameOf(s', p, i, j)) && (r != 0 ==> FrameOf(s', p, i, j) != r)
    {
      assert Mapped(s, p, i, j);
      assert IsTaken(s.pmm.at, FrameOf(s, p, i, j));
    }
  }

  // ----- Step 2: a fresh page becomes a page table

  lemma InstallTables(s: Vm, p: nat, i: nat, r: nat)
    requires TableInv(s) && Slot(p, i) && !HasTable(s, p, i) && Fresh(s, r) && s.pmm.cont[p].used
    ensures var s' := SetPdir(s, p, i, r);
            TableInv(s') && HasTable(s', p, i) && TableOf(s', p, i) == r
            && forall q, k :: Slot(q, k) && !(q == p && k == i) ==> s'.pdir[q][k] == s.pdir[q][k]
  {
    var s' := SetPdir(s, p, i, r);
    EntryFields(r, PTU);
    assert forall q, k :: 0 <= q < NUM_IDS && 0 <= k < 1024 && !(q == p && k == i) ==> s'.pdir[q][k] == s.pdir[q][k];
    forall q, k | HasTable(s', q, k) && !(q == p && k == i) ensures HasTable(s, q, k) && TableOf(s', q, k) == TableOf(s, q, k) {
    }
  }

  lemma InstallEnts(s: Vm, p: nat, i: nat, r: nat)
    requires Slot(p, i) && !HasTable(s, p, i) && r < TABLE_SIZE && s.phys[r] == ZeroPage()
    ensures var s' := SetPdir(s, p, i, r);
            SameEntries(s, s')
  {
    var s' := SetPdir(s, p, i, r);
    EntryFields(r, PTU);
    assert forall q, k :: 0 <= q < NUM_IDS && 0 <= k < 1024 && !(q == p && k == i) ==> s'.pdir[q][k] == s.pdir[q][k];
  }

  lemma InstallFrames(s: Vm, p: nat, i: nat, r: nat)
    requires FrameInv(s) && Slot(p, i) && !HasTable(s, p, i) && Fresh(s, r) && Unmapped(s, r)
    ensures FrameInv(SetPdir(s, p, i, r))
  {
    var s' := SetPdir(s, p, i, r);
    InstallEnts(s, p, i, r);
    EntryFields(r, PTU);
    assert forall q, k, l :: Mapped(s', q, k, l) <==> Mapped(s, q, k, l);
    forall q, k, l, x, y | Mapped(s', q, k, l) && HasTable(s', x, y) ensures FrameOf(s', q, k, l) != TableOf(s', x, y) {
      assert Mapped(s, q, k, l);
      if !(x == p && y == i) {
        assert s'.pdir[x][y] == s.pdir[x][y];
        assert HasTable(s, x, y);
      }
    }
  }

  lemma InstallSpare(s: Vm, p: nat, i: nat, r: nat, f: int)
    requires Slot(p, i) && !HasTable(s, p, i) && Fresh(s, r) && Spare(s, f) && f != r
    ensures Spare(SetPdir(s, p, i, r), f)
  {
    var s' := SetPdir(s, p, i, r);
    InstallEnts(s, p, i, r);
    EntryFields(r, PTU);
    forall q, k, l | Mapped(s', q, k, l) ensures FrameOf(s', q, k, l) != f {
      assert Mapped(s, q, k, l);
    }
    forall q, k | HasTable(s', q, k) ensures TableOf(s', q, k) != f {
      if !(q == p && k == i) {
        assert s'.pdir[q][k] == s.pdir[q][k];
        assert HasTable(s, q, k);
      }
    }
  }

  lemma AllocSpare(s: Vm, id: nat, f: int)
    requires id < NUM_IDS && Spare(s, f)
    ensures var (s', r) := AllocFrame(s, id);
            Spare(s', f) && (r != 0 ==> f != r)
  {
    var (s', r) := AllocFrame(s, id);
    SameEnts(s, s');
  }

  // ----- Step 3: one entry of a page table is written

  lemma WriteEnts(s: Vm, p: nat, i: nat, j: nat, e: Word)
    requires TablesDistinct(s) && Cell(p, i, j) && HasTable(s, p, i)
    ensures var s' := SetWord(s, p, i, j, e);
            s'.pdir == s.pdir && s'.pmm == s.pmm && s'.idBase == s.idBase
            && (forall f :: 0 <= f < TABLE_SIZE && f != TableOf(s, p, i) ==> s'.phys[f] == s.phys[f])
            && (forall q, k, l :: Cell(q, k, l) ==>
                  Ent(s', q, k, l) == if q == p && k == i && l == j then e else Ent(s, q, k, l))
  {
  }

  lemma WriteTables(s: Vm, p: nat, i: nat, j: nat, e: Word)
    requires TableInv(s) && Cell(p, i, j) && HasTable(s, p, i)
    ensures TableInv(SetWord(s, p, i, j, e))
  {
    var s' := SetWord(s, p, i, j, e);
    WriteEnts(s, p, i, j, e);
    var t := TableOf(s, p, i);
    assert IsTaken(s.pmm.at, t);
    forall q, k | HasTable(s', q, k) ensures HasTable(s, q, k) && TableOf(s', q, k) == TableOf(s, q, k) {
    }
    forall a, b | 0 <= a < 1024 && 0 <= b < 1024 ensures IdWord(s', a, b) == IdEntry(a, b) {
      assert IdWord(s, a, b) == IdEntry(a, b);
    }
  }

  /** Frames that make a legal new mapping of `e` at (p, i, j). */
  ghost predicate LegalFrame(s: Vm, p: int, i: int, j: int, e: Word) {
    && IsTaken(s.pmm.at, Frame(e)) && !Super(e)
    && (forall q, k :: HasTable(s, q, k) ==> TableOf(s, q, k) != Frame(e))
    && (forall q, k, l :: Mapped(s, q, k, l) && FrameOf(s, q, k, l) == Frame(e) && !(q == p && k == i && l == j) ==>
          q != p && !Writable(e) && !Writable(Ent(s, q, k, l)))
  }

  lemma WriteFrames(s: Vm, p: nat, i: nat, j: nat, e: Word)
    requires TablesDistinct(s) && FrameInv(s) && Cell(p, i, j) && HasTable(s, p, i)
    requires Present(e) ==> LegalFrame(s, p, i, j, e)
    ensures FrameInv(SetWord(s, p, i, j, e))
  {
    var s' := SetWord(s, p, i, j, e);
    WriteEnts(s, p, i, j, e);
    assert forall q, k, l :: Mapped(s', q, k, l) && !(q == p && k == i && l == j) ==> Mapped(s, q, k, l) && FrameOf(s', q, k, l) == FrameOf(s, q, k, l);
    assert forall q, k :: HasTable(s', q, k) ==> HasTable(s, q, k) && TableOf(s', q, k) == TableOf(s, q, k);
  }

  // ----- Step 4: the contents of a data frame change

  function SetFrame(s: Vm, f: nat, pg: Page): (r: Vm)
    requires f < TABLE_SIZE
  {
    s.(phys := s.phys[f := pg])
  }

  lemma FrameEnts(s: Vm, f: nat, pg: Page)
    requires f < TABLE_SIZE && forall p, i :: HasTable(s, p, i) ==> TableOf(s, p, i) != f
    ensures var s' := SetFrame(s, f, pg);
            SameEntries(s, s')
  {
  }

  lemma FrameWriteKeeps(s: Vm, f: nat, pg: Page)
    requires f < TABLE_SIZE && (forall p, i :: HasTable(s, p, i) ==> TableOf(s, p, i) != f)
    requires IsTaken(s.pmm.at, f)
    ensures TableInv(s) ==> TableInv(SetFrame(s, f, pg))
    ensures FrameInv(s) ==> FrameInv(SetFrame(s, f, pg))
  {
    var s' := SetFrame(s, f, pg);
    FrameEnts(s, f, pg);
    assert forall q, k, l :: Mapped(s', q, k, l) <==> Mapped(s, q, k, l);
    assert forall q, k :: HasTable(s', q, k) <==> HasTable(s, q, k);
    if TableInv(s) {
      forall a, b | 0 <= a < 1024 && 0 <= b < 1024 ensures IdWord(s', a, b) == IdEntry(a, b) {
        assert IdWord(s, a, b) == IdEntry(a, b);
      }
    }
  }
}
