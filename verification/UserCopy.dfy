/** Page-chunked copies between the kernel and user memory (kern/lib/pmap.c), proved to be
    byte-by-byte copies on the memory the process sees.  The kernel buffer is a value, so it
    cannot overlap the frames written. */
module UserCopy {
  import opened Words
  import AllocTable
  import opened Containers
  import opened PageTables
  import opened Mapping
  import opened Fork
  import opened CowRefinement

  const VM_USERLO := 0x4000_0000
  const VM_USERHI := 0xF000_0000

  // ----- What the loops do

  /** The allocation made where an address of the range is not mapped. */
  function Touch(s: Vm, p: nat, va: Word): (r: Vm)
    requires p < NUM_IDS
  {
    if Present(EntryByVa(s, p, va)) then s else AllocPage(s, p, va, PTU).0
  }

  /** The bytes handled in one round: up to the end of the page. */
  function Chunk(va: Word, len: nat): (n: nat)
    requires len > 0
    ensures 1 <= n <= len && va % 4096 + n <= 4096
  {
    if len < 4096 - va % 4096 then len else 4096 - va % 4096
  }

  /** memcpy into one page. */
  function PutBytes(pg: Page, off: nat, bs: seq<Byte>): (r: Page)
    requires off + |bs| <= 4096
  {
    if bs == [] then pg
    else StoreByte(PutBytes(pg, off, bs[..|bs| - 1]), off + |bs| - 1, bs[|bs| - 1])
  }

  /** The loop of `pt_copyout`; with a buffer of equal bytes, that of `pt_memset`. */
  function CopyLoop(s: Vm, p: nat, va: Word, buf: seq<Byte>): (r: Vm)
    requires p < NUM_IDS
    decreases |buf|
  {
    if buf == [] then s
    else
      var s1 := Touch(s, p, va);
      var f := Frame(EntryByVa(s1, p, va));
      var n := Chunk(va, |buf|);
      CopyLoop(SetFrame(s1, f, PutBytes(s1.phys[f], va % 4096, buf[..n])), p, U32(va + n), buf[n..])
  }

  /** The range checks shared by `pt_copyout` and `pt_copyin`, as the code makes them: neither end
      is checked for wrapping past 2^32. */
  predicate RangeOk(kva: Word, va: Word, len: nat) {
    VM_USERLO <= va && U32(va + len) <= VM_USERHI && U32(kva + len) <= VM_USERHI
  }

  /** `pt_copyout` from the kernel buffer `buf` at `kva`: the new state and the bytes copied. */
  function Copyout(s: Vm, kva: Word, buf: seq<Byte>, p: nat, va: Word): (res: (Vm, nat))
    requires p < NUM_IDS
  {
    if RangeOk(kva, va, |buf|) then (CopyLoop(s, p, va, buf), |buf|) else (s, 0)
  }

  /** `pt_copyin` into a kernel buffer at `kva`: the new state and the bytes it received. */
  function Copyin(s: Vm, p: nat, va: Word, kva: Word, len: nat): (res: (Vm, seq<Byte>))
    requires p < NUM_IDS
  {
    if RangeOk(kva, va, len) then ReadLoop(s, p, va, len) else (s, [])
  }

  /** `pt_memset`, which checks no range. */
  function Memset(s: Vm, p: nat, va: Word, c: Byte, len: nat): (r: Vm)
    requires p < NUM_IDS
  {
    CopyLoop(s, p, va, seq<Byte>(len, _ => c))
  }

  /** The loop of `pt_copyin`. */
  function ReadLoop(s: Vm, p: nat, va: Word, len: nat): (res: (Vm, seq<Byte>))
    requires p < NUM_IDS
    decreases len
  {
    if len == 0 then (s, [])
    else
      var s1 := Touch(s, p, va);
      var f := Frame(EntryByVa(s1, p, va));
      var n := Chunk(va, len);
      var (s2, rest) := ReadLoop(s1, p, U32(va + n), len - n);
      (s2, GetBytes(s1.phys[f], va % 4096, n) + rest)
  }

  function GetBytes(pg: Page, off: nat, n: nat): (bs: seq<Byte>)
    requires off + n <= 4096
    ensures |bs| == n
  {
    seq<Byte>(n, k requires 0 <= k < n => ByteAt(pg, off + k))
  }

  // ----- Pages as a process has them

  /** The entry of a user page; 0 for any other page. */
  function EntAt(s: Vm, q: int, x: int): (e: Word) {
    if 1 <= q < NUM_IDS && UserPage(x) then Ent(s, q, x / 1024, x % 1024) else 0
  }

  predicate MappedAt(s: Vm, q: int, x: int) {
    Present(EntAt(s, q, x))
  }

  function UByte(s: Vm, p: int, a: int): (b: Option<Byte>) {
    match ViewAt(s, p, a / 4096)
    case None => None
    case Some(pg) => Some(ByteAt(pg, a % 4096))
  }

  lemma ViewOfEntry(s: Vm, q: int, x: int)
    ensures ViewAt(s, q, x) == if MappedAt(s, q, x) then Some(s.phys[Frame(EntAt(s, q, x))]) else None
    ensures MappedAt(s, q, x) ==> 1 <= q < NUM_IDS && UserPage(x)
  {
    if 1 <= q < NUM_IDS && UserPage(x) {
      CellsOfPage(x);
    }
  }

  /** Two mapped pages have the same frame. */
  predicate Shares(s: Vm, p: int, u: int, q: int, x: int) {
    MappedAt(s, p, u) && MappedAt(s, q, x) && Frame(EntAt(s, p, u)) == Frame(EntAt(s, q, x))
  }

  /** The page at `u` of process `p` shares its frame with no other page. */
  ghost predicate OwnPage(s: Vm, p: int, u: int) {
    forall q, x :: Shares(s, p, u, q, x) ==> q == p && x == u
  }

  /** No two pages of process `p` share a frame. */
  ghost predicate Distinct(s: Vm, p: int) {
    forall u, x :: Shares(s, p, u, p, x) ==> u == x
  }

  lemma InvDistinct(s: Vm, p: int)
    requires Inv(s)
    ensures Distinct(s, p)
  {
    forall u, x | Shares(s, p, u, p, x) ensures u == x {
      CellsOfPage(u);
      CellsOfPage(x);
      assert Mapped(s, p, u / 1024, u % 1024) && Mapped(s, p, x / 1024, x % 1024);
      assert u / 1024 == x / 1024 && u % 1024 == x % 1024;
    }
  }

  /** What the pages of process `p` from `lo` up to `hi` may do to the entries: pages mapped before keep
      theirs, pages mapped since share with nobody and are P, W and U, and no entry elsewhere changed. */
  ghost predicate EntsKept(s: Vm, s': Vm, p: int, lo: int, hi: int) {
    && (forall q, x :: !(q == p && lo <= x < hi) ==> EntAt(s', q, x) == EntAt(s, q, x))
    && (forall x :: lo <= x < hi && MappedAt(s, p, x) ==> EntAt(s', p, x) == EntAt(s, p, x))
    && (forall x :: lo <= x < hi && !MappedAt(s, p, x) ==> OwnPage(s', p, x))
    && (forall x :: lo <= x < hi && !MappedAt(s, p, x) && MappedAt(s', p, x) ==> Perm(EntAt(s', p, x)) == 7)
  }

  /** What they may do to memory: another process sees a change exactly in the pages whose frame one of
      them has, and sees there what process `p` sees. */
  ghost predicate OthersSee(s: Vm, s': Vm, p: int, lo: int, hi: int) {
    && (forall x :: !(lo <= x < hi) ==> ViewAt(s', p, x) == ViewAt(s, p, x))
    && (forall q, x, u :: q != p && lo <= u < hi && Shares(s, p, u, q, x) ==> ViewAt(s', q, x) == ViewAt(s', p, u))
    && (forall q, x :: q != p && Unrelated(s, p, lo, hi, q, x) ==> ViewAt(s', q, x) == ViewAt(s, q, x))
  }

  /** No page of `p` from `lo` up to `hi` has the frame of page `x` of process `q`. */
  ghost predicate Unrelated(s: Vm, p: int, lo: int, hi: int, q: int, x: int) {
    forall u :: lo <= u < hi ==> !Shares(s, p, u, q, x)
  }

  // ----- Composing two stretches of pages

  lemma EntsCompose(s: Vm, s1: Vm, s2: Vm, p: int, lo: int, m: int, hi: int)
    requires EntsKept(s, s1, p, lo, m) && EntsKept(s1, s2, p, m, hi) && lo <= m <= hi
    ensures EntsKept(s, s2, p, lo, hi)
  {
    hide EntAt;
    forall x | lo <= x < hi && !MappedAt(s, p, x) ensures OwnPage(s2, p, x) {
      if x < m {
        OwnLater(s1, s2, p, m, hi, x);
      } else {
        assert EntAt(s1, p, x) == EntAt(s, p, x);
      }
    }
  }

  /** A page of one's own outside the stretch stays one's own. */
  lemma OwnLater(s: Vm, s': Vm, p: int, lo: int, hi: int, x: int)
    requires EntsKept(s, s', p, lo, hi) && OwnPage(s, p, x) && !(lo <= x < hi)
    ensures OwnPage(s', p, x)
  {
    hide EntAt;
    forall q, y | Shares(s', p, x, q, y) ensures q == p && y == x {
      if q == p && lo <= y < hi && !MappedAt(s, p, y) {
        assert OwnPage(s', p, y) && Shares(s', p, y, p, x);
      } else {
        assert Shares(s, p, x, q, y);
      }
    }
  }

  lemma OthersCompose(s: Vm, s1: Vm, s2: Vm, p: int, lo: int, m: int, hi: int)
    requires EntsKept(s, s1, p, lo, m) && Distinct(s, p) && lo <= m <= hi
    requires OthersSee(s, s1, p, lo, m) && OthersSee(s1, s2, p, m, hi)
    ensures OthersSee(s, s2, p, lo, hi)
  {
    hide EntAt, ViewAt;
    forall q, x, u | q != p && lo <= u < hi && Shares(s, p, u, q, x) ensures ViewAt(s2, q, x) == ViewAt(s2, p, u) {
      SharesKept(s, s1, p, lo, m, u, q, x);
      if u < m {
        forall w | m <= w < hi ensures !Shares(s1, p, w, q, x) {
          assert EntAt(s1, p, w) == EntAt(s, p, w) && EntAt(s1, q, x) == EntAt(s, q, x);
          assert Shares(s1, p, w, q, x) ==> Shares(s, p, u, p, w);
        }
        assert Unrelated(s1, p, m, hi, q, x);
      }
    }
    forall q, x | q != p && Unrelated(s, p, lo, hi, q, x) ensures ViewAt(s2, q, x) == ViewAt(s, q, x) {
      assert Unrelated(s, p, lo, m, q, x);
      forall w | m <= w < hi ensures !Shares(s1, p, w, q, x) {
        assert !Shares(s, p, w, q, x);
        assert EntAt(s1, p, w) == EntAt(s, p, w) && EntAt(s1, q, x) == EntAt(s, q, x);
      }
      assert Unrelated(s1, p, m, hi, q, x);
    }
  }

  lemma SharesKept(s: Vm, s1: Vm, p: int, lo: int, hi: int, u: int, q: int, x: int)
    requires EntsKept(s, s1, p, lo, hi) && q != p && Shares(s, p, u, q, x)
    ensures Shares(s1, p, u, q, x)
  {
    hide EntAt;
  }

  lemma NothingKept(s: Vm, p: int, x: int)
    ensures EntsKept(s, s, p, x, x) && OthersSee(s, s, p, x, x)
  {
    hide EntAt, ViewAt;
  }

  // ----- Making sure of one page

  /** The page under `va` is mapped, or `alloc_page` maps it. */
  predicate Touchable(s: Vm, p: nat, va: Word)
    requires p < NUM_IDS
  {
    Present(EntryByVa(Touch(s, p, va), p, va))
  }

  /** What a page reads as once it has been touched. */
  function PageOr0(v: Option<Page>): (pg: Page) {
    match v
    case Some(x) => x
    case None => ZeroPage()
  }

  lemma EntryOfPage(s: Vm, p: nat, va: Word)
    requires 1 <= p < NUM_IDS && UserPage(va / 4096)
    ensures EntryByVa(s, p, va) == Seen(EntAt(s, p, va / 4096))
  {
    UserCell(s, p, va);
  }

  /** From cells to pages. */
  lemma ElsewhereSame(s: Vm, s1: Vm, p: nat, u: int)
    requires 1 <= p < NUM_IDS && UserPage(u) && SameEntriesBut(s, s1, p, u / 1024, u % 1024)
    ensures forall q, x :: !(q == p && x == u) ==> EntAt(s1, q, x) == EntAt(s, q, x)
  {
    forall q, x | !(q == p && x == u) ensures EntAt(s1, q, x) == EntAt(s, q, x) {
      if 1 <= q < NUM_IDS && UserPage(x) {
        CellsOfPage(x);
        assert x / 1024 == u / 1024 && x % 1024 == u % 1024 ==> x == u;
      }
    }
  }

  lemma UnsharedIsOwn(s: Vm, p: nat, u: int)
    requires 1 <= p < NUM_IDS && UserPage(u) && Unshared(s, p, u / 1024, u % 1024)
    ensures OwnPage(s, p, u)
  {
    CellsOfPage(u);
    forall q, x | Shares(s, p, u, q, x) ensures q == p && x == u {
      CellsOfPage(x);
      assert Mapped(s, p, u / 1024, u % 1024) && Mapped(s, q, x / 1024, x % 1024);
    }
  }

  lemma OneEntry(s: Vm, s1: Vm, p: nat, u: int)
    requires 1 <= p < NUM_IDS && UserPage(u) && !MappedAt(s, p, u)
    requires SameEntriesBut(s, s1, p, u / 1024, u % 1024) && Unshared(s1, p, u / 1024, u % 1024)
    requires Perm(EntAt(s1, p, u)) == 7
    ensures EntsKept(s, s1, p, u, u + 1)
  {
    hide EntAt, SameEntriesBut, Unshared, OwnPage;
    ElsewhereSame(s, s1, p, u);
    UnsharedIsOwn(s1, p, u);
  }

  lemma SameEntriesAt(s: Vm, s1: Vm, q: int, x: int)
    requires SameEntries(s, s1)
    ensures EntAt(s1, q, x) == EntAt(s, q, x)
  {
    if 1 <= q < NUM_IDS && UserPage(x) {
      CellsOfPage(x);
    }
  }

  lemma SameEntriesKept(s: Vm, s1: Vm, p: int, u: int)
    requires SameEntries(s, s1) && (MappedAt(s, p, u) || !MappedAt(s1, p, u))
    ensures EntsKept(s, s1, p, u, u + 1)
  {
    hide EntAt;
    forall q, x ensures EntAt(s1, q, x) == EntAt(s, q, x) {
      SameEntriesAt(s, s1, q, x);
    }
  }

  ghost predicate OnlyPage(s: Vm, s': Vm, p: int, u: int) {
    forall q, x :: !(q == p && x == u) ==> ViewAt(s', q, x) == ViewAt(s, q, x)
  }

  lemma CellToPage(s: Vm, s': Vm, p: int, u: int)
    requires 1 <= p < NUM_IDS && UserPage(u) && SameViewsButCell(s, s', p, u / 1024, u % 1024)
    ensures OnlyPage(s, s', p, u)
  {
    forall q, x | !(q == p && x == u) ensures ViewAt(s', q, x) == ViewAt(s, q, x) {
      if 1 <= q < NUM_IDS && UserPage(x) {
        CellsOfPage(x);
        assert x / 1024 == u / 1024 && x % 1024 == u % 1024 ==> x == u;
      }
    }
  }

  /** The state after the page under `va` was made sure of, whether that succeeded or not. */
  ghost predicate Ensured(s: Vm, s1: Vm, p: nat, u: int) {
    && Inv(s1) && EntsKept(s, s1, p, u, u + 1) && OnlyPage(s, s1, p, u)
    && (MappedAt(s1, p, u) ==> ViewAt(s1, p, u) == Some(PageOr0(ViewAt(s, p, u))))
    && (MappedAt(s, p, u) ==> s1 == s)
  }

  lemma TouchEnsures(s: Vm, p: nat, va: Word)
    requires Inv(s) && 1 <= p < NUM_IDS && UserPage(va / 4096)
    ensures Ensured(s, Touch(s, p, va), p, va / 4096)
    ensures Touchable(s, p, va) <==> MappedAt(Touch(s, p, va), p, va / 4096)
  {
    hide Inv, EntryByVa, EntAt, EntsKept, OnlyPage, Touch;
    var u := va / 4096;
    var s1 := Touch(s, p, va);
    EntryOfPage(s, p, va);
    EntryOfPage(s1, p, va);
    if MappedAt(s, p, u) {
      NoTouch(s, p, va);
      Unchanged(s, p, u);
    } else {
      TouchAllocates(s, p, va);
    }
  }

  lemma NoTouch(s: Vm, p: nat, va: Word)
    requires p < NUM_IDS && Present(EntryByVa(s, p, va))
    ensures Touch(s, p, va) == s
  {
  }

  lemma Unchanged(s: Vm, p: nat, u: int)
    requires MappedAt(s, p, u)
    ensures EntsKept(s, s, p, u, u + 1) && OnlyPage(s, s, p, u) && ViewAt(s, p, u) == Some(PageOr0(ViewAt(s, p, u)))
  {
    ViewOfEntry(s, p, u);
    hide EntAt, ViewAt;
  }

  lemma TouchAllocates(s: Vm, p: nat, va: Word)
    requires Inv(s) && 1 <= p < NUM_IDS && UserPage(va / 4096) && !MappedAt(s, p, va / 4096)
    ensures Ensured(s, Touch(s, p, va), p, va / 4096)
  {
    hide Inv, EntryByVa, AllocPage, EntAt, SameViews, SameViewsButCell, SameEntriesBut, SameEntries, Unshared, View,
         EntsKept, OnlyPage, Touch, ViewAt;
    var u := va / 4096;
    var (s1, ret) := AllocPage(s, p, va, PTU);
    EntryOfPage(s, p, va);
    TouchIsAlloc(s, p, va);
    ZeroFillAt(s, p, va, PTU);
    if ret == MAGIC {
      FailedAlloc(s, s1, p, u);
    } else {
      OneEntry(s, s1, p, u);
      CellToPage(s, s1, p, u);
      ViewOfEntry(s, p, u);
    }
  }

  lemma TouchIsAlloc(s: Vm, p: nat, va: Word)
    requires p < NUM_IDS && !Present(EntryByVa(s, p, va))
    ensures Touch(s, p, va) == AllocPage(s, p, va, PTU).0
  {
    hide AllocPage, EntryByVa;
  }

  /** `alloc_page` page by page. */
  lemma ZeroFillAt(s: Vm, p: nat, va: Word, perm: nat)
    requires Inv(s) && 1 <= p < NUM_IDS && UserPage(va / 4096) && perm < 4096 && Present(perm) && !Super(perm)
    ensures var (s', ret) := AllocPage(s, p, va, perm);
            var (i, j) := (va / 4096 / 1024, va / 4096 % 1024);
            Inv(s') && (ret == MAGIC ==> SameViews(s, s') && SameEntries(s, s'))
            && (ret != MAGIC ==> SameViewsButCell(s, s', p, i, j) && ViewAt(s', p, va / 4096) == Some(ZeroPage())
                                 && SameEntriesBut(s, s', p, i, j) && Unshared(s', p, i, j)
                                 && Perm(EntAt(s', p, va / 4096)) == perm)
  {
    hide Inv, EntryByVa, AllocPage, Ent, SameViews, SameViewsButCell, SameEntriesBut, SameEntries, Unshared, View;
    UserCell(s, p, va);
    hide DirOf, TblOf;
    AllocPageIsZeroFill(s, p, va, perm);
  }

  lemma FailedAlloc(s: Vm, s1: Vm, p: nat, u: int)
    requires SameViews(s, s1) && SameEntries(s, s1) && !MappedAt(s, p, u)
    ensures EntsKept(s, s1, p, u, u + 1) && OnlyPage(s, s1, p, u) && !MappedAt(s1, p, u)
  {
    SameEntriesAt(s, s1, p, u);
    hide EntAt, SameEntries;
    SameEntriesKept(s, s1, p, u);
    forall q, x ensures ViewAt(s1, q, x) == ViewAt(s, q, x) {
      if 1 <= q < NUM_IDS && UserPage(x) {
        CellsOfPage(x);
      }
    }
  }

  // ----- Writing a frame

  /** Writing the frame of a mapped page is seen exactly where that frame is mapped. */
  lemma WriteSeen(s: Vm, p: nat, u: int, pg: Page)
    requires Inv(s) && MappedAt(s, p, u)
    ensures var s' := SetFrame(s, Frame(EntAt(s, p, u)), pg);
            Inv(s') && SameEntries(s, s') && s'.pmm == s.pmm
            && forall q, x :: ViewAt(s', q, x) == if Shares(s, p, u, q, x) then Some(pg) else ViewAt(s, q, x)
  {
    CellsOfPage(u);
    var f := Frame(EntAt(s, p, u));
    var s' := SetFrame(s, f, pg);
    assert Mapped(s, p, u / 1024, u % 1024);
    FrameWriteKeeps(s, f, pg);
    FrameEnts(s, f, pg);
    hide Inv, Ent, SameEntries;
    forall q, x ensures ViewAt(s', q, x) == if Shares(s, p, u, q, x) then Some(pg) else ViewAt(s, q, x) {
      SameEntriesAt(s, s', q, x);
      ViewOfEntry(s, q, x);
      ViewOfEntry(s', q, x);
    }
  }

  /** Frame 0, to which the copy goes where no page can be had, is no page table, no identity table and
      no process's page: writing it is not seen at all. */
  lemma WriteLost(s: Vm, pg: Page)
    requires Inv(s)
    ensures var s' := SetFrame(s, 0, pg);
            Inv(s') && SameEntries(s, s') && s'.pmm == s.pmm && forall q, x :: ViewAt(s', q, x) == ViewAt(s, q, x)
  {
    var s' := SetFrame(s, 0, pg);
    LowFrame(s, pg);
    FrameEnts(s, 0, pg);
    forall q, x ensures ViewAt(s', q, x) == ViewAt(s, q, x) {
      SameEntriesAt(s, s', q, x);
      ViewOfEntry(s, q, x);
      ViewOfEntry(s', q, x);
      if MappedAt(s, q, x) {
        CellsOfPage(x);
        assert Mapped(s, q, x / 1024, x % 1024);
        assert Frame(EntAt(s, q, x)) != 0;
      }
    }
  }

  lemma LowFrame(s: Vm, pg: Page)
    requires Inv(s)
    ensures Inv(SetFrame(s, 0, pg)) && forall p, i :: HasTable(s, p, i) ==> TableOf(s, p, i) != 0
  {
    var s' := SetFrame(s, 0, pg);
    assert !AllocTable.IsNorm(s.pmm.at, 0);
    assert forall p, i :: HasTable(s, p, i) ==> TableOf(s, p, i) != 0;
    FrameEnts(s, 0, pg);
    assert forall q, k, l :: Mapped(s', q, k, l) <==> Mapped(s, q, k, l);
    assert forall q, k :: HasTable(s', q, k) <==> HasTable(s, q, k);
    forall a, b | 0 <= a < 1024 && 0 <= b < 1024 ensures IdWord(s', a, b) == IdEntry(a, b) {
      assert IdWord(s, a, b) == IdEntry(a, b);
    }
  }

  // ----- One round

  /** One round of the copy loop. */
  function CopyChunk(s: Vm, p: nat, va: Word, bs: seq<Byte>): (r: Vm)
    requires p < NUM_IDS && va % 4096 + |bs| <= 4096
  {
    var s1 := Touch(s, p, va);
    var f := Frame(EntryByVa(s1, p, va));
    SetFrame(s1, f, PutBytes(s1.phys[f], va % 4096, bs))
  }

  /** Page `u` holds `pg` if it could be had; the rest of memory is as the frames tell. */
  ghost predicate PageDone(s: Vm, s': Vm, p: nat, u: int, pg: Page) {
    && Inv(s') && EntsKept(s, s', p, u, u + 1) && OthersSee(s, s', p, u, u + 1)
    && (MappedAt(s', p, u) ==> ViewAt(s', p, u) == Some(pg))
  }

  lemma ChunkDone(s: Vm, p: nat, va: Word, bs: seq<Byte>)
    requires Inv(s) && 1 <= p < NUM_IDS && UserPage(va / 4096) && va % 4096 + |bs| <= 4096
    ensures var (s', u) := (CopyChunk(s, p, va, bs), va / 4096);
            PageDone(s, s', p, u, PutBytes(PageOr0(ViewAt(s, p, u)), va % 4096, bs))
            && (MappedAt(s', p, u) <==> Touchable(s, p, va))
            && s'.pmm == Touch(s, p, va).pmm && s'.pdir == Touch(s, p, va).pdir && SameEntries(Touch(s, p, va), s')
  {
    hide Inv, Touch, EntryByVa, EntAt, ViewAt, OthersSee, EntsKept, OnlyPage, PutBytes, SameEntries;
    var u := va / 4096;
    var s1 := Touch(s, p, va);
    TouchEnsures(s, p, va);
    EntryOfPage(s1, p, va);
    var f := Frame(EntryByVa(s1, p, va));
    var pg := PutBytes(s1.phys[f], va % 4096, bs);
    var s' := SetFrame(s1, f, pg);
    if MappedAt(s1, p, u) {
      WriteSeen(s1, p, u, pg);
      ViewOfEntry(s1, p, u);
      SameEntriesAt(s1, s', p, u);
      WriteAfterTouch(s, s1, s', p, u, pg);
    } else {
      WriteLost(s1, pg);
      SameEntriesAt(s1, s', p, u);
      LostAfterTouch(s, s1, s', p, u);
    }
  }

  lemma KeptAfterSame(s: Vm, s1: Vm, s': Vm, p: int, lo: int, hi: int)
    requires EntsKept(s, s1, p, lo, hi) && SameEntries(s1, s')
    ensures EntsKept(s, s', p, lo, hi)
  {
    forall q, x ensures EntAt(s', q, x) == EntAt(s1, q, x) {
      SameEntriesAt(s1, s', q, x);
    }
    hide EntAt, SameEntries;
    forall x | lo <= x < hi && !MappedAt(s, p, x) ensures OwnPage(s', p, x) {
      assert OwnPage(s1, p, x);
      forall q, y | Shares(s', p, x, q, y) ensures q == p && y == x {
        assert Shares(s1, p, x, q, y);
      }
    }
  }

  lemma WriteAfterTouch(s: Vm, s1: Vm, s': Vm, p: nat, u: int, pg: Page)
    requires Ensured(s, s1, p, u) && MappedAt(s1, p, u) && SameEntries(s1, s')
    requires forall q, x :: ViewAt(s', q, x) == if Shares(s1, p, u, q, x) then Some(pg) else ViewAt(s1, q, x)
    ensures EntsKept(s, s', p, u, u + 1) && OthersSee(s, s', p, u, u + 1)
  {
    hide Inv, SameEntries;
    InvDistinct(s1, p);
    KeptAfterSame(s, s1, s', p, u, u + 1);
    hide EntAt, ViewAt;
    forall q, x | q != p && Unrelated(s, p, u, u + 1, q, x) ensures ViewAt(s', q, x) == ViewAt(s, q, x) {
      assert !Shares(s, p, u, q, x);
      assert MappedAt(s, p, u) || OwnPage(s1, p, u);
    }
    forall x | x != u ensures ViewAt(s', p, x) == ViewAt(s, p, x) {
      assert !Shares(s1, p, u, p, x);
    }
    assert Shares(s1, p, u, p, u);
  }

  lemma LostAfterTouch(s: Vm, s1: Vm, s': Vm, p: nat, u: int)
    requires Ensured(s, s1, p, u) && !MappedAt(s1, p, u) && SameEntries(s1, s')
    requires forall q, x :: ViewAt(s', q, x) == ViewAt(s1, q, x)
    ensures EntsKept(s, s', p, u, u + 1) && OthersSee(s, s', p, u, u + 1)
  {
    hide Inv, SameEntries;
    KeptAfterSame(s, s1, s', p, u, u + 1);
    hide EntAt, ViewAt;
    assert !MappedAt(s, p, u);
  }

  lemma {:induction false} PutBytesGet(pg: Page, off: nat, bs: seq<Byte>, o: nat)
    requires off + |bs| <= 4096 && o < 4096
    ensures ByteAt(PutBytes(pg, off, bs), o) == if off <= o < off + |bs| then bs[o - off] else ByteAt(pg, o)
  {
    hide ByteAt, StoreByte;
    if bs != [] {
      var n := |bs| - 1;
      PutBytesGet(pg, off, bs[..n], o);
      StoreByteGet(PutBytes(pg, off, bs[..n]), off + n, bs[n], o);
    }
  }

  // ----- The whole copy

  /** One past the last page of the `n` addresses from `va` on. */
  function EndPage(va: int, n: nat): (x: int) {
    if n == 0 then va / 4096 else (va + n - 1) / 4096 + 1
  }

  /** Page `x` holds one of the `n` addresses from `va` on. */
  predicate InPages(va: int, n: nat, x: int) {
    va / 4096 <= x < EndPage(va, n)
  }

  /** What a byte-by-byte copy of `buf` to `va` makes of address `a`; pages that had to be
      allocated for it read as zeros elsewhere. */
  function ByteAfter(s: Vm, p: nat, va: int, buf: seq<Byte>, a: int): (b: Option<Byte>) {
    if va <= a < va + |buf| then Some(buf[a - va])
    else if InPages(va, |buf|, a / 4096) then Some(ByteAt(PageOr0(ViewAt(s, p, a / 4096)), a % 4096))
    else UByte(s, p, a)
  }

  /** Every address of a page that is mapped holds what a byte-by-byte copy puts there. */
  ghost predicate BytesCopied(s: Vm, s': Vm, p: nat, va: int, buf: seq<Byte>) {
    forall a :: MappedAt(s', p, a / 4096) ==> UByte(s', p, a) == ByteAfter(s, p, va, buf, a)
  }

  ghost predicate CopyDone(s: Vm, s': Vm, p: nat, va: int, buf: seq<Byte>) {
    && Inv(s') && BytesCopied(s, s', p, va, buf)
    && EntsKept(s, s', p, va / 4096, EndPage(va, |buf|)) && OthersSee(s, s', p, va / 4096, EndPage(va, |buf|))
  }

  lemma ChunkPages(va: Word, n: nat, x: int)
    requires n > 0 && va % 4096 + n <= 4096
    ensures (InPages(va, n, x) <==> x == va / 4096) && EndPage(va, n) == va / 4096 + 1
  {
  }

  lemma ChunkCopied(s: Vm, p: nat, va: Word, bs: seq<Byte>)
    requires Inv(s) && 1 <= p < NUM_IDS && UserPage(va / 4096) && bs != [] && va % 4096 + |bs| <= 4096
    ensures CopyDone(s, CopyChunk(s, p, va, bs), p, va, bs)
  {
    hide Inv, CopyChunk, EntAt, ViewAt, OthersSee, EntsKept, PutBytes, Touchable, SameEntries;
    var s' := CopyChunk(s, p, va, bs);
    ChunkDone(s, p, va, bs);
    ChunkPages(va, |bs|, va / 4096);
    OnePageBytes(s, s', p, va, bs);
  }

  lemma OnePageBytes(s: Vm, s': Vm, p: nat, va: Word, bs: seq<Byte>)
    requires bs != [] && va % 4096 + |bs| <= 4096
    requires PageDone(s, s', p, va / 4096, PutBytes(PageOr0(ViewAt(s, p, va / 4096)), va % 4096, bs))
    ensures BytesCopied(s, s', p, va, bs)
  {
    hide Inv, ByteAt, PutBytes, InPages, ViewAt, EntAt, EntsKept;
    forall x ensures InPages(va, |bs|, x) <==> x == va / 4096 {
      ChunkPages(va, |bs|, x);
    }
    forall a | MappedAt(s', p, a / 4096) ensures UByte(s', p, a) == ByteAfter(s, p, va, bs, a) {
      if a / 4096 == va / 4096 {
        PutBytesGet(PageOr0(ViewAt(s, p, va / 4096)), va % 4096, bs, a % 4096);
        assert a - va == a % 4096 - va % 4096;
      } else {
        assert !(va <= a < va + |bs|);
      }
    }
  }

  lemma SplitPages(va: int, n1: nat, n2: nat, x: int)
    requires n1 > 0 && n2 > 0 && (va + n1) % 4096 == 0
    ensures InPages(va, n1 + n2, x) <==> InPages(va, n1, x) || InPages(va + n1, n2, x)
    ensures InPages(va + n1, n2, x) ==> !InPages(va, n1, x)
    ensures EndPage(va, n1) == (va + n1) / 4096 && EndPage(va, n1 + n2) == EndPage(va + n1, n2)
    ensures va / 4096 <= (va + n1) / 4096 <= EndPage(va + n1, n2)
  {
    var m := (va + n1) / 4096;
    assert (va + n1 - 1) / 4096 == m - 1;
  }

  lemma AddressPage(va: int, n: nat, a: int)
    ensures va <= a < va + n ==> InPages(va, n, a / 4096)
  {
  }

  lemma BytesAppend(s: Vm, s1: Vm, s2: Vm, p: nat, va: int, b1: seq<Byte>, b2: seq<Byte>)
    requires b1 != [] && b2 != [] && (va + |b1|) % 4096 == 0
    requires BytesCopied(s, s1, p, va, b1) && BytesCopied(s1, s2, p, va + |b1|, b2)
    requires OthersSee(s, s1, p, va / 4096, EndPage(va, |b1|))
    requires EntsKept(s1, s2, p, (va + |b1|) / 4096, EndPage(va + |b1|, |b2|))
    ensures BytesCopied(s, s2, p, va, b1 + b2)
  {
    var mid := va + |b1|;
    hide EntAt, ViewAt, ByteAt, UByte;
    forall a | MappedAt(s2, p, a / 4096) ensures UByte(s2, p, a) == ByteAfter(s, p, va, b1 + b2, a) {
      var x := a / 4096;
      SplitPages(va, |b1|, |b2|, x);
      AddressPage(va, |b1|, a);
      AddressPage(mid, |b2|, a);
      assert UByte(s2, p, a) == ByteAfter(s1, p, mid, b2, a);
      if InPages(mid, |b2|, x) {
        assert ViewAt(s1, p, x) == ViewAt(s, p, x);
      } else {
        assert EntAt(s2, p, x) == EntAt(s1, p, x);
        assert UByte(s1, p, a) == ByteAfter(s, p, va, b1, a);
      }
    }
  }

  lemma DoneAppend(s: Vm, s1: Vm, s2: Vm, p: nat, va: int, buf: seq<Byte>, n: nat)
    requires Inv(s) && 0 < n < |buf| && (va + n) % 4096 == 0
    requires CopyDone(s, s1, p, va, buf[..n]) && CopyDone(s1, s2, p, va + n, buf[n..])
    ensures CopyDone(s, s2, p, va, buf)
  {
    hide Inv, BytesCopied, EntsKept, OthersSee, Distinct, EndPage;
    InvDistinct(s, p);
    var lo, m, hi := va / 4096, (va + n) / 4096, EndPage(va, |buf|);
    SplitPages(va, n, |buf| - n, lo);
    BytesAppend(s, s1, s2, p, va, buf[..n], buf[n..]);
    assert buf[..n] + buf[n..] == buf;
    StretchesCompose(s, s1, s2, p, lo, m, hi);
  }

  lemma StretchesCompose(s: Vm, s1: Vm, s2: Vm, p: int, lo: int, m: int, hi: int)
    requires EntsKept(s, s1, p, lo, m) && EntsKept(s1, s2, p, m, hi) && lo <= m <= hi && Distinct(s, p)
    requires OthersSee(s, s1, p, lo, m) && OthersSee(s1, s2, p, m, hi)
    ensures EntsKept(s, s2, p, lo, hi) && OthersSee(s, s2, p, lo, hi)
  {
    hide EntsKept, OthersSee, Distinct;
    EntsCompose(s, s1, s2, p, lo, m, hi);
    OthersCompose(s, s1, s2, p, lo, m, hi);
  }

  lemma NothingDone(s: Vm, p: nat, va: Word)
    requires Inv(s) && p < NUM_IDS
    ensures CopyDone(s, CopyLoop(s, p, va, []), p, va, [])
  {
    hide Inv, EntsKept, OthersSee, EntAt, ViewAt;
    NothingKept(s, p, va / 4096);
  }

  lemma RestStarts(va: Word, n: nat, len: nat)
    requires len > 0 && n == Chunk(va, len) && va + len <= VM_USERHI
    ensures U32(va + n) == va + n && (n < len ==> (va + n) % 4096 == 0)
  {
  }

  lemma UserAddress(va: Word)
    requires VM_USERLO <= va < VM_USERHI
    ensures UserPage(va / 4096)
  {
  }

  lemma LoopUnfolds(s: Vm, p: nat, va: Word, buf: seq<Byte>)
    requires p < NUM_IDS && buf != []
    ensures var n := Chunk(va, |buf|);
            CopyLoop(s, p, va, buf) == CopyLoop(CopyChunk(s, p, va, buf[..n]), p, U32(va + n), buf[n..])
  {
  }

  /** The chunked loop is a byte-by-byte copy, whether or not every page could be had: in the process
      written to, every mapped page of the range holds the bytes of the buffer and no other page
      changes; another process sees the change exactly in the pages that have a frame of the range;
      the invariant holds. */
  lemma {:induction false} CopyLoopIsByteCopy(s: Vm, p: nat, va: Word, buf: seq<Byte>)
    requires Inv(s) && 1 <= p < NUM_IDS && VM_USERLO <= va && va + |buf| <= VM_USERHI
    ensures CopyDone(s, CopyLoop(s, p, va, buf), p, va, buf)
    decreases |buf|
  {
    hide Inv, CopyDone, CopyChunk, CopyLoop;
    if buf == [] {
      NothingDone(s, p, va);
    } else {
      var n := Chunk(va, |buf|);
      var s1 := CopyChunk(s, p, va, buf[..n]);
      UserAddress(va);
      ChunkCopied(s, p, va, buf[..n]);
      LoopUnfolds(s, p, va, buf);
      RestStarts(va, n, |buf|);
      hide U32, Chunk;
      DoneInv(s, s1, p, va, buf[..n]);
      CopyLoopIsByteCopy(s1, p, va + n, buf[n..]);
      if n < |buf| {
        DoneAppend(s, s1, CopyLoop(s1, p, va + n, buf[n..]), p, va, buf, n);
      } else {
        LoopEnds(s1, p, va + n);
        assert buf[..n] == buf && buf[n..] == [];
      }
    }
  }

  lemma LoopEnds(s: Vm, p: nat, va: Word)
    requires p < NUM_IDS
    ensures CopyLoop(s, p, va, []) == s
  {
  }

  lemma DoneInv(s: Vm, s': Vm, p: nat, va: int, buf: seq<Byte>)
    requires CopyDone(s, s', p, va, buf)
    ensures Inv(s')
  {
  }
}
