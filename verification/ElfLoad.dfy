/** The program loader (kern/lib/elf.c): what the page loop over the LOAD headers builds in the
    memory of a process.  The executable is the sequence of bytes at kernel address `exe`. */
module ElfLoad {
  import opened Words
  import opened Containers
  import opened PageTables
  import opened Mapping
  import opened Fork
  import opened CowRefinement
  import opened UserCopy
  import opened PageDemand
  import opened CopyServed

  const ELF_PROG_LOAD := 1
  const ELF_PROG_FLAG_WRITE := 2

  datatype ProgHeader = ProgHeader(ptype: Word, offset: Word, va: Word, filesz: Word, memsz: Word, flags: Word)

  function RoundDown(a: Word): (r: Word)
    ensures r % 4096 == 0 && r <= a < r + 4096
  {
    a - a % 4096
  }

  /** `roundup`, which wraps for addresses in the last page. */
  function RoundUp(a: Word): (r: Word)
    ensures r % 4096 == 0 && r <= 0xFFFF_F000
    ensures a <= 0xFFFF_F000 ==> a <= r < a + 4096
  {
    RoundDown(U32(a + 4095))
  }

  function SegPerm(h: ProgHeader): (perm: nat)
    ensures perm < 4096 && Present(perm) && UserOk(perm) && !Super(perm) && !Cow(perm)
    ensures Writable(perm) <==> (h.flags / 2) % 2 == 1
  {
    if (h.flags / ELF_PROG_FLAG_WRITE) % 2 == 1 then PTU else 5
  }

  /** The byte at offset `k` of the file; zero past its end. */
  function FileByte(file: seq<Byte>, k: int): (b: Byte) {
    if 0 <= k < |file| then file[k] else 0
  }

  function FileBytes(file: seq<Byte>, k: int, n: nat): (bs: seq<Byte>)
    ensures |bs| == n && forall o :: 0 <= o < n ==> bs[o] == FileByte(file, k + o)
  {
    seq<Byte>(n, o => FileByte(file, k + o))
  }

  /** One round of the page loop, for the page at `va` whose file offset is `off`. */
  function LoadPage(s: Vm, p: nat, exe: Word, file: seq<Byte>, h: ProgHeader, va: Word, off: nat): (r: Vm)
    requires p < NUM_IDS
  {
    var zva := U32(h.va + h.filesz);
    var s1 := AllocPage(s, p, va, SegPerm(h)).0;
    if va < RoundDown(zva) then
      Copyout(s1, U32(exe + off), FileBytes(file, off, 4096), p, va).0
    else if va < zva && h.filesz != 0 then
      Copyout(Memset(s1, p, va, 0, 4096), U32(exe + off), FileBytes(file, off, zva - va), p, va).0
    else
      Memset(s1, p, va, 0, 4096)
  }

  function LoadPages(s: Vm, p: nat, exe: Word, file: seq<Byte>, h: ProgHeader, va: Word, off: nat): (r: Vm)
    requires p < NUM_IDS
    decreases 0x1_0000_0000 - va
  {
    if va >= RoundUp(U32(h.va + h.memsz)) then s
    else LoadPages(LoadPage(s, p, exe, file, h, va, off), p, exe, file, h, va + 4096, off + 4096)
  }

  function LoadSegment(s: Vm, p: nat, exe: Word, file: seq<Byte>, h: ProgHeader): (r: Vm)
    requires p < NUM_IDS
  {
    if h.ptype != ELF_PROG_LOAD then s
    else LoadPages(s, p, exe, file, h, RoundDown(h.va), RoundDown(h.offset))
  }

  function Load(s: Vm, p: nat, exe: Word, file: seq<Byte>, hs: seq<ProgHeader>): (r: Vm)
    requires p < NUM_IDS
    decreases |hs|
  {
    if hs == [] then s else Load(LoadSegment(s, p, exe, file, hs[0]), p, exe, file, hs[1..])
  }

  // ----- What an executable asks for

  /** A segment inside the user range whose file part is inside the file. */
  predicate SegmentOk(exe: Word, file: seq<Byte>, h: ProgHeader) {
    && VM_USERLO <= h.va && h.va + h.memsz <= VM_USERHI && h.filesz <= h.memsz
    && h.offset % 4096 == h.va % 4096 && h.offset + h.filesz <= |file| && exe + |file| <= VM_USERHI
  }

  function FirstPageOf(h: ProgHeader): (x: int) { h.va / 4096 }

  function EndPageOf(h: ProgHeader): (x: int) { (h.va + h.memsz + 4095) / 4096 }

  predicate Covers(h: ProgHeader, x: int) {
    h.ptype == ELF_PROG_LOAD && FirstPageOf(h) <= x < EndPageOf(h)
  }

  /** The byte the headers give to address `a` of a page the segment covers: the file's up to the
      end of the file part, zero from there on. */
  function ImageByte(file: seq<Byte>, h: ProgHeader, a: int): (b: Byte) {
    if h.filesz != 0 && a < h.va + h.filesz then FileByte(file, h.offset + a - h.va) else 0
  }

  /** The permission bits of a user page, if it has a mapping. */
  function PermAt(s: Vm, p: int, x: int): (r: Option<nat>) {
    if MappedAt(s, p, x) then Some(Perm(EntAt(s, p, x))) else None
  }

  ghost predicate ImageBytes(s: Vm, p: nat, x: int, file: seq<Byte>, h: ProgHeader) {
    forall a :: a / 4096 == x ==> UByte(s, p, a) == Some(ImageByte(file, h, a))
  }

  /** Page `x` of process `p` holds its part of the image, with the permissions of the segment. */
  ghost predicate Holds(s: Vm, p: nat, x: int, file: seq<Byte>, h: ProgHeader) {
    PermAt(s, p, x) == Some(SegPerm(h)) && ImageBytes(s, p, x, file, h)
  }

  /** Page `x` of process `q` has the same contents and permissions in both states. */
  ghost predicate SamePage(s: Vm, s': Vm, q: int, x: int) {
    ViewAt(s', q, x) == ViewAt(s, q, x) && PermAt(s', q, x) == PermAt(s, q, x)
  }

  ghost predicate OnlyHere(s: Vm, s': Vm, p: int, u: int) {
    forall q, x :: !(q == p && x == u) ==> SamePage(s, s', q, x)
  }

  lemma RemapHere(s: Vm, s': Vm, p: int, u: int)
    requires OnlyPage(s, s', p, u) && forall q, x :: !(q == p && x == u) ==> EntAt(s', q, x) == EntAt(s, q, x)
    ensures OnlyHere(s, s', p, u)
  {
    hide EntAt, ViewAt;
  }

  // ----- One page

  lemma AllocatedPage(s: Vm, p: nat, va: Word, perm: nat)
    requires Inv(s) && 1 <= p < NUM_IDS && UserPage(va / 4096) && perm < 4096 && Present(perm) && !Super(perm)
    requires AllocPage(s, p, va, perm).1 != MAGIC
    ensures var s1 := AllocPage(s, p, va, perm).0;
            Inv(s1) && OnlyHere(s, s1, p, va / 4096) && MappedAt(s1, p, va / 4096)
            && OwnPage(s1, p, va / 4096) && PermAt(s1, p, va / 4096) == Some(perm)
  {
    hide Inv, AllocPage, SameViews, SameViewsButCell, SameEntries, SameEntriesBut, Unshared, EntAt, ViewAt, OwnPage,
         OnlyPage, OnlyHere;
    var u := va / 4096;
    var s1 := AllocPage(s, p, va, perm).0;
    ZeroFillAt(s, p, va, perm);
    CellToPage(s, s1, p, u);
    ElsewhereSame(s, s1, p, u);
    UnsharedIsOwn(s1, p, u);
    RemapHere(s, s1, p, u);
    ViewOfEntry(s1, p, u);
  }

  /** Copying up to a page of bytes to the start of a mapped page of one's own. */
  lemma FillPage(s: Vm, p: nat, va: Word, bs: seq<Byte>)
    requires Inv(s) && 1 <= p < NUM_IDS && va % 4096 == 0 && UserPage(va / 4096) && 0 < |bs| <= 4096
    requires MappedAt(s, p, va / 4096) && OwnPage(s, p, va / 4096)
    ensures var (s', u) := (CopyLoop(s, p, va, bs), va / 4096);
            Inv(s') && s'.pmm == s.pmm && s'.pdir == s.pdir && OnlyHere(s, s', p, u)
            && MappedAt(s', p, u) && OwnPage(s', p, u) && PermAt(s', p, u) == PermAt(s, p, u)
            && forall a :: a / 4096 == u ==> UByte(s', p, a) == if a < va + |bs| then Some(bs[a - va]) else UByte(s, p, a)
  {
    hide Inv, CopyLoop, EntAt, ViewAt, ByteAt, BytesCopied, EntsKept, OthersSee, OwnPage, OnlyHere;
    var s', u := CopyLoop(s, p, va, bs), va / 4096;
    OneChunk(s, p, va, bs);
    CopyLoopIsByteCopy(s, p, va, bs);
    FilledEntries(s, s', p, u);
    FilledOthers(s, s', p, u);
    FilledBytes(s, s', p, va, bs);
  }

  lemma OneChunk(s: Vm, p: nat, va: Word, bs: seq<Byte>)
    requires 1 <= p < NUM_IDS && va % 4096 == 0 && UserPage(va / 4096) && 0 < |bs| <= 4096 && MappedAt(s, p, va / 4096)
    ensures VM_USERLO <= va && va + |bs| <= VM_USERHI && EndPage(va, |bs|) == va / 4096 + 1
    ensures var s' := CopyLoop(s, p, va, bs);
            s'.pmm == s.pmm && s'.pdir == s.pdir
  {
    hide EntryByVa, Touch, PutBytes, EntAt;
    EntryOfPage(s, p, va);
    NoTouch(s, p, va);
    LoopUnfolds(s, p, va, bs);
    assert bs[..|bs|] == bs && bs[|bs|..] == [];
    ChunkPages(va, |bs|, va / 4096);
  }

  lemma FilledEntries(s: Vm, s': Vm, p: nat, u: int)
    requires EntsKept(s, s', p, u, u + 1) && MappedAt(s, p, u) && OwnPage(s, p, u)
    ensures MappedAt(s', p, u) && OwnPage(s', p, u) && PermAt(s', p, u) == PermAt(s, p, u)
    ensures forall q, x :: EntAt(s', q, x) == EntAt(s, q, x)
  {
    hide EntAt;
    forall q, x | Shares(s', p, u, q, x) ensures q == p && x == u {
      assert Shares(s, p, u, q, x);
    }
  }

  lemma FilledOthers(s: Vm, s': Vm, p: nat, u: int)
    requires OthersSee(s, s', p, u, u + 1) && OwnPage(s, p, u) && forall q, x :: EntAt(s', q, x) == EntAt(s, q, x)
    ensures OnlyHere(s, s', p, u)
  {
    hide EntAt, ViewAt;
    forall q, x | !(q == p && x == u) ensures ViewAt(s', q, x) == ViewAt(s, q, x) {
      assert q != p ==> Unrelated(s, p, u, u + 1, q, x);
    }
    RemapHere(s, s', p, u);
  }

  lemma FilledBytes(s: Vm, s': Vm, p: nat, va: Word, bs: seq<Byte>)
    requires BytesCopied(s, s', p, va, bs) && va % 4096 == 0 && 0 < |bs| <= 4096
    requires MappedAt(s, p, va / 4096) && MappedAt(s', p, va / 4096)
    ensures forall a :: a / 4096 == va / 4096 ==>
              UByte(s', p, a) == if a < va + |bs| then Some(bs[a - va]) else UByte(s, p, a)
  {
    ViewOfEntry(s, p, va / 4096);
    ChunkPages(va, |bs|, va / 4096);
    hide EntAt, ViewAt, ByteAt, InPages;
    forall a | a / 4096 == va / 4096
      ensures UByte(s', p, a) == if a < va + |bs| then Some(bs[a - va]) else UByte(s, p, a)
    {
      assert va <= a;
      assert UByte(s', p, a) == ByteAfter(s, p, va, bs, a);
    }
  }

  lemma ZeroedPage(s: Vm, p: nat, va: Word)
    requires Inv(s) && 1 <= p < NUM_IDS && va % 4096 == 0 && UserPage(va / 4096)
    requires MappedAt(s, p, va / 4096) && OwnPage(s, p, va / 4096)
    ensures var s' := Memset(s, p, va, 0, 4096);
            Inv(s') && s'.pmm == s.pmm && s'.pdir == s.pdir && OnlyHere(s, s', p, va / 4096)
            && MappedAt(s', p, va / 4096) && OwnPage(s', p, va / 4096) && PermAt(s', p, va / 4096) == PermAt(s, p, va / 4096)
            && forall a :: a / 4096 == va / 4096 ==> UByte(s', p, a) == Some(0)
  {
    hide Inv, CopyLoop, OwnPage, ViewAt, OnlyHere, UByte, PermAt, MappedAt;
    FillPage(s, p, va, seq<Byte>(4096, _ => 0));
  }

  /** The place of page `va` in the segment, and of `off` in the file. */
  predicate AtPage(exe: Word, file: seq<Byte>, h: ProgHeader, va: Word, off: nat) {
    SegmentOk(exe, file, h) && va % 4096 == 0 && Covers(h, va / 4096) && off - va == h.offset - h.va
  }

  lemma PageCases(exe: Word, file: seq<Byte>, h: ProgHeader, va: Word, off: nat)
    requires AtPage(exe, file, h, va, off)
    ensures UserPage(va / 4096) && va % 4096 == 0 && off - va == h.offset - h.va && U32(h.va + h.filesz) == h.va + h.filesz
    ensures var zva := h.va + h.filesz;
            && (va < RoundDown(zva) ==> h.filesz != 0 && va + 4096 <= zva && RangeOk(U32(exe + off), va, 4096))
            && (RoundDown(zva) <= va < zva ==> 0 < zva - va < 4096 && RangeOk(U32(exe + off), va, zva - va))
  {
  }

  lemma OnlyTrans(s: Vm, s1: Vm, s2: Vm, p: nat, u: int)
    requires OnlyHere(s, s1, p, u) && OnlyHere(s1, s2, p, u)
    ensures OnlyHere(s, s2, p, u)
  {
    hide SamePage;
    forall q, x | !(q == p && x == u) ensures SamePage(s, s2, q, x) {
      SameTrans(s, s1, s2, q, x);
    }
  }

  lemma SameTrans(s: Vm, s1: Vm, s2: Vm, q: int, x: int)
    requires SamePage(s, s1, q, x) && SamePage(s1, s2, q, x)
    ensures SamePage(s, s2, q, x)
  {
    hide ViewAt, PermAt;
  }

  /** What the three cases of the loop body do once the range checks are known to pass. */
  function FillImage(s: Vm, p: nat, file: seq<Byte>, h: ProgHeader, va: Word, off: nat): (r: Vm)
    requires p < NUM_IDS
  {
    var zva := h.va + h.filesz;
    if zva <= va || h.filesz == 0 then Memset(s, p, va, 0, 4096)
    else if va + 4096 <= zva then CopyLoop(s, p, va, FileBytes(file, off, 4096))
    else CopyLoop(Memset(s, p, va, 0, 4096), p, va, FileBytes(file, off, zva - va))
  }

  lemma LoadPageIs(s: Vm, p: nat, exe: Word, file: seq<Byte>, h: ProgHeader, va: Word, off: nat)
    requires p < NUM_IDS && AtPage(exe, file, h, va, off)
    ensures LoadPage(s, p, exe, file, h, va, off) == FillImage(AllocPage(s, p, va, SegPerm(h)).0, p, file, h, va, off)
  {
    hide AllocPage, CopyLoop, Memset, FileBytes, SegPerm, AtPage, RangeOk;
    PageCases(exe, file, h, va, off);
    Boundary(h.va + h.filesz, va);
  }

  lemma Boundary(zva: Word, va: Word)
    requires va % 4096 == 0
    ensures va < RoundDown(zva) <==> va + 4096 <= zva
  {
  }

  /** They amount to one: a mapped page of one's own holds its part of the image. */
  lemma FilledWithImage(s: Vm, p: nat, exe: Word, file: seq<Byte>, h: ProgHeader, va: Word, off: nat)
    requires Inv(s) && 1 <= p < NUM_IDS && AtPage(exe, file, h, va, off)
    requires MappedAt(s, p, va / 4096) && OwnPage(s, p, va / 4096)
    ensures var s' := FillImage(s, p, file, h, va, off);
            Inv(s') && s'.pmm == s.pmm && s'.pdir == s.pdir && OnlyHere(s, s', p, va / 4096)
            && PermAt(s', p, va / 4096) == PermAt(s, p, va / 4096) && ImageBytes(s', p, va / 4096, file, h)
  {
    hide Inv, CopyLoop, OwnPage, ViewAt, OnlyHere, UByte, Memset, FileBytes, PermAt, MappedAt, ImageByte, AtPage;
    var zva := h.va + h.filesz;
    var u := va / 4096;
    PageCases(exe, file, h, va, off);
    if zva <= va || h.filesz == 0 {
      ZeroedPage(s, p, va);
      ZeroPart(file, h, va);
    } else if va + 4096 <= zva {
      FillPage(s, p, va, FileBytes(file, off, 4096));
      FullPage(file, h, va, off);
    } else {
      var s2 := Memset(s, p, va, 0, 4096);
      ZeroedPage(s, p, va);
      FillPage(s2, p, va, FileBytes(file, off, zva - va));
      OnlyTrans(s, s2, FillImage(s, p, file, h, va, off), p, u);
      PartPage(file, h, va, off);
    }
  }

  /** A page for which `alloc_page` succeeded holds its part of the image. */
  lemma LoadPageHolds(s: Vm, p: nat, exe: Word, file: seq<Byte>, h: ProgHeader, va: Word, off: nat)
    requires Inv(s) && 1 <= p < NUM_IDS && AtPage(exe, file, h, va, off) && AllocPage(s, p, va, SegPerm(h)).1 != MAGIC
    ensures var s' := LoadPage(s, p, exe, file, h, va, off);
            Inv(s') && s'.pmm == AllocPage(s, p, va, SegPerm(h)).0.pmm && s'.pdir == AllocPage(s, p, va, SegPerm(h)).0.pdir
            && OnlyHere(s, s', p, va / 4096) && Holds(s', p, va / 4096, file, h)
  {
    hide Inv, AllocPage, OwnPage, OnlyHere, PermAt, SegPerm, MappedAt, LoadPage, AtPage, FillImage, ImageBytes;
    var s1 := AllocPage(s, p, va, SegPerm(h)).0;
    PageCases(exe, file, h, va, off);
    LoadPageIs(s, p, exe, file, h, va, off);
    AllocatedPage(s, p, va, SegPerm(h));
    FilledWithImage(s1, p, exe, file, h, va, off);
    OnlyTrans(s, s1, LoadPage(s, p, exe, file, h, va, off), p, va / 4096);
  }

  lemma FullPage(file: seq<Byte>, h: ProgHeader, va: Word, off: nat)
    requires va % 4096 == 0 && off - va == h.offset - h.va && h.filesz != 0 && va + 4096 <= h.va + h.filesz
    ensures forall a :: a / 4096 == va / 4096 ==>
              a < va + 4096 && ImageByte(file, h, a) == FileBytes(file, off, 4096)[a - va]
  {
    hide FileByte, FileBytes;
    assert forall a :: a / 4096 == va / 4096 ==> va <= a < va + 4096;
  }

  lemma PartPage(file: seq<Byte>, h: ProgHeader, va: Word, off: nat)
    requires va % 4096 == 0 && off - va == h.offset - h.va && h.filesz != 0 && va < h.va + h.filesz
    ensures var zva := h.va + h.filesz;
            forall a :: a / 4096 == va / 4096 ==>
              ImageByte(file, h, a) == if a < zva then FileBytes(file, off, zva - va)[a - va] else 0
  {
    hide FileByte, FileBytes;
    assert forall a :: a / 4096 == va / 4096 ==> va <= a < va + 4096;
  }

  lemma ZeroPart(file: seq<Byte>, h: ProgHeader, va: Word)
    requires va % 4096 == 0 && (h.filesz == 0 || h.va + h.filesz <= va)
    ensures forall a :: a / 4096 == va / 4096 ==> ImageByte(file, h, a) == 0
  {
    assert forall a :: a / 4096 == va / 4096 ==> va <= a < va + 4096;
  }

  // ----- One segment

  /** Every `alloc_page` of the page loop succeeds. */
  predicate PagesServed(s: Vm, p: nat, exe: Word, file: seq<Byte>, h: ProgHeader, va: Word, off: nat)
    requires p < NUM_IDS
    decreases 0x1_0000_0000 - va
  {
    va >= RoundUp(U32(h.va + h.memsz)) ||
    (AllocPage(s, p, va, SegPerm(h)).1 != MAGIC
     && PagesServed(LoadPage(s, p, exe, file, h, va, off), p, exe, file, h, va + 4096, off + 4096))
  }

  /** Only the pages from `lo` to `hi` of process `p` changed, and they hold their part of the image. */
  ghost predicate Loaded(s: Vm, s': Vm, p: nat, file: seq<Byte>, h: ProgHeader, lo: int, hi: int) {
    && (forall q, x :: !(q == p && lo <= x < hi) ==> SamePage(s, s', q, x))
    && (forall x :: lo <= x < hi ==> Holds(s', p, x, file, h))
  }

  /** Where the page loop is. */
  predicate InLoop(exe: Word, file: seq<Byte>, h: ProgHeader, va: Word, off: nat) {
    && SegmentOk(exe, file, h) && h.ptype == ELF_PROG_LOAD && va % 4096 == 0
    && FirstPageOf(h) <= va / 4096 <= EndPageOf(h) && off - va == h.offset - h.va
  }

  lemma LoopBounds(exe: Word, file: seq<Byte>, h: ProgHeader, va: Word, off: nat)
    requires InLoop(exe, file, h, va, off)
    ensures va / 4096 <= EndPageOf(h) && (va < RoundUp(U32(h.va + h.memsz)) <==> va / 4096 < EndPageOf(h))
    ensures va / 4096 < EndPageOf(h) ==>
              AtPage(exe, file, h, va, off) && va + 4096 < 0x1_0000_0000 && InLoop(exe, file, h, va + 4096, off + 4096)
  {
  }

  lemma SamePageHolds(s: Vm, s': Vm, p: nat, x: int, file: seq<Byte>, h: ProgHeader)
    requires Holds(s, p, x, file, h) && SamePage(s, s', p, x)
    ensures Holds(s', p, x, file, h)
  {
    hide ViewAt, ByteAt, PermAt, SegPerm;
    forall a | a / 4096 == x ensures UByte(s', p, a) == Some(ImageByte(file, h, a)) {
      assert UByte(s, p, a) == Some(ImageByte(file, h, a));
    }
  }

  lemma LoadedStep(s: Vm, s1: Vm, s2: Vm, p: nat, file: seq<Byte>, h: ProgHeader, lo: int, hi: int)
    requires lo < hi && OnlyHere(s, s1, p, lo) && Holds(s1, p, lo, file, h) && Loaded(s1, s2, p, file, h, lo + 1, hi)
    ensures Loaded(s, s2, p, file, h, lo, hi)
  {
    hide SamePage, Holds;
    SamePageHolds(s1, s2, p, lo, file, h);
    forall q, x | !(q == p && lo <= x < hi) ensures SamePage(s, s2, q, x) {
      SameTrans(s, s1, s2, q, x);
    }
  }

  lemma {:induction false} LoadPagesLoads(s: Vm, p: nat, exe: Word, file: seq<Byte>, h: ProgHeader, va: Word, off: nat)
    requires Inv(s) && 1 <= p < NUM_IDS && InLoop(exe, file, h, va, off) && PagesServed(s, p, exe, file, h, va, off)
    ensures var s' := LoadPages(s, p, exe, file, h, va, off);
            Inv(s') && Loaded(s, s', p, file, h, va / 4096, EndPageOf(h))
    decreases 0x1_0000_0000 - va
  {
    hide Inv, AllocPage, LoadPage, LoadPages, PagesServed, SamePage, Holds, Loaded, OnlyHere, InLoop, AtPage, RoundUp, EndPageOf;
    LoopBounds(exe, file, h, va, off);
    PagesUnfold(s, p, exe, file, h, va, off);
    if va / 4096 < EndPageOf(h) {
      var s1 := LoadPage(s, p, exe, file, h, va, off);
      LoadPageHolds(s, p, exe, file, h, va, off);
      LoadPagesLoads(s1, p, exe, file, h, va + 4096, off + 4096);
      LoadedStep(s, s1, LoadPages(s1, p, exe, file, h, va + 4096, off + 4096), p, file, h, va / 4096, EndPageOf(h));
    } else {
      NothingLoaded(s, p, file, h, va / 4096);
    }
  }

  lemma PagesUnfold(s: Vm, p: nat, exe: Word, file: seq<Byte>, h: ProgHeader, va: Word, off: nat)
    requires p < NUM_IDS && PagesServed(s, p, exe, file, h, va, off)
    ensures va >= RoundUp(U32(h.va + h.memsz)) ==> LoadPages(s, p, exe, file, h, va, off) == s
    ensures va < RoundUp(U32(h.va + h.memsz)) ==>
              var s1 := LoadPage(s, p, exe, file, h, va, off);
              AllocPage(s, p, va, SegPerm(h)).1 != MAGIC && PagesServed(s1, p, exe, file, h, va + 4096, off + 4096)
              && LoadPages(s, p, exe, file, h, va, off) == LoadPages(s1, p, exe, file, h, va + 4096, off + 4096)
  {
    hide AllocPage, LoadPage, RoundDown;
  }

  lemma NothingLoaded(s: Vm, p: nat, file: seq<Byte>, h: ProgHeader, x: int)
    ensures Loaded(s, s, p, file, h, x, x) && forall q, y :: SamePage(s, s, q, y)
  {
  }

  lemma LoopStarts(exe: Word, file: seq<Byte>, h: ProgHeader)
    requires SegmentOk(exe, file, h) && h.ptype == ELF_PROG_LOAD
    ensures InLoop(exe, file, h, RoundDown(h.va), RoundDown(h.offset)) && RoundDown(h.va) / 4096 == FirstPageOf(h)
  {
  }

  // ----- The whole program

  predicate LoadServed(s: Vm, p: nat, exe: Word, file: seq<Byte>, hs: seq<ProgHeader>)
    requires p < NUM_IDS
    decreases |hs|
  {
    hs == [] ||
    ((hs[0].ptype == ELF_PROG_LOAD ==> PagesServed(s, p, exe, file, hs[0], RoundDown(hs[0].va), RoundDown(hs[0].offset)))
     && LoadServed(LoadSegment(s, p, exe, file, hs[0]), p, exe, file, hs[1..]))
  }

  /** Some segment covers page `x`. */
  ghost predicate Covered(hs: seq<ProgHeader>, x: int) {
    exists k :: 0 <= k < |hs| && Covers(hs[k], x)
  }

  /** No page belongs to two segments. */
  ghost predicate PageDisjoint(hs: seq<ProgHeader>) {
    forall i, j, x :: 0 <= i < j < |hs| && Covers(hs[i], x) ==> !Covers(hs[j], x)
  }

  ghost predicate WellFormed(exe: Word, file: seq<Byte>, hs: seq<ProgHeader>) {
    PageDisjoint(hs) && forall k :: 0 <= k < |hs| && hs[k].ptype == ELF_PROG_LOAD ==> SegmentOk(exe, file, hs[k])
  }

  /** Every covered page holds its part of the image; nothing else changed. */
  ghost predicate Image(s: Vm, s': Vm, p: nat, file: seq<Byte>, hs: seq<ProgHeader>) {
    && (forall q, x :: !(q == p && Covered(hs, x)) ==> SamePage(s, s', q, x))
    && (forall k, x :: 0 <= k < |hs| && Covers(hs[k], x) ==> Holds(s', p, x, file, hs[k]))
  }

  lemma SegmentLoads(s: Vm, p: nat, exe: Word, file: seq<Byte>, h: ProgHeader)
    requires Inv(s) && 1 <= p < NUM_IDS
    requires h.ptype == ELF_PROG_LOAD ==>
               SegmentOk(exe, file, h) && PagesServed(s, p, exe, file, h, RoundDown(h.va), RoundDown(h.offset))
    ensures var s' := LoadSegment(s, p, exe, file, h);
            Inv(s') && (forall q, x :: !(q == p && Covers(h, x)) ==> SamePage(s, s', q, x))
            && (forall x :: Covers(h, x) ==> Holds(s', p, x, file, h))
  {
    hide Inv, SamePage, Holds, LoadPages, PagesServed, SegmentOk;
    if h.ptype == ELF_PROG_LOAD {
      LoopStarts(exe, file, h);
      hide RoundDown, InLoop;
      LoadPagesLoads(s, p, exe, file, h, RoundDown(h.va), RoundDown(h.offset));
    } else {
      NothingLoaded(s, p, file, h, 0);
    }
  }

  lemma TailWellFormed(exe: Word, file: seq<Byte>, hs: seq<ProgHeader>)
    requires WellFormed(exe, file, hs) && hs != []
    ensures WellFormed(exe, file, hs[1..])
    ensures forall x :: Covers(hs[0], x) ==> !Covered(hs[1..], x)
    ensures forall x :: Covered(hs, x) <==> Covers(hs[0], x) || Covered(hs[1..], x)
  {
    hide Covers, SegmentOk;
    var tl := hs[1..];
    forall i, j, x | 0 <= i < j < |tl| && Covers(tl[i], x) ensures !Covers(tl[j], x) {
      assert tl[i] == hs[i + 1] && tl[j] == hs[j + 1];
    }
    forall x ensures Covered(hs, x) <==> Covers(hs[0], x) || Covered(tl, x) {
      if Covered(hs, x) {
        var k :| 0 <= k < |hs| && Covers(hs[k], x);
        assert k > 0 ==> tl[k - 1] == hs[k];
      }
      if Covered(tl, x) {
        var k :| 0 <= k < |tl| && Covers(tl[k], x);
        assert hs[k + 1] == tl[k];
      }
    }
  }

  lemma ImageStep(s: Vm, s1: Vm, s2: Vm, p: nat, file: seq<Byte>, hs: seq<ProgHeader>)
    requires hs != [] && Image(s1, s2, p, file, hs[1..])
    requires forall x :: Covers(hs[0], x) ==> !Covered(hs[1..], x)
    requires forall x :: Covered(hs, x) <==> Covers(hs[0], x) || Covered(hs[1..], x)
    requires forall q, x :: !(q == p && Covers(hs[0], x)) ==> SamePage(s, s1, q, x)
    requires forall x :: Covers(hs[0], x) ==> Holds(s1, p, x, file, hs[0])
    ensures Image(s, s2, p, file, hs)
  {
    hide SamePage, Holds, Covers, Covered;
    forall q, x | !(q == p && Covered(hs, x)) ensures SamePage(s, s2, q, x) {
      SameTrans(s, s1, s2, q, x);
    }
    forall k, x | 0 <= k < |hs| && Covers(hs[k], x) ensures Holds(s2, p, x, file, hs[k]) {
      if k == 0 {
        SamePageHolds(s1, s2, p, x, file, hs[0]);
      } else {
        assert hs[1..][k - 1] == hs[k];
      }
    }
  }

  /** The process may read page `x`; whether it may write it. */
  predicate MayRead(s: Vm, p: int, x: int) {
    Present(EntAt(s, p, x)) && UserOk(EntAt(s, p, x))
  }

  predicate MayWrite(s: Vm, p: int, x: int) {
    MayRead(s, p, x) && Writable(EntAt(s, p, x))
  }

  lemma {:induction false} LoadImage(s: Vm, p: nat, exe: Word, file: seq<Byte>, hs: seq<ProgHeader>)
    requires Inv(s) && 1 <= p < NUM_IDS && WellFormed(exe, file, hs) && LoadServed(s, p, exe, file, hs)
    ensures var s' := Load(s, p, exe, file, hs);
            Inv(s') && Image(s, s', p, file, hs)
    decreases |hs|
  {
    if hs != [] {
      var s1 := LoadSegment(s, p, exe, file, hs[0]);
      TailWellFormed(exe, file, hs);
      hide Inv, SamePage, Holds, LoadSegment, PagesServed, SegmentOk, Covers, Covered, PageDisjoint, Image;
      SegmentLoads(s, p, exe, file, hs[0]);
      LoadImage(s1, p, exe, file, hs[1..]);
      ImageStep(s, s1, Load(s1, p, exe, file, hs[1..]), p, file, hs);
    }
  }

  /** Loading page-disjoint segments builds the image the program headers describe, and touches no
      other page of this process and no page of any other.  The process may read every page of it, and
      write exactly those whose segment has the write flag. */
  lemma LoadBuildsImage(s: Vm, p: nat, exe: Word, file: seq<Byte>, hs: seq<ProgHeader>)
    requires Inv(s) && 1 <= p < NUM_IDS && WellFormed(exe, file, hs) && LoadServed(s, p, exe, file, hs)
    ensures var s' := Load(s, p, exe, file, hs);
            Inv(s') && Image(s, s', p, file, hs)
            && (forall k, x :: 0 <= k < |hs| && Covers(hs[k], x) ==>
                  MayRead(s', p, x) && (MayWrite(s', p, x) <==> (hs[k].flags / 2) % 2 == 1))
  {
    hide Inv, WellFormed, LoadServed, Load, Image, Covers, MayRead, MayWrite;
    LoadImage(s, p, exe, file, hs);
    ImageAccess(s, Load(s, p, exe, file, hs), p, file, hs);
  }

  lemma ImageAccess(s: Vm, s': Vm, p: nat, file: seq<Byte>, hs: seq<ProgHeader>)
    requires Image(s, s', p, file, hs)
    ensures forall k, x :: 0 <= k < |hs| && Covers(hs[k], x) ==>
              MayRead(s', p, x) && (MayWrite(s', p, x) <==> (hs[k].flags / 2) % 2 == 1)
  {
    hide Covers, ImageBytes;
    forall k, x | 0 <= k < |hs| && Covers(hs[k], x)
      ensures MayRead(s', p, x) && (MayWrite(s', p, x) <==> (hs[k].flags / 2) % 2 == 1)
    {
      assert Holds(s', p, x, file, hs[k]);
      AccessOf(s', p, x, hs[k]);
    }
  }

  lemma AccessOf(s: Vm, p: nat, x: int, h: ProgHeader)
    requires PermAt(s, p, x) == Some(SegPerm(h))
    ensures MayRead(s, p, x) && (MayWrite(s, p, x) <==> (h.flags / 2) % 2 == 1)
  {
    hide EntAt, SegPerm;
    assert Perm(SegPerm(h)) == SegPerm(h);
  }

  /** So a store of the process to its image is let through exactly where its segment has the write flag. */
  lemma LoadedStores(s: Vm, p: nat, exe: Word, file: seq<Byte>, hs: seq<ProgHeader>, k: nat, va: Word)
    requires Inv(s) && 1 <= p < NUM_IDS && WellFormed(exe, file, hs) && LoadServed(s, p, exe, file, hs)
    requires k < |hs| && Covers(hs[k], va / 4096) && UserPage(va / 4096)
    ensures StoreAllowed(Load(s, p, exe, file, hs), p, va) <==> (hs[k].flags / 2) % 2 == 1
  {
    hide Inv, WellFormed, LoadServed, Load, Image, Covers, EntryByVa, EntAt;
    var s' := Load(s, p, exe, file, hs);
    LoadBuildsImage(s, p, exe, file, hs);
    assert MayRead(s', p, va / 4096) && (MayWrite(s', p, va / 4096) <==> (hs[k].flags / 2) % 2 == 1);
    EntryOfPage(s', p, va);
  }

  /** The same, address by address. */
  lemma LoadedBytes(s: Vm, p: nat, exe: Word, file: seq<Byte>, hs: seq<ProgHeader>, k: nat, a: int)
    requires Inv(s) && 1 <= p < NUM_IDS && WellFormed(exe, file, hs) && LoadServed(s, p, exe, file, hs)
    requires k < |hs| && hs[k].ptype == ELF_PROG_LOAD
    ensures var (s', h) := (Load(s, p, exe, file, hs), hs[k]);
            && (h.va <= a < h.va + h.filesz ==> UByte(s', p, a) == Some(file[h.offset + (a - h.va)]))
            && (h.va + h.filesz <= a < RoundUp(U32(h.va + h.memsz)) ==> UByte(s', p, a) == Some(0))
  {
    hide Inv, Load, LoadServed, UByte, Image;
    var h := hs[k];
    LoadBuildsImage(s, p, exe, file, hs);
    assert SegmentOk(exe, file, h);
    if h.va <= a < RoundUp(U32(h.va + h.memsz)) {
      assert Covers(h, a / 4096);
      ImageAt(s, Load(s, p, exe, file, hs), p, file, hs, k, a);
    }
  }

  lemma ImageAt(s: Vm, s': Vm, p: nat, file: seq<Byte>, hs: seq<ProgHeader>, k: nat, a: int)
    requires Image(s, s', p, file, hs) && k < |hs| && Covers(hs[k], a / 4096)
    ensures UByte(s', p, a) == Some(ImageByte(file, hs[k], a))
  {
    hide UByte, Covers, PermAt;
    assert Holds(s', p, a / 4096, file, hs[k]);
  }

  // ----- When the program is served

  /** The pages the loader maps, in order. */
  function ProgramPages(hs: seq<ProgHeader>): (pages: seq<int>)
    decreases |hs|
  {
    if hs == [] then []
    else (if hs[0].ptype == ELF_PROG_LOAD then PagesFrom(FirstPageOf(hs[0]), EndPageOf(hs[0])) else []) + ProgramPages(hs[1..])
  }

  /** The process can get what mapping the pages takes. */
  ghost predicate Funded(s: Vm, p: nat, pages: seq<int>) {
    p < NUM_IDS && Avail(s.pmm, p) >= Demand(TablesOf(s, p), pages)
  }

  lemma PageFunded(s: Vm, p: nat, exe: Word, file: seq<Byte>, h: ProgHeader, va: Word, off: nat, rest: seq<int>)
    requires Inv(s) && 1 <= p < NUM_IDS && AtPage(exe, file, h, va, off)
    ensures var s1 := LoadPage(s, p, exe, file, h, va, off);
            if AllocPage(s, p, va, SegPerm(h)).1 != MAGIC
            then Inv(s1) && (Funded(s, p, [va / 4096] + rest) <==> Funded(s1, p, rest))
            else !Funded(s, p, [va / 4096] + rest)
  {
    hide Inv, AllocPage, LoadPage, Holds, OnlyHere, Avail, AtPage, Demand, SegPerm;
    PageCases(exe, file, h, va, off);
    AllocCostAt(s, p, va, SegPerm(h));
    DemandStep(TablesOf(s, p), va / 4096, rest);
    if AllocPage(s, p, va, SegPerm(h)).1 != MAGIC {
      LoadPageHolds(s, p, exe, file, h, va, off);
      SameTables(AllocPage(s, p, va, SegPerm(h)).0, LoadPage(s, p, exe, file, h, va, off), p);
    }
  }

  lemma SameTables(s: Vm, s': Vm, p: int)
    requires s'.pdir == s.pdir
    ensures TablesOf(s', p) == TablesOf(s, p)
  {
  }

  lemma {:induction false} QuotaServesPages(s: Vm, p: nat, exe: Word, file: seq<Byte>, h: ProgHeader, va: Word, off: nat, rest: seq<int>)
    requires Inv(s) && 1 <= p < NUM_IDS && InLoop(exe, file, h, va, off)
    ensures Funded(s, p, PagesFrom(va / 4096, EndPageOf(h)) + rest) <==>
            PagesServed(s, p, exe, file, h, va, off) && Funded(LoadPages(s, p, exe, file, h, va, off), p, rest)
    ensures PagesServed(s, p, exe, file, h, va, off) ==>
              Inv(LoadPages(s, p, exe, file, h, va, off))
    decreases 0x1_0000_0000 - va
  {
    hide Inv, AllocPage, LoadPage, InLoop, AtPage, RoundUp, EndPageOf, Funded;
    LoopBounds(exe, file, h, va, off);
    var u := va / 4096;
    if u < EndPageOf(h) {
      var s1 := LoadPage(s, p, exe, file, h, va, off);
      var more := PagesFrom(u + 1, EndPageOf(h)) + rest;
      PageFunded(s, p, exe, file, h, va, off, more);
      assert PagesFrom(u, EndPageOf(h)) + rest == [u] + more;
      if AllocPage(s, p, va, SegPerm(h)).1 != MAGIC {
        QuotaServesPages(s1, p, exe, file, h, va + 4096, off + 4096, rest);
        assert (va + 4096) / 4096 == u + 1;
      }
    } else {
      assert PagesFrom(u, EndPageOf(h)) + rest == rest;
    }
  }

  /** The whole program can be loaded exactly when the process can get its pages and the page tables they
      lack. */
  lemma {:induction false} QuotaServesLoadIff(s: Vm, p: nat, exe: Word, file: seq<Byte>, hs: seq<ProgHeader>)
    requires Inv(s) && 1 <= p < NUM_IDS && WellFormed(exe, file, hs)
    ensures LoadServed(s, p, exe, file, hs) <==> Avail(s.pmm, p) >= Demand(TablesOf(s, p), ProgramPages(hs))
    decreases |hs|
  {
    hide Inv, Avail, Demand, TablesOf, PagesServed, LoadPages, SegmentOk, PageDisjoint, Covers;
    if hs == [] {
      NoDemand(TablesOf(s, p));
      InvAvail(s, p);
    } else {
      var h := hs[0];
      TailWellFormed(exe, file, hs);
      if h.ptype == ELF_PROG_LOAD {
        LoopStarts(exe, file, h);
        QuotaServesPages(s, p, exe, file, h, RoundDown(h.va), RoundDown(h.offset), ProgramPages(hs[1..]));
        if PagesServed(s, p, exe, file, h, RoundDown(h.va), RoundDown(h.offset)) {
          QuotaServesLoadIff(LoadSegment(s, p, exe, file, h), p, exe, file, hs[1..]);
        }
      } else {
        assert ProgramPages(hs) == ProgramPages(hs[1..]);
        QuotaServesLoadIff(s, p, exe, file, hs[1..]);
      }
    }
  }

  // ----- Served or not

  /** No page of process `p` is shared. */
  ghost predicate AllOwn(s: Vm, p: int) {
    forall x :: OwnPage(s, p, x)
  }

  /** Nothing changed but the memory of process `p`, none of which is shared. */
  ghost predicate OnlyOwn(s: Vm, s': Vm, p: int) {
    Inv(s') && AllOwn(s', p) && forall q, x :: q != p ==> ViewAt(s', q, x) == ViewAt(s, q, x)
  }

  lemma OnlyOwnTrans(s: Vm, s1: Vm, s2: Vm, p: int)
    requires OnlyOwn(s, s1, p) && OnlyOwn(s1, s2, p)
    ensures OnlyOwn(s, s2, p)
  {
    hide Inv, ViewAt, OwnPage;
  }

  lemma CopyKeepsOwn(s: Vm, p: nat, va: Word, buf: seq<Byte>)
    requires Inv(s) && 1 <= p < NUM_IDS && VM_USERLO <= va && va + |buf| <= VM_USERHI && AllOwn(s, p)
    ensures OnlyOwn(s, CopyLoop(s, p, va, buf), p)
  {
    hide Inv, CopyLoop, ViewAt, BytesCopied, OthersSee, EntsKept, OwnPage;
    CopyLoopIsByteCopy(s, p, va, buf);
    StaysOwn(s, CopyLoop(s, p, va, buf), p, va / 4096, EndPage(va, |buf|));
    OwnIsPrivate(s, p, va, |buf|);
    PrivateCopyIsPrivate(s, p, va, buf);
  }

  lemma OwnIsPrivate(s: Vm, p: nat, va: int, n: nat)
    requires AllOwn(s, p)
    ensures PrivateRange(s, p, va, n)
  {
  }

  lemma StaysOwn(s: Vm, s': Vm, p: int, lo: int, hi: int)
    requires EntsKept(s, s', p, lo, hi) && AllOwn(s, p)
    ensures AllOwn(s', p)
  {
    hide EntAt;
    forall x, q, y | Shares(s', p, x, q, y) ensures q == p && y == x {
      if lo <= x < hi && !MappedAt(s, p, x) {
        assert OwnPage(s', p, x);
      } else if q == p && lo <= y < hi && !MappedAt(s, p, y) {
        assert OwnPage(s', p, y) && Shares(s', p, y, p, x);
      } else {
        assert OwnPage(s, p, x) && Shares(s, p, x, q, y);
      }
    }
  }

  lemma AllocKeepsOwn(s: Vm, p: nat, va: Word, perm: nat)
    requires Inv(s) && 1 <= p < NUM_IDS && UserPage(va / 4096) && perm < 4096 && Present(perm) && !Super(perm) && AllOwn(s, p)
    ensures OnlyOwn(s, AllocPage(s, p, va, perm).0, p)
  {
    hide Inv, AllocPage, SameViews, SameViewsButCell, SameEntries, SameEntriesBut, Unshared, EntAt, ViewAt, OnlyPage, OwnPage;
    var u := va / 4096;
    var (s1, ret) := AllocPage(s, p, va, perm);
    ZeroFillAt(s, p, va, perm);
    if ret == MAGIC {
      SameIsOwn(s, s1, p);
    } else {
      CellToPage(s, s1, p, u);
      ElsewhereSame(s, s1, p, u);
      UnsharedIsOwn(s1, p, u);
      NewIsOwn(s, s1, p, u);
    }
  }

  lemma SameIsOwn(s: Vm, s1: Vm, p: int)
    requires SameEntries(s, s1) && SameViews(s, s1) && AllOwn(s, p)
    ensures AllOwn(s1, p) && forall q, x :: ViewAt(s1, q, x) == ViewAt(s, q, x)
  {
    forall q, x ensures EntAt(s1, q, x) == EntAt(s, q, x) && ViewAt(s1, q, x) == ViewAt(s, q, x) {
      SameEntriesAt(s, s1, q, x);
      if 1 <= q < NUM_IDS && UserPage(x) {
        CellsOfPage(x);
      }
    }
    hide EntAt, ViewAt, SameEntries, SameViews;
    forall x, q, y | Shares(s1, p, x, q, y) ensures q == p && y == x {
      assert OwnPage(s, p, x) && Shares(s, p, x, q, y);
    }
  }

  lemma NewIsOwn(s: Vm, s1: Vm, p: int, u: int)
    requires AllOwn(s, p) && OwnPage(s1, p, u) && OnlyPage(s, s1, p, u)
    requires forall q, x :: !(q == p && x == u) ==> EntAt(s1, q, x) == EntAt(s, q, x)
    ensures AllOwn(s1, p) && forall q, x :: q != p ==> ViewAt(s1, q, x) == ViewAt(s, q, x)
  {
    hide EntAt, ViewAt;
    forall x, q, y | Shares(s1, p, x, q, y) ensures q == p && y == x {
      if q == p && y == u {
        assert Shares(s1, p, u, p, x);
      } else if x != u {
        assert OwnPage(s, p, x) && Shares(s, p, x, q, y);
      }
    }
  }

  lemma LoadPageKeeps(s: Vm, p: nat, exe: Word, file: seq<Byte>, h: ProgHeader, va: Word, off: nat)
    requires Inv(s) && 1 <= p < NUM_IDS && AtPage(exe, file, h, va, off) && AllOwn(s, p)
    ensures OnlyOwn(s, LoadPage(s, p, exe, file, h, va, off), p)
  {
    hide Inv, AllocPage, AllOwn, ViewAt, SegPerm, LoadPage, AtPage, FillImage;
    var s1 := AllocPage(s, p, va, SegPerm(h)).0;
    PageCases(exe, file, h, va, off);
    LoadPageIs(s, p, exe, file, h, va, off);
    AllocKeepsOwn(s, p, va, SegPerm(h));
    FillKeepsOwn(s1, p, exe, file, h, va, off);
    OnlyOwnTrans(s, s1, LoadPage(s, p, exe, file, h, va, off), p);
  }

  lemma FillKeepsOwn(s: Vm, p: nat, exe: Word, file: seq<Byte>, h: ProgHeader, va: Word, off: nat)
    requires Inv(s) && 1 <= p < NUM_IDS && AtPage(exe, file, h, va, off) && AllOwn(s, p)
    ensures OnlyOwn(s, FillImage(s, p, file, h, va, off), p)
  {
    hide Inv, CopyLoop, AllOwn, ViewAt, FileBytes, AtPage;
    var zva := h.va + h.filesz;
    PageCases(exe, file, h, va, off);
    var s2 := Memset(s, p, va, 0, 4096);
    CopyKeepsOwn(s, p, va, seq<Byte>(4096, _ => 0));
    if !(zva <= va || h.filesz == 0) {
      if va + 4096 <= zva {
        CopyKeepsOwn(s, p, va, FileBytes(file, off, 4096));
      } else {
        CopyKeepsOwn(s2, p, va, FileBytes(file, off, zva - va));
        OnlyOwnTrans(s, s2, FillImage(s, p, file, h, va, off), p);
      }
    }
  }

  lemma {:induction false} LoadPagesKeep(s: Vm, p: nat, exe: Word, file: seq<Byte>, h: ProgHeader, va: Word, off: nat)
    requires Inv(s) && 1 <= p < NUM_IDS && InLoop(exe, file, h, va, off) && AllOwn(s, p)
    ensures OnlyOwn(s, LoadPages(s, p, exe, file, h, va, off), p)
    decreases 0x1_0000_0000 - va
  {
    hide Inv, LoadPage, AllOwn, ViewAt, InLoop, AtPage, RoundUp, EndPageOf;
    LoopBounds(exe, file, h, va, off);
    if va / 4096 < EndPageOf(h) {
      var s1 := LoadPage(s, p, exe, file, h, va, off);
      LoadPageKeeps(s, p, exe, file, h, va, off);
      LoadPagesKeep(s1, p, exe, file, h, va + 4096, off + 4096);
      OnlyOwnTrans(s, s1, LoadPages(s1, p, exe, file, h, va + 4096, off + 4096), p);
    }
  }

  /** Whether or not its pages can be had, and even if its segments overlap, loading a program into a
      process that shares no page keeps all invariants and changes no other process's memory. */
  lemma {:induction false} LoadKeeps(s: Vm, p: nat, exe: Word, file: seq<Byte>, hs: seq<ProgHeader>)
    requires Inv(s) && 1 <= p < NUM_IDS && AllOwn(s, p)
    requires forall k :: 0 <= k < |hs| && hs[k].ptype == ELF_PROG_LOAD ==> SegmentOk(exe, file, hs[k])
    ensures OnlyOwn(s, Load(s, p, exe, file, hs), p)
    decreases |hs|
  {
    hide Inv, AllOwn, ViewAt, LoadPages, SegmentOk, InLoop;
    if hs != [] {
      var h := hs[0];
      var s1 := LoadSegment(s, p, exe, file, h);
      if h.ptype == ELF_PROG_LOAD {
        LoopStarts(exe, file, h);
        LoadPagesKeep(s, p, exe, file, h, RoundDown(h.va), RoundDown(h.offset));
      }
      LoadKeeps(s1, p, exe, file, hs[1..]);
      OnlyOwnTrans(s, s1, Load(s1, p, exe, file, hs[1..]), p);
    }
  }

  /** In particular into a new process. */
  lemma CreateThenLoadKeeps(s: Vm, p: nat, quota: Word, exe: Word, file: seq<Byte>, hs: seq<ProgHeader>)
    requires Inv(s) && KctxNew(s.pmm, p, quota).1 != NUM_IDS
    requires forall k :: 0 <= k < |hs| && hs[k].ptype == ELF_PROG_LOAD ==> SegmentOk(exe, file, hs[k])
    ensures var (m, child) := KctxNew(s.pmm, p, quota);
            1 <= child < NUM_IDS
            && var s' := Load(s.(pmm := m), child, exe, file, hs);
               Inv(s') && forall q, x :: q != child ==> ViewAt(s', q, x) == ViewAt(s, q, x)
  {
    hide Inv, KctxNew, ViewAt, Load, SegmentOk;
    var (m, child) := KctxNew(s.pmm, p, quota);
    var s1 := s.(pmm := m);
    NewProcess(s, p, quota);
    EmptyIsOwn(s1, child);
    LoadKeeps(s1, child, exe, file, hs);
    forall q, x | q != child ensures ViewAt(Load(s1, child, exe, file, hs), q, x) == ViewAt(s, q, x) {
      SeenAlike(s, s1, q, x);
    }
  }

  lemma EmptyIsOwn(s: Vm, p: int)
    requires forall x :: ViewAt(s, p, x) == None
    ensures AllOwn(s, p)
  {
    forall x ensures !MappedAt(s, p, x) {
      ViewOfEntry(s, p, x);
    }
    hide ViewAt, EntAt;
  }

  // ----- A new process

  /** Creating a process with enough quota and loading a program into it: the new process sees the
      image and nothing else, and no other process sees a difference. */
  lemma CreateThenLoad(s: Vm, p: nat, quota: Word, exe: Word, file: seq<Byte>, hs: seq<ProgHeader>)
    requires Inv(s) && Lost(s.pmm) == 0 && WellFormed(exe, file, hs) && quota >= Demand({}, ProgramPages(hs))
    requires KctxNew(s.pmm, p, quota).1 != NUM_IDS
    ensures var (m, child) := KctxNew(s.pmm, p, quota);
            1 <= child < NUM_IDS
            && var s' := Load(s.(pmm := m), child, exe, file, hs);
               Inv(s') && Image(s, s', child, file, hs)
               && (forall q, x :: q != child ==> SamePage(s, s', q, x))
               && (forall x :: ViewAt(s', child, x).Some? <==> Covered(hs, x))
  {
    var (m, child) := KctxNew(s.pmm, p, quota);
    var s1 := s.(pmm := m);
    hide Inv, WellFormed, Load, LoadServed, KctxNew, ProgramPages, Demand, Lost, ViewAt, SamePage, Image, Covered, TablesOf;
    NewProcess(s, p, quota);
    InvAvail(s1, child);
    AvailIsSlack(m, child);
    QuotaServesLoadIff(s1, child, exe, file, hs);
    LoadBuildsImage(s1, child, exe, file, hs);
    OnlyTheImage(s, s1, Load(s1, child, exe, file, hs), child, file, hs);
  }

  lemma OnlyTheImage(s: Vm, s1: Vm, s': Vm, p: nat, file: seq<Byte>, hs: seq<ProgHeader>)
    requires Image(s1, s', p, file, hs) && (forall q, x :: SamePage(s, s1, q, x))
    requires forall x :: ViewAt(s1, p, x) == None
    ensures Image(s, s', p, file, hs)
    ensures forall q, x :: q != p ==> SamePage(s, s', q, x)
    ensures forall x :: ViewAt(s', p, x).Some? <==> Covered(hs, x)
  {
    hide ViewAt, PermAt, SamePage, Holds, Covered;
    forall q, x | !(q == p && Covered(hs, x)) ensures SamePage(s, s', q, x) {
      SameTrans(s, s1, s', q, x);
    }
    forall x ensures ViewAt(s', p, x).Some? <==> Covered(hs, x) {
      if Covered(hs, x) {
        CoveredIsMapped(s1, s', p, file, hs, x);
      } else {
        SeenAlike(s1, s', p, x);
      }
    }
  }

  lemma SeenAlike(s: Vm, s': Vm, q: int, x: int)
    requires SamePage(s, s', q, x)
    ensures ViewAt(s', q, x) == ViewAt(s, q, x)
  {
  }

  lemma CoveredIsMapped(s: Vm, s': Vm, p: nat, file: seq<Byte>, hs: seq<ProgHeader>, x: int)
    requires Image(s, s', p, file, hs) && Covered(hs, x)
    ensures ViewAt(s', p, x).Some?
  {
    hide ViewAt, Covers;
    var k :| 0 <= k < |hs| && Covers(hs[k], x);
    ImageAt(s, s', p, file, hs, k, x * 4096);
  }

  /** A process just created has an empty memory and all of its quota. */
  lemma NewProcess(s: Vm, p: nat, quota: Word)
    requires Inv(s) && KctxNew(s.pmm, p, quota).1 != NUM_IDS
    ensures var (m, child) := KctxNew(s.pmm, p, quota);
            var s1 := s.(pmm := m);
            1 <= child < NUM_IDS && Inv(s1) && Lost(m) == Lost(s.pmm) && m.at == s.pmm.at && Slack(m.cont[child]) == quota && TablesOf(s1, child) == {}
            && (forall q, x :: SamePage(s, s1, q, x)) && (forall x :: ViewAt(s1, child, x) == None)
  {
    hide Inv, KctxNew, ViewAt, PermAt, TablesOf, Lost;
    var (m, child) := KctxNew(s.pmm, p, quota);
    var s1 := s.(pmm := m);
    NewContainer(s, p, quota);
    SameStructuresPages(s, s1);
    NoPagesYet(s, s1, child);
  }

  lemma NewContainer(s: Vm, p: nat, quota: Word)
    requires Inv(s) && KctxNew(s.pmm, p, quota).1 != NUM_IDS
    ensures var (m, child) := KctxNew(s.pmm, p, quota);
            1 <= child < NUM_IDS && Inv(s.(pmm := m)) && Lost(m) == Lost(s.pmm) && m.at == s.pmm.at
            && Slack(m.cont[child]) == quota && !s.pmm.cont[child].used
  {
    KctxNewKeeps(s.pmm, p, quota);
    KctxNewForm(s.pmm, p, quota);
    hide TableInv, FrameInv, SameViews, KctxNew;
    SplitTables(s, KctxNew(s.pmm, p, quota).0);
  }

  lemma SameStructuresPages(s: Vm, s1: Vm)
    requires SameStructures(s, s1)
    ensures forall q, x :: SamePage(s, s1, q, x)
  {
    forall q, x ensures SamePage(s, s1, q, x) {
      ViewOfEntry(s, q, x);
      ViewOfEntry(s1, q, x);
      SameEnts(s, s1);
      SameEntriesAt(s, s1, q, x);
    }
  }

  lemma NoPagesYet(s: Vm, s1: Vm, child: int)
    requires Inv(s) && SameStructures(s, s1) && 1 <= child < NUM_IDS && !s.pmm.cont[child].used
    ensures TablesOf(s1, child) == {} && forall x :: ViewAt(s1, child, x) == None
  {
    forall i ensures !HasTable(s1, child, i) {
      assert !HasTable(s, child, i);
    }
    hide Inv;
    forall x ensures ViewAt(s1, child, x) == None {
      if UserPage(x) {
        CellsOfPage(x);
      }
    }
  }
}
