/** Fork with copy-on-write (layer MPTFork): `vmm_copy`, the common-page branch of
    `copy_on_write`, and what each does to the memory every process sees. */
module Fork {
  import opened Words
  import opened AllocTable
  import opened Containers
  import opened PageTables
  import opened Mapping

  // ----- What the code does

  /** One round of the inner loop of `vmm_copy`. */
  function CopyEntry(s: Vm, from: nat, to: nat, i: nat, j: nat): (r: Vm) {
    var e := GetPtbl(s, from, i, j);
    if !Present(e) then s
    else
      var perm := if Super(e) then COW_PERM + P_SUPER else COW_PERM;
      SetPtbl(SetPtbl(s, from, i, j, Frame(e), perm), to, i, j, Frame(e), perm)
  }

  function CopyTable(s: Vm, from: nat, to: nat, i: nat, j: nat): (r: Vm)
    requires j <= 1024
    decreases 1024 - j, s
  {
    if j == 1024 then s else CopyTable(CopyEntry(s, from, to, i, j), from, to, i, j + 1)
  }

  /** The outer loop of `vmm_copy` from directory index `i` on: the final state and the index at
      which it stopped, USERHI if it ran to the end. */
  function CopyDirs(s: Vm, from: nat, to: nat, i: nat): (res: (Vm, nat))
    requires from < NUM_IDS && to < NUM_IDS && i <= USERHI
    decreases USERHI - i, s
  {
    if i == USERHI then (s, USERHI)
    else if !Present(GetPdir(s, from, i)) then CopyDirs(s, from, to, i + 1)
    else
      var (s1, r) := AllocFrame(s, to);
      if r == 0 then (s1, i)
      else CopyDirs(CopyTable(SetPdir(s1, to, i, r), from, to, i, 0), from, to, i + 1)
  }

  function VmmCopy(s: Vm, from: nat, to: nat): (res: (Vm, nat))
    requires from < NUM_IDS && to < NUM_IDS
  {
    CopyDirs(s, from, to, USERLO)
  }

  /** `copy_on_write` for an entry without P_SUPER. */
  function CopyOnWrite(s: Vm, p: nat, va: Word): (r: Vm)
    requires p < NUM_IDS
  {
    var e := EntryByVa(s, p, va);
    var (s1, r) := AllocFrame(s, p);
    if r == 0 then s1
    else
      var s2 := SetWord(s1, p, DirOf(va), TblOf(va), 0);
      var s3 := SetPtbl(s2, p, DirOf(va), TblOf(va), r, PTU);
      SetFrame(s3, Frame(EntryByVa(s3, p, va)), s3.phys[Frame(e)])
  }

  // ----- What a process sees

  /** The contents of a page of a process, if it is mapped. */
  function View(s: Vm, p: int, i: int, j: int): (v: Option<Page>)
    requires Cell(p, i, j)
  {
    if Mapped(s, p, i, j) then Some(s.phys[FrameOf(s, p, i, j)]) else None
  }

  ghost predicate SameViews(s: Vm, s': Vm) {
    forall q, k, l :: Cell(q, k, l) ==> View(s', q, k, l) == View(s, q, k, l)
  }

  ghost predicate SameViewsBut(s: Vm, s': Vm, c: int) {
    forall q, k, l :: Cell(q, k, l) && q != c ==> View(s', q, k, l) == View(s, q, k, l)
  }

  ghost predicate SameViewsButCell(s: Vm, s': Vm, p: int, i: int, j: int) {
    forall q, k, l :: Cell(q, k, l) && !(q == p && k == i && l == j) ==> View(s', q, k, l) == View(s, q, k, l)
  }

  lemma StructuresViews(s: Vm, s': Vm)
    requires s'.phys == s.phys && SameEntries(s, s')
    ensures SameViews(s, s')
  {
  }

  /** Writing one entry changes at most the view of that page. */
  lemma WriteViews(s: Vm, p: nat, i: nat, j: nat, e: Word)
    requires TablesDistinct(s) && FramesNotTables(s) && Cell(p, i, j) && HasTable(s, p, i)
    ensures SameViewsButCell(s, SetWord(s, p, i, j, e), p, i, j)
  {
    var s' := SetWord(s, p, i, j, e);
    WriteEnts(s, p, i, j, e);
    forall q, k, l | Cell(q, k, l) && !(q == p && k == i && l == j) ensures View(s', q, k, l) == View(s, q, k, l) {
      assert Mapped(s, q, k, l) ==> FrameOf(s, q, k, l) != TableOf(s, p, i);
    }
  }

  lemma WriteViewHere(s: Vm, p: nat, i: nat, j: nat, e: Word)
    requires TablesDistinct(s) && Cell(p, i, j) && HasTable(s, p, i)
    requires Present(e) ==> Frame(e) != TableOf(s, p, i)
    ensures View(SetWord(s, p, i, j, e), p, i, j) == if Present(e) then Some(s.phys[Frame(e)]) else None
  {
    WriteEnts(s, p, i, j, e);
  }

  // ----- One entry of vmm_copy

  ghost predicate Before(k: int, l: int, i: int, j: int) {
    k < i || (k == i && l < j)
  }

  /** The child maps the frames of the parent, for the pages before (i, j). */
  ghost predicate Mirrors(s: Vm, from: int, to: int, i: int, j: int) {
    forall k, l :: Cell(to, k, l) && Cell(from, k, l) ==>
      (Mapped(s, to, k, l) <==> Mapped(s, from, k, l) && Before(k, l, i, j))
      && (Mapped(s, to, k, l) ==> FrameOf(s, to, k, l) == FrameOf(s, from, k, l))
  }

  ghost predicate Between(k: int, l: int, i: int, j: int, i': int, j': int) {
    !Before(k, l, i, j) && Before(k, l, i', j')
  }

  /** What the copy makes of a present entry, in parent and child: P, U and COW, and P_SUPER if it had it. */
  function SharedEntry(e: Word): (r: Word) {
    Entry(Frame(e), if Super(e) then 0xA05 else 0x805)
  }

  lemma SharedEntryBits(e: Word)
    ensures var r := SharedEntry(e);
            Present(r) && UserOk(r) && Cow(r) && !Writable(r) && Frame(r) == Frame(e) && (Super(r) <==> Super(e))
  {
    SharedBits();
    hide Entry, Present, UserOk, Cow, Writable;
    if Super(e) {
      EntryFields(Frame(e), 0xA05);
    } else {
      EntryFields(Frame(e), 0x805);
    }
  }

  lemma SharedBits()
    ensures Present(0x805) && UserOk(0x805) && Cow(0x805) && !Writable(0x805) && !Super(0x805)
    ensures Present(0xA05) && UserOk(0xA05) && Cow(0xA05) && !Writable(0xA05) && Super(0xA05)
  {
  }

  /** The entries after the copy of the pages from (i, j) to (i', j'): where the parent has a page,
      parent and child map its frame copy-on-write; every other entry is as before. */
  ghost predicate EntriesCopied(s: Vm, s': Vm, from: int, to: int, i: int, j: int, i': int, j': int) {
    forall q, k, l :: Cell(q, k, l) ==>
      Ent(s', q, k, l) ==
      if (q == from || q == to) && Between(k, l, i, j, i', j') && Mapped(s, from, k, l)
      then SharedEntry(Ent(s, from, k, l)) else Ent(s, q, k, l)
  }

  lemma EntriesCompose(s: Vm, s1: Vm, s2: Vm, from: int, to: int, i: int, j: int, m: int, n: int, i': int, j': int)
    requires EntriesCopied(s, s1, from, to, i, j, m, n) && EntriesCopied(s1, s2, from, to, m, n, i', j')
    requires !Before(m, n, i, j) && !Before(i', j', m, n) && 1 <= from < NUM_IDS
    ensures EntriesCopied(s, s2, from, to, i, j, i', j')
  {
    hide SharedEntry;
    forall q, k, l | Cell(q, k, l)
      ensures Ent(s2, q, k, l) ==
              if (q == from || q == to) && Between(k, l, i, j, i', j') && Mapped(s, from, k, l)
              then SharedEntry(Ent(s, from, k, l)) else Ent(s, q, k, l)
    {
      assert Cell(from, k, l);
      assert !Between(k, l, i, j, m, n) ==> Ent(s1, from, k, l) == Ent(s, from, k, l);
      assert Ent(s1, q, k, l) == if (q == from || q == to) && Between(k, l, i, j, m, n) && Mapped(s, from, k, l)
                                 then SharedEntry(Ent(s, from, k, l)) else Ent(s, q, k, l);
    }
  }

  lemma NoEntriesCopied(s: Vm, s': Vm, from: int, to: int, i: int, j: int)
    requires SameEntries(s, s')
    ensures EntriesCopied(s, s', from, to, i, j, i, j)
  {
    hide SharedEntry, Ent, Mapped;
  }

  ghost predicate Forking(s: Vm, from: int, to: int, i: int) {
    Slot(from, i) && Slot(to, i) && from != to && HasTable(s, from, i) && HasTable(s, to, i)
  }

  /** Making the parent's entry copy-on-write keeps its frame and its contents. */
  lemma ParentEntry(s: Vm, from: nat, i: nat, j: nat)
    requires TableInv(s) && FrameInv(s) && Cell(from, i, j) && Mapped(s, from, i, j)
    ensures var e := Entry(FrameOf(s, from, i, j), COW_PERM);
            var s1 := SetWord(s, from, i, j, e);
            TableInv(s1) && FrameInv(s1) && SameViews(s, s1)
            && Present(e) && Frame(e) == FrameOf(s, from, i, j) && !Writable(e) && !Super(e) && Cow(e)
  {
    var e := Entry(FrameOf(s, from, i, j), COW_PERM);
    EntryFields(FrameOf(s, from, i, j), COW_PERM);
    ReadOnlyIsLegal(s, from, i, j, e);
    hide Entry, LegalFrame, SameViewsButCell;
    ReadOnlyViews(s, from, i, j, e);
    WriteTables(s, from, i, j, e);
    WriteFrames(s, from, i, j, e);
  }

  lemma ReadOnlyIsLegal(s: Vm, p: nat, i: nat, j: nat, e: Word)
    requires FrameInv(s) && Mapped(s, p, i, j) && Frame(e) == FrameOf(s, p, i, j) && !Writable(e) && !Super(e)
    ensures LegalFrame(s, p, i, j, e)
  {
  }

  lemma ReadOnlyViews(s: Vm, p: nat, i: nat, j: nat, e: Word)
    requires TablesDistinct(s) && FramesNotTables(s) && Mapped(s, p, i, j) && Present(e) && Frame(e) == FrameOf(s, p, i, j)
    ensures SameViews(s, SetWord(s, p, i, j, e))
  {
    WriteViews(s, p, i, j, e);
    WriteViewHere(s, p, i, j, e);
  }

  lemma ChildEntry(s: Vm, from: nat, to: nat, i: nat, j: nat)
    requires TableInv(s) && FrameInv(s) && Forking(s, from, to, i) && 0 <= j < 1024 && Mirrors(s, from, to, i, j)
    requires Mapped(s, from, i, j) && !Writable(Ent(s, from, i, j)) && !Super(Ent(s, from, i, j))
    ensures var e := Entry(FrameOf(s, from, i, j), COW_PERM);
            var s1 := SetWord(s, to, i, j, e);
            TableInv(s1) && FrameInv(s1) && SameViewsBut(s, s1, to) && Mirrors(s1, from, to, i, j + 1)
  {
    var f := FrameOf(s, from, i, j);
    var e := Entry(f, COW_PERM);
    EntryFields(f, COW_PERM);
    SharedIsLegal(s, from, to, i, j, e);
    MirrorGrows(s, from, to, i, j, e);
    hide LegalFrame, Mirrors, SameViewsBut, Entry;
    WriteTables(s, to, i, j, e);
    WriteFrames(s, to, i, j, e);
    WriteSeenByOne(s, to, i, j, e);
  }

  lemma WriteSeenByOne(s: Vm, p: nat, i: nat, j: nat, e: Word)
    requires TablesDistinct(s) && FramesNotTables(s) && Cell(p, i, j) && HasTable(s, p, i)
    ensures SameViewsBut(s, SetWord(s, p, i, j, e), p)
  {
    WriteViews(s, p, i, j, e);
  }

  /** The child may map the frame of a page of the parent that nobody can write. */
  lemma SharedIsLegal(s: Vm, from: nat, to: nat, i: nat, j: nat, e: Word)
    requires FrameInv(s) && Forking(s, from, to, i) && Cell(from, i, j) && Mirrors(s, from, to, i, j) && Mapped(s, from, i, j)
    requires !Writable(Ent(s, from, i, j)) && Frame(e) == FrameOf(s, from, i, j) && !Writable(e) && !Super(e)
    ensures LegalFrame(s, to, i, j, e)
  {
    forall k, l | Mapped(s, to, k, l) ensures FrameOf(s, to, k, l) != Frame(e) {
      assert Mapped(s, from, k, l) && Before(k, l, i, j);
    }
  }

  lemma MirrorGrows(s: Vm, from: nat, to: nat, i: nat, j: nat, e: Word)
    requires TablesDistinct(s) && Forking(s, from, to, i) && Cell(from, i, j) && Mirrors(s, from, to, i, j)
    requires Mapped(s, from, i, j) && Present(e) && Frame(e) == FrameOf(s, from, i, j)
    ensures Mirrors(SetWord(s, to, i, j, e), from, to, i, j + 1)
  {
    WriteEnts(s, to, i, j, e);
  }

  // ----- One page table

  /** What copying entries leaves alone. */
  ghost predicate SameRest(s: Vm, s': Vm) {
    s'.pmm == s.pmm && s'.pdir == s.pdir && s'.idBase == s.idBase
  }

  lemma CopyEntryKeeps(s: Vm, from: nat, to: nat, i: nat, j: nat)
    requires TableInv(s) && FrameInv(s) && Forking(s, from, to, i) && 0 <= j < 1024 && Mirrors(s, from, to, i, j)
    ensures var s' := CopyEntry(s, from, to, i, j);
            TableInv(s') && FrameInv(s') && SameRest(s, s') && SameViewsBut(s, s', to) && Mirrors(s', from, to, i, j + 1)
            && EntriesCopied(s, s', from, to, i, j, i, j + 1)
  {
    if Mapped(s, from, i, j) {
      var e := Entry(FrameOf(s, from, i, j), COW_PERM);
      var s1 := SetWord(s, from, i, j, e);
      ParentEntry(s, from, i, j);
      WriteEnts(s, from, i, j, e);
      assert Mirrors(s1, from, to, i, j);
      ChildEntry(s1, from, to, i, j);
      assert CopyEntry(s, from, to, i, j) == SetWord(s1, to, i, j, e);
    }
    CopyEntryEnts(s, from, to, i, j);
  }

  /** Copying one entry, super pages included, and whatever the frames. */
  lemma CopyEntryEnts(s: Vm, from: nat, to: nat, i: nat, j: nat)
    requires TableInv(s) && Forking(s, from, to, i) && 0 <= j < 1024
    ensures var s' := CopyEntry(s, from, to, i, j);
            TableInv(s') && SameRest(s, s') && Forking(s', from, to, i) && EntriesCopied(s, s', from, to, i, j, i, j + 1)
  {
    if Mapped(s, from, i, j) {
      var e := SharedEntry(Ent(s, from, i, j));
      CopyEntryIs(s, from, to, i, j);
      hide SharedEntry, CopyEntry;
      var s1 := SetWord(s, from, i, j, e);
      WriteTables(s, from, i, j, e);
      WriteEnts(s, from, i, j, e);
      WriteTables(s1, to, i, j, e);
      WriteEnts(s1, to, i, j, e);
    }
  }

  lemma CopyEntryIs(s: Vm, from: nat, to: nat, i: nat, j: nat)
    requires Forking(s, from, to, i) && 0 <= j < 1024 && Mapped(s, from, i, j)
    ensures var e := SharedEntry(Ent(s, from, i, j));
            CopyEntry(s, from, to, i, j) == SetWord(SetWord(s, from, i, j, e), to, i, j, e)
  {
  }

  lemma {:induction false} CopyTableEnts(s: Vm, from: nat, to: nat, i: nat, j: nat)
    requires TableInv(s) && Forking(s, from, to, i) && j <= 1024
    ensures var s' := CopyTable(s, from, to, i, j);
            TableInv(s') && SameRest(s, s') && EntriesCopied(s, s', from, to, i, j, i + 1, 0)
    decreases 1024 - j
  {
    hide TableInv, CopyEntry, EntriesCopied;
    if j < 1024 {
      var s1 := CopyEntry(s, from, to, i, j);
      CopyEntryEnts(s, from, to, i, j);
      CopyTableEnts(s1, from, to, i, j + 1);
      EntriesCompose(s, s1, CopyTable(s1, from, to, i, j + 1), from, to, i, j, i, j + 1, i + 1, 0);
    } else {
      EndOfTable(s, from, to, i);
    }
  }

  lemma ViewsButTrans(s: Vm, s1: Vm, s2: Vm, c: int)
    requires SameViewsBut(s, s1, c) && SameViewsBut(s1, s2, c)
    ensures SameViewsBut(s, s2, c)
  {
  }

  lemma {:induction false} CopyTableKeeps(s: Vm, from: nat, to: nat, i: nat, j: nat)
    requires TableInv(s) && FrameInv(s) && Forking(s, from, to, i) && j <= 1024 && Mirrors(s, from, to, i, j)
    ensures var s' := CopyTable(s, from, to, i, j);
            TableInv(s') && FrameInv(s') && SameRest(s, s') && SameViewsBut(s, s', to) && Mirrors(s', from, to, i, 1024)
            && EntriesCopied(s, s', from, to, i, j, i + 1, 0)
    decreases 1024 - j
  {
    hide TableInv, FrameInv, Mirrors, SameViewsBut, CopyEntry, EntriesCopied;
    if j < 1024 {
      var s1 := CopyEntry(s, from, to, i, j);
      CopyEntryKeeps(s, from, to, i, j);
      CopyTableKeeps(s1, from, to, i, j + 1);
      ViewsButTrans(s, s1, CopyTable(s1, from, to, i, j + 1), to);
      EntriesCompose(s, s1, CopyTable(s1, from, to, i, j + 1), from, to, i, j, i, j + 1, i + 1, 0);
    } else {
      NoChange(s, to);
      EndOfTable(s, from, to, i);
    }
  }

  lemma EndOfTable(s: Vm, from: int, to: int, i: int)
    ensures EntriesCopied(s, s, from, to, i, 1024, i + 1, 0)
  {
    hide SharedEntry, Ent, Mapped;
  }

  /** Skipping a directory in which the parent has no page table. */
  lemma NothingThere(s: Vm, from: int, to: int, i: int)
    requires !HasTable(s, from, i)
    ensures EntriesCopied(s, s, from, to, i, 0, i + 1, 0)
  {
    hide SharedEntry;
    forall q, k, l | Cell(q, k, l) ensures !(Between(k, l, i, 0, i + 1, 0) && Mapped(s, from, k, l)) {
      assert Between(k, l, i, 0, i + 1, 0) ==> k == i;
    }
    hide Ent, Between, Mapped;
  }

  lemma NoChange(s: Vm, c: int)
    ensures SameViewsBut(s, s, c)
  {
  }

  // ----- The whole copy

  ghost predicate NoTablesFrom(s: Vm, p: int, i: int) {
    forall k :: i <= k < USERHI ==> !HasTable(s, p, k)
  }

  ghost predicate AtDir(s: Vm, from: int, to: int, i: int) {
    && TableInv(s) && FrameInv(s)
    && 1 <= from < NUM_IDS && 1 <= to < NUM_IDS && from != to
    && Mirrors(s, from, to, i, 0) && NoTablesFrom(s, to, i)
  }

  lemma MirrorsNextDir(s: Vm, from: nat, to: nat, i: int)
    requires Mirrors(s, from, to, i, 1024)
    ensures Mirrors(s, from, to, i + 1, 0)
  {
  }

  lemma MirrorsSkip(s: Vm, from: nat, to: nat, i: int)
    requires Mirrors(s, from, to, i, 0) && !HasTable(s, from, i)
    ensures Mirrors(s, from, to, i + 1, 0)
  {
  }

  lemma MirrorsSame(s: Vm, s': Vm, from: nat, to: nat, i: int, j: int)
    requires Mirrors(s, from, to, i, j) && SameEntries(s, s')
    ensures Mirrors(s', from, to, i, j)
  {
  }

  /** One round of the outer loop for a page table the parent has. */
  lemma CopyDirKeeps(s: Vm, from: nat, to: nat, i: nat)
    requires AtDir(s, from, to, i) && USERLO <= i < USERHI && HasTable(s, from, i)
    ensures var (s1, r) := AllocFrame(s, to);
            TableInv(s1) && FrameInv(s1) && SameViewsBut(s, s1, to) && Mirrors(s1, from, to, i, 0)
            && (r != 0 ==>
                  var s2 := CopyTable(SetPdir(s1, to, i, r), from, to, i, 0);
                  AtDir(s2, from, to, i + 1) && SameViewsBut(s, s2, to) && s2.pmm == s1.pmm && s2.pdir[from] == s.pdir[from]
                  && EntriesCopied(s, s2, from, to, i, 0, i + 1, 0))
            && SameEntries(s, s1)
  {
    var (s1, r) := AllocFrame(s, to);
    AllocFrameTables(s, to);
    AllocFrameFrames(s, to);
    SameEnts(s, s1);
    StructuresViews(s, s1);
    MirrorsSame(s, s1, from, to, i, 0);
    if r != 0 {
      var s2 := SetPdir(s1, to, i, r);
      InstallTables(s1, to, i, r);
      InstallFrames(s1, to, i, r);
      InstallEnts(s1, to, i, r);
      StructuresViews(s1, s2);
      MirrorsSame(s1, s2, from, to, i, 0);
      CopyTableKeeps(s2, from, to, i, 0);
      var s3 := CopyTable(s2, from, to, i, 0);
      MirrorsNextDir(s3, from, to, i);
      SameThenCopied(s, s1, s2, s3, from, to, i);
      forall k | i + 1 <= k < USERHI ensures !HasTable(s3, to, k) {
        assert !HasTable(s, to, k);
      }
    }
  }

  lemma SameThenCopied(s: Vm, s1: Vm, s2: Vm, s3: Vm, from: int, to: int, i: int)
    requires SameEntries(s, s1) && SameEntries(s1, s2) && EntriesCopied(s2, s3, from, to, i, 0, i + 1, 0)
    requires 1 <= from < NUM_IDS
    ensures EntriesCopied(s, s3, from, to, i, 0, i + 1, 0)
  {
    hide Entry;
    forall q, k, l | Cell(q, k, l) ensures Cell(from, k, l) && Ent(s2, q, k, l) == Ent(s, q, k, l) {
    }
  }

  /** The copy, complete or stopped midway: every invariant holds, no process but the child sees a
      change, and the child mirrors the parent up to where the copy stopped. */
  lemma {:induction false} CopyDirsKeeps(s: Vm, from: nat, to: nat, i: nat)
    requires AtDir(s, from, to, i) && USERLO <= i <= USERHI
    ensures var (s', lim) := CopyDirs(s, from, to, i);
            i <= lim <= USERHI && TableInv(s') && FrameInv(s') && SameViewsBut(s, s', to) && Mirrors(s', from, to, lim, 0)
            && EntriesCopied(s, s', from, to, i, 0, lim, 0)
    decreases USERHI - i
  {
    hide TableInv, FrameInv, Mirrors, SameViewsBut, CopyTable, EntriesCopied, SameEntries;
    if i == USERHI {
      NoChange(s, to);
      SameEnts(s, s);
      NoEntriesCopied(s, s, from, to, i, 0);
    } else if !HasTable(s, from, i) {
      MirrorsSkip(s, from, to, i);
      CopyDirsKeeps(s, from, to, i + 1);
      NothingThere(s, from, to, i);
      var (s2, lim) := CopyDirs(s, from, to, i + 1);
      EntriesCompose(s, s, s2, from, to, i, 0, i + 1, 0, lim, 0);
    } else {
      var (s1, r) := AllocFrame(s, to);
      CopyDirKeeps(s, from, to, i);
      if r != 0 {
        var s2 := CopyTable(SetPdir(s1, to, i, r), from, to, i, 0);
        CopyDirsKeeps(s2, from, to, i + 1);
        var (s3, lim) := CopyDirs(s2, from, to, i + 1);
        ViewsButTrans(s, s2, s3, to);
        EntriesCompose(s, s2, s3, from, to, i, 0, i + 1, 0, lim, 0);
      } else {
        NoEntriesCopied(s, s1, from, to, i, 0);
      }
    }
  }

  /** `vmm_copy` into a process without page tables, complete or stopped at index `lim`: the child
      sees exactly what the parent saw below `lim`, and nobody else sees a difference.  Below `lim`
      parent and child map the parent's frames copy-on-write; no other entry changed. */
  lemma VmmCopyIsEagerCopy(s: Vm, from: nat, to: nat)
    requires TableInv(s) && FrameInv(s) && 1 <= from < NUM_IDS && 1 <= to < NUM_IDS && from != to
    requires NoTablesFrom(s, to, USERLO)
    ensures var (s', lim) := VmmCopy(s, from, to);
            USERLO <= lim <= USERHI && TableInv(s') && FrameInv(s') && SameViewsBut(s, s', to)
            && EntriesCopied(s, s', from, to, USERLO, 0, lim, 0)
            && forall k, l :: Cell(to, k, l) ==> View(s', to, k, l) == if k < lim then View(s, from, k, l) else None
  {
    var (s', lim) := VmmCopy(s, from, to);
    assert Mirrors(s, from, to, USERLO, 0);
    CopyDirsKeeps(s, from, to, USERLO);
    forall k, l | Cell(to, k, l) ensures View(s', to, k, l) == if k < lim then View(s, from, k, l) else None {
      assert Cell(from, k, l);
      assert View(s', from, k, l) == View(s, from, k, l);
    }
  }

  // ----- The copy whatever the frames, super pages included

  /** One round of the outer loop for a page table the parent has. */
  lemma CopyDirEnts(s: Vm, from: nat, to: nat, i: nat)
    requires TableInv(s) && Slot(from, i) && Slot(to, i) && from != to && HasTable(s, from, i) && NoTablesFrom(s, to, i)
    ensures var (s1, r) := AllocFrame(s, to);
            TableInv(s1) && SameEntries(s, s1)
            && (r != 0 ==> var s2 := CopyTable(SetPdir(s1, to, i, r), from, to, i, 0);
                           TableInv(s2) && NoTablesFrom(s2, to, i + 1) && EntriesCopied(s, s2, from, to, i, 0, i + 1, 0))
  {
    var (s1, r) := AllocFrame(s, to);
    AllocFrameTables(s, to);
    SameEnts(s, s1);
    if r != 0 {
      var s2 := SetPdir(s1, to, i, r);
      InstallTables(s1, to, i, r);
      InstallEnts(s1, to, i, r);
      CopyTableEnts(s2, from, to, i, 0);
      var s3 := CopyTable(s2, from, to, i, 0);
      SameThenCopied(s, s1, s2, s3, from, to, i);
      forall k | i + 1 <= k < USERHI ensures !HasTable(s3, to, k) {
        assert !HasTable(s, to, k);
      }
    }
  }

  lemma {:induction false} CopyDirsEnts(s: Vm, from: nat, to: nat, i: nat)
    requires TableInv(s) && 1 <= from < NUM_IDS && 1 <= to < NUM_IDS && from != to && NoTablesFrom(s, to, i)
    requires USERLO <= i <= USERHI
    ensures var (s', lim) := CopyDirs(s, from, to, i);
            i <= lim <= USERHI && TableInv(s') && EntriesCopied(s, s', from, to, i, 0, lim, 0)
    decreases USERHI - i
  {
    hide TableInv, CopyTable, EntriesCopied, SameEntries;
    if i == USERHI {
      SameEnts(s, s);
      NoEntriesCopied(s, s, from, to, i, 0);
    } else if !HasTable(s, from, i) {
      CopyDirsEnts(s, from, to, i + 1);
      NothingThere(s, from, to, i);
      var (s2, lim) := CopyDirs(s, from, to, i + 1);
      EntriesCompose(s, s, s2, from, to, i, 0, i + 1, 0, lim, 0);
    } else {
      var (s1, r) := AllocFrame(s, to);
      CopyDirEnts(s, from, to, i);
      if r != 0 {
        var s2 := CopyTable(SetPdir(s1, to, i, r), from, to, i, 0);
        CopyDirsEnts(s2, from, to, i + 1);
        var (s3, lim) := CopyDirs(s2, from, to, i + 1);
        EntriesCompose(s, s2, s3, from, to, i, 0, i + 1, 0, lim, 0);
      } else {
        NoEntriesCopied(s, s1, from, to, i, 0);
      }
    }
  }

  /** Present, user, copy-on-write, not writable, on the same frame and super as before. */
  predicate Protected(e: Word, e': Word) {
    Present(e') && UserOk(e') && Cow(e') && !Writable(e') && Frame(e') == Frame(e) && (Super(e') <==> Super(e))
  }

  /** Whatever the parent has mapped, super pages included: below the point reached the copy leaves every
      page of the parent protected in parent and child, and no other entry of anybody changes. */
  lemma VmmCopyProtects(s: Vm, from: nat, to: nat)
    requires TableInv(s) && 1 <= from < NUM_IDS && 1 <= to < NUM_IDS && from != to && NoTablesFrom(s, to, USERLO)
    ensures var (s', lim) := VmmCopy(s, from, to);
            TableInv(s') && USERLO <= lim <= USERHI
            && (forall k, l :: Mapped(s, from, k, l) && k < lim ==>
                  Protected(Ent(s, from, k, l), Ent(s', from, k, l)) && Protected(Ent(s, from, k, l), Ent(s', to, k, l)))
            && (forall q, k, l :: Cell(q, k, l) && !((q == from || q == to) && k < lim && Mapped(s, from, k, l)) ==>
                  Ent(s', q, k, l) == Ent(s, q, k, l))
  {
    var (s', lim) := VmmCopy(s, from, to);
    CopyDirsEnts(s, from, to, USERLO);
    hide TableInv, SharedEntry, CopyDirs, Ent, FrameOf;
    forall k, l | Mapped(s, from, k, l) && k < lim
      ensures Protected(Ent(s, from, k, l), Ent(s', from, k, l)) && Protected(Ent(s, from, k, l), Ent(s', to, k, l))
    {
      SharedEntryBits(Ent(s, from, k, l));
      assert Cell(from, k, l) && Cell(to, k, l) && Between(k, l, USERLO, 0, lim, 0);
    }
  }

  // ----- When the copy completes

  /** The number of page tables of `p` from directory index `i` on. */
  function TableCount(s: Vm, p: int, i: int): (n: nat)
    requires 1 <= p < NUM_IDS && USERLO <= i <= USERHI
    decreases USERHI - i, s
  {
    if i == USERHI then 0 else TableCount(s, p, i + 1) + if HasTable(s, p, i) then 1 else 0
  }

  lemma {:induction false} TableCountSame(s: Vm, s': Vm, p: int, i: int)
    requires 1 <= p < NUM_IDS && USERLO <= i <= USERHI && s'.pdir[p] == s.pdir[p]
    ensures TableCount(s', p, i) == TableCount(s, p, i)
    decreases USERHI - i
  {
    if i < USERHI {
      TableCountSame(s, s', p, i + 1);
    }
  }

  /** While nothing was lost, the copy completes exactly when the child may ask for as many pages as
      the parent has page tables; a copy that stops has then lost a page. */
  lemma {:induction false} CopyDirsCompletes(s: Vm, from: nat, to: nat, i: nat)
    requires AtDir(s, from, to, i) && USERLO <= i <= USERHI && PmmInv(s.pmm) && Lost(s.pmm) == 0
    ensures var (s', lim) := CopyDirs(s, from, to, i);
            lim == USERHI <==> TableCount(s, from, i) <= Slack(s.pmm.cont[to])
    decreases USERHI - i
  {
    hide TableInv, FrameInv, Mirrors, SameViewsBut, CopyTable, PmmInv, Lost;
    if i == USERHI {
      SlackIsNotNegative(s.pmm, to);
    } else if !HasTable(s, from, i) {
      MirrorsSkip(s, from, to, i);
      CopyDirsCompletes(s, from, to, i + 1);
    } else {
      var (s1, r) := AllocFrame(s, to);
      CopyDirKeeps(s, from, to, i);
      UnderQuotaIsServed(s.pmm, to);
      AllocKeeps(s.pmm, to);
      if r != 0 {
        var s2 := CopyTable(SetPdir(s1, to, i, r), from, to, i, 0);
        TableCountSame(s, s2, from, i + 1);
        CopyDirsCompletes(s2, from, to, i + 1);
      }
    }
  }

  lemma SlackIsNotNegative(m: Pmm, id: nat)
    requires PmmInv(m) && id < NUM_IDS
    ensures Slack(m.cont[id]) >= 0
  {
  }

  lemma {:induction false} CopyDirsPmm(s: Vm, from: nat, to: nat, i: nat)
    requires PmmInv(s.pmm) && from < NUM_IDS && to < NUM_IDS && i <= USERHI
    ensures PmmInv(CopyDirs(s, from, to, i).0.pmm)
    decreases USERHI - i
  {
    hide PmmInv, CopyTable, AllocFrame;
    if i < USERHI {
      if !Present(GetPdir(s, from, i)) {
        CopyDirsPmm(s, from, to, i + 1);
      } else {
        var (s1, r) := AllocFrame(s, to);
        AllocFramePmm(s, to);
        if r != 0 {
          CopyTablePmm(SetPdir(s1, to, i, r), from, to, i, 0);
          CopyDirsPmm(CopyTable(SetPdir(s1, to, i, r), from, to, i, 0), from, to, i + 1);
        }
      }
    }
  }

  lemma AllocFramePmm(s: Vm, id: nat)
    requires PmmInv(s.pmm) && id < NUM_IDS
    ensures PmmInv(AllocFrame(s, id).0.pmm)
  {
    AllocKeeps(s.pmm, id);
  }

  lemma {:induction false} CopyTablePmm(s: Vm, from: nat, to: nat, i: nat, j: nat)
    requires j <= 1024
    ensures CopyTable(s, from, to, i, j).pmm == s.pmm
    decreases 1024 - j
  {
    if j < 1024 {
      CopyTablePmm(CopyEntry(s, from, to, i, j), from, to, i, j + 1);
    }
  }

  // ----- Copy on write

  /** A common copy-on-write fault: the page keeps its contents for everybody; if a page could be
      had it is now private and writable. */
  lemma CopyOnWriteIsInvisible(s: Vm, p: nat, va: Word)
    requires Inv(s) && 1 <= p < NUM_IDS && Cell(p, DirOf(va), TblOf(va)) && Mapped(s, p, DirOf(va), TblOf(va))
    ensures var s' := CopyOnWrite(s, p, va);
            Inv(s') && SameViews(s, s')
            && (AllocFrame(s, p).1 != 0 ==> Perm(Ent(s', p, DirOf(va), TblOf(va))) == 7)
  {
    var i, j := DirOf(va), TblOf(va);
    var f := FrameOf(s, p, i, j);
    var (s1, r) := AllocFrame(s, p);
    AllocFramePmm(s, p);
    AllocFrameTables(s, p);
    AllocFrameFrames(s, p);
    SameEnts(s, s1);
    StructuresViews(s, s1);
    if r != 0 {
      CowRemap(s1, p, i, j, r);
      assert EntryByVa(s, p, va) == Ent(s, p, i, j);
      assert CopyOnWrite(s, p, va) == Remapped(s1, p, i, j, r);
    }
  }

  /** The page structures after the entry (p, i, j) was moved to frame `r` and its contents copied. */
  function Remapped(s: Vm, p: nat, i: nat, j: nat, r: nat): (s': Vm)
    requires Cell(p, i, j) && r < TABLE_SIZE
  {
    var s2 := SetWord(s, p, i, j, 0);
    var s3 := SetWord(s2, p, i, j, Entry(r, PTU));
    SetFrame(s3, r, s3.phys[FrameOf(s, p, i, j)])
  }

  lemma MoveEntry(s: Vm, p: nat, i: nat, j: nat, r: nat)
    requires TableInv(s) && FrameInv(s) && Mapped(s, p, i, j) && r < TABLE_SIZE && Spare(s, r)
    ensures var s3 := SetWord(SetWord(s, p, i, j, 0), p, i, j, Entry(r, PTU));
            TableInv(s3) && FrameInv(s3) && SameViewsButCell(s, s3, p, i, j) && SameRest(s, s3)
            && Ent(s3, p, i, j) == Entry(r, PTU) && s3.phys[FrameOf(s, p, i, j)] == s.phys[FrameOf(s, p, i, j)]
  {
    var e := Entry(r, PTU);
    EntryFields(r, PTU);
    var s2 := SetWord(s, p, i, j, 0);
    WriteEnts(s, p, i, j, 0);
    WriteTables(s, p, i, j, 0);
    WriteFrames(s, p, i, j, 0);
    WriteViews(s, p, i, j, 0);
    WriteEnts(s2, p, i, j, e);
    WriteTables(s2, p, i, j, e);
    WriteFrames(s2, p, i, j, e);
    WriteViews(s2, p, i, j, e);
  }

  lemma CowRemap(s: Vm, p: nat, i: nat, j: nat, r: nat)
    requires TableInv(s) && FrameInv(s) && Mapped(s, p, i, j) && r < TABLE_SIZE && Spare(s, r)
    ensures var s' := Remapped(s, p, i, j, r);
            TableInv(s') && FrameInv(s') && SameViews(s, s') && Perm(Ent(s', p, i, j)) == PTU && s'.pmm == s.pmm
            && EntryAt(SetWord(SetWord(s, p, i, j, 0), p, i, j, Entry(r, PTU)), p, i, j) == Entry(r, PTU)
  {
    EntryFields(r, PTU);
    var s3 := SetWord(SetWord(s, p, i, j, 0), p, i, j, Entry(r, PTU));
    MoveEntry(s, p, i, j, r);
    var pg := s3.phys[FrameOf(s, p, i, j)];
    FrameWriteKeeps(s3, r, pg);
    FrameEnts(s3, r, pg);
    OthersKeepView(s3, p, i, j, r, pg);
  }

  /** Changing the contents of a frame mapped writable shows in one page of one process only. */
  lemma OthersKeepView(s: Vm, p: nat, i: nat, j: nat, f: nat, pg: Page)
    requires FrameInv(s) && Mapped(s, p, i, j) && Writable(Ent(s, p, i, j)) && FrameOf(s, p, i, j) == f
    ensures var s' := SetFrame(s, f, pg);
            SameViewsButCell(s, s', p, i, j) && View(s', p, i, j) == Some(pg)
  {
    var s' := SetFrame(s, f, pg);
    FrameEnts(s, f, pg);
    forall q, k, l | Cell(q, k, l) && !(q == p && k == i && l == j) ensures View(s', q, k, l) == View(s, q, k, l) {
      assert Mapped(s, q, k, l) && FrameOf(s, q, k, l) == f ==> q == p;
    }
  }

  // ----- Demand allocation

  lemma MapPageResult(s: Vm, p: nat, va: Word, page: nat, perm: nat)
    requires TableInv(s) && Slot(p, DirOf(va))
    ensures MapPage(s, p, va, page, perm).1 == MAGIC <==> !EnsureTable(s, p, DirOf(va)).1
  {
    EnsureTableKeeps(s, p, DirOf(va));
    var s1 := EnsureTable(s, p, DirOf(va)).0;
    assert HasTable(s1, p, DirOf(va)) ==> Perm(s1.pdir[p][DirOf(va)]) == PTU;
    assert Perm(MAGIC) == 1;
  }

  /** The frame of this page is mapped nowhere else. */
  ghost predicate Unshared(s: Vm, p: int, i: int, j: int) {
    forall q, k, l ::
      Mapped(s, p, i, j) && Mapped(s, q, k, l) && FrameOf(s, q, k, l) == FrameOf(s, p, i, j) ==> q == p && k == i && l == j
  }

  ghost predicate SameEntriesBut(s: Vm, s': Vm, p: int, i: int, j: int) {
    forall q, k, l :: Cell(q, k, l) && !(q == p && k == i && l == j) ==> Ent(s', q, k, l) == Ent(s, q, k, l)
  }

  lemma MapSpare(s: Vm, p: nat, i: nat, j: nat, r: nat, perm: nat)
    requires TableInv(s) && FrameInv(s) && Cell(p, i, j) && HasTable(s, p, i)
    requires r < TABLE_SIZE && Spare(s, r) && perm < 4096 && !Super(perm)
    ensures var s' := SetWord(s, p, i, j, Entry(r, perm));
            TableInv(s') && FrameInv(s') && SameViewsButCell(s, s', p, i, j) && s'.pmm == s.pmm
            && View(s', p, i, j) == (if Present(perm) then Some(ZeroPage()) else None)
            && SameEntriesBut(s, s', p, i, j) && Unshared(s', p, i, j) && Perm(Ent(s', p, i, j)) == perm
  {
    var e := Entry(r, perm);
    EntryFields(r, perm);
    WriteEnts(s, p, i, j, e);
    WriteTables(s, p, i, j, e);
    WriteFrames(s, p, i, j, e);
    WriteViews(s, p, i, j, e);
    WriteViewHere(s, p, i, j, e);
  }

  /** `alloc_page`: on success the page reads as zeros, on failure nothing is seen to change. */
  lemma AllocPageIsZeroFill(s: Vm, p: nat, va: Word, perm: nat)
    requires Inv(s) && Cell(p, DirOf(va), TblOf(va)) && perm < 4096 && !Super(perm)
    ensures var (s', ret) := AllocPage(s, p, va, perm);
            var (i, j) := (DirOf(va), TblOf(va));
            Inv(s')
            && (ret == MAGIC ==> SameViews(s, s') && SameEntries(s, s'))
            && (ret != MAGIC ==> SameViewsButCell(s, s', p, i, j)
                                 && View(s', p, i, j) == (if Present(perm) then Some(ZeroPage()) else None)
                                 && SameEntriesBut(s, s', p, i, j) && Unshared(s', p, i, j) && Perm(Ent(s', p, i, j)) == perm)
  {
    var (s1, r) := AllocFrame(s, p);
    AllocFramePmm(s, p);
    AllocFrameTables(s, p);
    AllocFrameFrames(s, p);
    SameEnts(s, s1);
    StructuresViews(s, s1);
    if r != 0 {
      MapFreshPage(s1, p, va, r, perm);
    }
  }

  lemma MapFreshPage(s: Vm, p: nat, va: Word, r: nat, perm: nat)
    requires Inv(s) && Cell(p, DirOf(va), TblOf(va)) && perm < 4096 && !Super(perm) && r < TABLE_SIZE && Spare(s, r)
    ensures var (s', ret) := MapPage(s, p, va, r, perm);
            var (i, j) := (DirOf(va), TblOf(va));
            Inv(s')
            && (ret == MAGIC ==> SameViews(s, s') && SameEntries(s, s'))
            && (ret != MAGIC ==> SameViewsButCell(s, s', p, i, j)
                                 && View(s', p, i, j) == (if Present(perm) then Some(ZeroPage()) else None)
                                 && SameEntriesBut(s, s', p, i, j) && Unshared(s', p, i, j) && Perm(Ent(s', p, i, j)) == perm)
  {
    var i, j := DirOf(va), TblOf(va);
    var (s1, ok) := EnsureTable(s, p, i);
    MapPageResult(s, p, va, r, perm);
    EnsureTableKeeps(s, p, i);
    EnsureTableFrames(s, p, i);
    EnsureTablePmm(s, p, i);
    StructuresViews(s, s1);
    if ok {
      MapSpare(s1, p, i, j, r, perm);
    }
  }
}
