/** Classifying physical pages at boot (`pmem_init`), and the path from the E820 table to the
    allocator. */
module BootClassify {
  import opened Words
  import opened AllocTable
  import opened PageAllocator
  import opened Containers
  import opened ContainerTable
  import opened MemoryMap
  import opened PhysicalMap
  import Ledger

  /** Page `i` starts strictly after the start of a usable row and ends inside it. */
  predicate Inside(r: Row, i: int) {
    r.ty == MEM_RAM && i * 4096 > r.start && i * 4096 + 4095 < r.end
  }

  ghost predicate Usable(rs: seq<Row>, i: int) {
    exists j :: 0 <= j < |rs| && Inside(rs[j], i)
  }

  /** The permission `pmem_init` gives to page `i`; the very last page is left alone. */
  ghost function PermOf(rs: seq<Row>, i: int): (p: nat) {
    if i < USERLO_PI || USERHI_PI <= i then (if i < NPS then 1 else 0)
    else if Usable(rs, i) then 2 else 0
  }

  ghost predicate Classified(t: Table, rs: seq<Row>) {
    forall i :: 0 <= i < TABLE_SIZE ==> t[i] == PageInfo(PermOf(rs, i), 0)
  }

  /** The loops of `pmem_init` over a finished memory map. */
  method PmemInit(pm: PhysMap, alloc: Allocator)
    requires pm.Valid() && alloc.Valid() && pm.rows as object != alloc.at && pm.next as object != alloc.at
    requires forall i :: 0 <= i < TABLE_SIZE ==> alloc.at[i] == PageInfo(0, 0)
    modifies alloc.at
    ensures Classified(alloc.Contents(), pm.Contents())
  {
    var starts, ends := GatherRows(pm);
    SetAll(alloc, 0, NPS, 0);
    SetAll(alloc, 0, USERLO_PI, 1);
    SetAll(alloc, USERHI_PI, NPS, 1);
    ClassifyUser(alloc, starts, ends, pm.Contents());
  }

  /** The first loop of `pmem_init`. */
  method GatherRows(pm: PhysMap) returns (starts: array<Word>, ends: array<Word>)
    requires pm.Valid()
    ensures fresh(starts) && fresh(ends) && starts.Length == ends.Length == |pm.Contents()|
    ensures forall j :: 0 <= j < starts.Length ==> RangeOf(starts[j], ends[j], pm.Contents()[j])
  {
    var size := pm.Size();
    starts, ends := new Word[size], new Word[size];
    var k := 0;
    while k < size
      invariant 0 <= k <= size
      invariant forall j :: 0 <= j < k ==> RangeOf(starts[j], ends[j], pm.Contents()[j])
    {
      var start, end, usable := pm.GetRow(k);
      if usable {
        starts[k], ends[k] := start, end;
      } else {
        starts[k], ends[k] := 0, 0;
      }
      k := k + 1;
    }
  }

  /** What the arrays `starts` and `ends` hold for a row. */
  predicate RangeOf(start: Word, end: Word, r: Row) {
    if r.ty == MEM_RAM then start == r.start && end == r.end else start == 0 && end == 0
  }

  method SetAll(alloc: Allocator, lo: nat, hi: nat, perm: nat)
    requires alloc.Valid() && lo <= hi <= TABLE_SIZE
    modifies alloc.at
    ensures forall i :: 0 <= i < TABLE_SIZE ==> alloc.at[i] == if lo <= i < hi then PageInfo(perm, 0) else old(alloc.at[i])
  {
    var i := lo;
    while i < hi
      invariant lo <= i <= hi
      invariant forall j :: 0 <= j < TABLE_SIZE ==> alloc.at[j] == if lo <= j < i then PageInfo(perm, 0) else old(alloc.at[j])
    {
      alloc.SetPerm(i, perm);
      i := i + 1;
    }
  }

  /** The last loop of `pmem_init`, over the pages of the user range and the rows. */
  method ClassifyUser(alloc: Allocator, starts: array<Word>, ends: array<Word>, ghost rs: seq<Row>)
    requires alloc.Valid() && starts.Length == |rs| && ends.Length == |rs|
    requires starts as object != alloc.at && ends as object != alloc.at
    requires forall j :: 0 <= j < |rs| ==> RangeOf(starts[j], ends[j], rs[j])
    requires forall i :: USERLO_PI <= i < USERHI_PI ==> alloc.at[i] == PageInfo(0, 0)
    modifies alloc.at
    ensures forall i :: 0 <= i < TABLE_SIZE ==>
              alloc.at[i] == if USERLO_PI <= i < USERHI_PI then PageInfo(if Usable(rs, i) then 2 else 0, 0) else old(alloc.at[i])
  {
    var i := USERLO_PI;
    while i < USERHI_PI
      invariant USERLO_PI <= i <= USERHI_PI
      invariant forall l :: USERLO_PI <= l < i ==> alloc.at[l] == PageInfo(if Usable(rs, l) then 2 else 0, 0)
      invariant forall l :: i <= l < USERHI_PI ==> alloc.at[l] == PageInfo(0, 0)
      invariant forall l :: 0 <= l < USERLO_PI || USERHI_PI <= l < TABLE_SIZE ==> alloc.at[l] == old(alloc.at[l])
    {
      ClassifyOne(alloc, i, starts, ends, rs);
      i := i + 1;
    }
  }

  method ClassifyOne(alloc: Allocator, i: nat, starts: array<Word>, ends: array<Word>, ghost rs: seq<Row>)
    requires alloc.Valid() && starts.Length == |rs| && ends.Length == |rs| && USERLO_PI <= i < USERHI_PI
    requires starts as object != alloc.at && ends as object != alloc.at
    requires forall j :: 0 <= j < |rs| ==> RangeOf(starts[j], ends[j], rs[j])
    requires alloc.at[i] == PageInfo(0, 0)
    modifies alloc.at
    ensures alloc.Contents() == old(alloc.Contents())[i := PageInfo(if Usable(rs, i) then 2 else 0, 0)]
  {
    var start := i * 4096;
    var end := start + 4096 - 1;
    var j := 0;
    while j < starts.Length
      invariant 0 <= j <= starts.Length
      invariant alloc.Contents() == old(alloc.Contents())[i := PageInfo(if Usable(rs[..j], i) then 2 else 0, 0)]
    {
      assert RangeOf(starts[j], ends[j], rs[j]);
      UsableStep(rs, i, j);
      if start > starts[j] && end < ends[j] {
        alloc.SetPerm(i, 2);
      }
      j := j + 1;
    }
    assert rs[..j] == rs;
  }

  lemma UsableStep(rs: seq<Row>, i: int, j: nat)
    requires j < |rs|
    ensures Usable(rs[..j + 1], i) <==> Usable(rs[..j], i) || Inside(rs[j], i)
  {
    if Usable(rs[..j], i) {
      var k :| 0 <= k < j && Inside(rs[..j][k], i);
      assert rs[..j + 1][k] == rs[k];
    }
    if Inside(rs[j], i) {
      assert rs[..j + 1][j] == rs[j];
    }
    if Usable(rs[..j + 1], i) {
      var k :| 0 <= k < j + 1 && Inside(rs[..j + 1][k], i);
      assert k < j ==> rs[..j][k] == rs[k];
    }
  }

  // ----- End to end

  /** A page becomes normal exactly when it lies in the user range and strictly after the start of,
      and wholly inside, a usable row of the finished map; it is then free. */
  lemma NormalPages(t: Table, rs: seq<Row>, i: int)
    requires Classified(t, rs)
    ensures IsNorm(t, i) <==> USERLO_PI <= i < USERHI_PI && Usable(rs, i)
    ensures IsNorm(t, i) ==> IsFree(t, i)
  {
  }

  /** The strict comparison with the start leaves a page out: with 8 KB of RAM reported from the start of
      the user range, the first page is wholly RAM and is not normal, the second is. */
  lemma PageAtRowStartIsLeftOut(t: Table)
    requires Classified(t, Built([E820(0x4000_0000, 0, 0x2000, 0, MEM_RAM)]))
    ensures var es := [E820(0x4000_0000, 0, 0x2000, 0, MEM_RAM)];
            (forall a :: 0x4_0000 * 4096 <= a < 0x4_0000 * 4096 + 4096 ==> CoveredByEntry(es, MEM_RAM, a))
            && !IsNorm(t, 0x4_0000) && IsNorm(t, 0x4_0001)
  {
    var e := E820(0x4000_0000, 0, 0x2000, 0, MEM_RAM);
    var row := Row(0x4000_0000, 0x4000_2000, MEM_RAM);
    OneEntry(e);
    NormalPages(t, [row], 0x4_0000);
    NormalPages(t, [row], 0x4_0001);
    assert !Inside(row, 0x4_0000);
    assert Inside([row][0], 0x4_0001);
    forall a | 0x4_0000 * 4096 <= a < 0x4_0000 * 4096 + 4096 ensures CoveredByEntry([e], MEM_RAM, a) {
      assert e in [e] && Reports(e, MEM_RAM, a);
    }
  }

  /** Two RAM entries that touch are one row to the classification: no page is lost where they meet. */
  lemma TouchingRamIsUsable(b: nat, n1: nat, n2: nat, i: int)
    requires b + n1 + n2 < 0xFFFF_FFFF
    ensures Usable(Built([E820(b, 0, n1, 0, MEM_RAM), E820(b + n1, 0, n2, 0, MEM_RAM)]), i) <==>
            i * 4096 > b && i * 4096 + 4095 < b + n1 + n2
  {
    TouchingEntriesJoin(b, n1, n2, MEM_RAM);
    var row := Row(b, b + n1 + n2, MEM_RAM);
    assert Inside([row][0], i) <==> i * 4096 > b && i * 4096 + 4095 < b + n1 + n2;
  }

  /** The classes exactly: 2 for the usable pages of the user range, 0 for its other pages and the last
      page of all, 1 for the kernel's. */
  lemma PageClasses(t: Table, rs: seq<Row>, i: nat)
    requires Classified(t, rs) && i < TABLE_SIZE
    ensures t[i].taken == 0
    ensures t[i].perm == 2 <==> 0x4_0000 <= i < 0xF_0000 && Usable(rs, i)
    ensures t[i].perm == 1 <==> i < 0x4_0000 || 0xF_0000 <= i < 0xF_FFFF
    ensures t[i].perm == 0 <==> (0x4_0000 <= i < 0xF_0000 && !Usable(rs, i)) || i == 0xF_FFFF
  {
  }

  lemma OneEntry(e: E820)
    requires e.baseHigh == 0
    ensures Built([e]) == [Clip(e)]
  {
    assert [e][..0] == [];
    assert Kept([e]) == [] + [Clip(e)];
    assert [Clip(e)][..0] == [];
    assert InsertAll([Clip(e)]) == Insert(InsertAll([]), Clip(e));
  }

  /** Every byte of every page the allocator can ever return is RAM by some E820 entry. */
  lemma EveryByteIsRam(t: Table, es: seq<E820>, i: int, a: int)
    requires Classified(t, Built(es)) && IsNorm(t, i) && i * 4096 <= a < i * 4096 + 4096
    ensures CoveredByEntry(es, MEM_RAM, a)
  {
    NormalPages(t, Built(es), i);
    var j :| 0 <= j < |Built(es)| && Inside(Built(es)[j], i);
    assert InRow(Built(es)[j], MEM_RAM, a);
    BuiltCovers(es, MEM_RAM, a);
  }

  /** From the E820 table to the root container: false where the code panics; otherwise the root
      quota is the number of normal pages, and the books start balanced. */
  method BootMemory(es: seq<E820>, pool: ContainerArray) returns (ok: bool)
    requires pool.Valid()
    requires forall i :: 0 <= i < NUM_IDS ==> pool.cont[i] == Unused
    requires forall i :: 0 <= i < TABLE_SIZE ==> pool.alloc.at[i] == PageInfo(0, 0)
    modifies pool.alloc.at, pool.cont
    ensures ok <==> |Kept(es)| <= SLOTS && forall r :: r in Built(es) ==> 1 <= r.ty <= 4
    ensures ok ==> Classified(pool.State().at, Built(es))
    ensures ok ==> pool.State().cont[0].quota == |set i | USERLO_PI <= i < USERHI_PI && Usable(Built(es), i)|
    ensures ok ==> pool.State() == Ledger.Boot(pool.State().at).m && Ledger.Inv(Ledger.Boot(pool.State().at))
  {
    hide Built, Kept, Classified, Ledger.Inv, Usable;
    var pm := new PhysMap();
    ok := pm.Init(es);
    if ok {
      PmemInit(pm, pool.alloc);
      ghost var t := pool.State().at;
      BootTable(t, Built(es));
      pool.Init();
    }
  }

  lemma BootTable(t: Table, rs: seq<Row>)
    requires Classified(t, rs)
    ensures NormalInUserRange(t) && (forall i :: !IsTaken(t, i)) && Ledger.Inv(Ledger.Boot(t))
    ensures FreePages(t) == set i | USERLO_PI <= i < USERHI_PI && Usable(rs, i)
  {
    forall i ensures (IsNorm(t, i) ==> USERLO_PI <= i < USERHI_PI) && !IsTaken(t, i) {
      NormalPages(t, rs, i);
    }
    Ledger.BootInv(t);
    forall i ensures i in FreePages(t) <==> USERLO_PI <= i < USERHI_PI && Usable(rs, i) {
      NormalPages(t, rs, i);
    }
  }
}
