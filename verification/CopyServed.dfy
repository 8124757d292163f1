/** When a user copy gets every page it needs, what it does when it does not, who sees it, and reading
    back what was written. */
module CopyServed {
  import opened Words
  import opened Containers
  import opened PageTables
  import opened Mapping
  import opened Fork
  import opened CowRefinement
  import opened PageDemand
  import opened UserCopy

  // ----- When every page of the range can be had

  /** Every page of the range is mapped when the copy gets to it, or can then be allocated. */
  predicate CopyOk(s: Vm, p: nat, va: Word, buf: seq<Byte>)
    requires p < NUM_IDS
    decreases |buf|
  {
    buf == [] ||
    var n := Chunk(va, |buf|);
    Touchable(s, p, va) && CopyOk(CopyChunk(s, p, va, buf[..n]), p, U32(va + n), buf[n..])
  }

  ghost predicate RangeMapped(s: Vm, p: nat, va: int, n: nat) {
    forall x :: InPages(va, n, x) ==> MappedAt(s, p, x)
  }

  /** That is so exactly when the copy leaves every page of the range mapped. */
  lemma {:induction false} CopyOkIff(s: Vm, p: nat, va: Word, buf: seq<Byte>)
    requires Inv(s) && 1 <= p < NUM_IDS && VM_USERLO <= va && va + |buf| <= VM_USERHI
    ensures CopyOk(s, p, va, buf) <==> RangeMapped(CopyLoop(s, p, va, buf), p, va, |buf|)
    decreases |buf|
  {
    hide Inv, CopyChunk, CopyLoop, Touchable, MappedAt;
    if buf != [] {
      var n := Chunk(va, |buf|);
      var s1 := CopyChunk(s, p, va, buf[..n]);
      var s2 := CopyLoop(s1, p, U32(va + n), buf[n..]);
      LoopUnfolds(s, p, va, buf);
      RestStarts(va, n, |buf|);
      FirstChunk(s, p, va, buf);
      CopyOkIff(s1, p, va + n, buf[n..]);
      if n < |buf| {
        assert buf[..n] + buf[n..] == buf;
        LaterPages(s1, p, va, buf, n);
      } else {
        assert buf[n..] == [];
        LoopEnds(s1, p, va + n);
        ChunkPages(va, n, va / 4096);
      }
    } else {
      NoPages(va);
    }
  }

  lemma NoPages(va: int)
    ensures forall x :: !InPages(va, 0, x)
  {
  }

  lemma FirstChunk(s: Vm, p: nat, va: Word, buf: seq<Byte>)
    requires Inv(s) && 1 <= p < NUM_IDS && VM_USERLO <= va && va + |buf| <= VM_USERHI && buf != []
    ensures var s1 := CopyChunk(s, p, va, buf[..Chunk(va, |buf|)]);
            Inv(s1) && (MappedAt(s1, p, va / 4096) <==> Touchable(s, p, va))
            && s1.pmm == Touch(s, p, va).pmm && s1.pdir == Touch(s, p, va).pdir && SameEntries(Touch(s, p, va), s1)
  {
    hide Inv, CopyChunk, Touchable, EntsKept, OthersSee, ViewAt, EntAt, PutBytes;
    UserAddress(va);
    ChunkDone(s, p, va, buf[..Chunk(va, |buf|)]);
  }

  /** The rest of the copy neither maps nor unmaps the first page. */
  lemma LaterPages(s1: Vm, p: nat, va: Word, buf: seq<Byte>, n: nat)
    requires Inv(s1) && 1 <= p < NUM_IDS && VM_USERLO <= va && va + |buf| <= VM_USERHI
    requires buf != [] && n == Chunk(va, |buf|) < |buf| && (va + n) % 4096 == 0
    ensures var s2 := CopyLoop(s1, p, va + n, buf[n..]);
            RangeMapped(s2, p, va, |buf|) <==> MappedAt(s1, p, va / 4096) && RangeMapped(s2, p, va + n, |buf| - n)
  {
    hide Inv, CopyLoop, BytesCopied, OthersSee, EntAt;
    var s2 := CopyLoop(s1, p, va + n, buf[n..]);
    CopyLoopIsByteCopy(s1, p, va + n, buf[n..]);
    forall x ensures InPages(va, |buf|, x) <==> x == va / 4096 || InPages(va + n, |buf| - n, x) {
      SplitPages(va, n, |buf| - n, x);
      ChunkPages(va, n, x);
    }
    SplitPages(va, n, |buf| - n, va / 4096);
    ChunkPages(va, n, va / 4096);
    assert EntAt(s2, p, va / 4096) == EntAt(s1, p, va / 4096);
  }

  /** The pages from `lo` up to `hi` that process `p` does not have, in order. */
  function MissingPages(s: Vm, p: int, lo: int, hi: int): (pages: seq<int>)
    decreases hi - lo
  {
    if lo >= hi then [] else (if MappedAt(s, p, lo) then [] else [lo]) + MissingPages(s, p, lo + 1, hi)
  }

  lemma {:induction false} MissingSame(s: Vm, s1: Vm, p: int, lo: int, hi: int)
    requires forall x :: lo <= x < hi ==> EntAt(s1, p, x) == EntAt(s, p, x)
    ensures MissingPages(s1, p, lo, hi) == MissingPages(s, p, lo, hi)
    decreases hi - lo
  {
    hide EntAt;
    if lo < hi {
      MissingSame(s, s1, p, lo + 1, hi);
    }
  }

  /** Every page of the range can be had exactly when the process can get the pages it misses and the page
      tables they lack. */
  lemma {:induction false} QuotaServesCopyIff(s: Vm, p: nat, va: Word, buf: seq<Byte>)
    requires Inv(s) && 1 <= p < NUM_IDS && VM_USERLO <= va && va + |buf| <= VM_USERHI
    ensures CopyOk(s, p, va, buf) <==>
            Avail(s.pmm, p) >= Demand(TablesOf(s, p), MissingPages(s, p, va / 4096, EndPage(va, |buf|)))
    decreases |buf|
  {
    hide Inv, CopyChunk, CopyLoop, Touchable, Avail, TablesOf, Demand, MissingPages;
    if buf == [] {
      NothingMissing(s, p, va / 4096);
      InvAvail(s, p);
    } else {
      var n := Chunk(va, |buf|);
      var s1 := CopyChunk(s, p, va, buf[..n]);
      RestStarts(va, n, |buf|);
      ChunkCost(s, p, va, buf);
      if Touchable(s, p, va) {
        QuotaServesCopyIff(s1, p, va + n, buf[n..]);
        EndOfRest(va, n, |buf|);
        NothingMissing(s1, p, va / 4096 + 1);
        NothingMissing(s1, p, (va + n) / 4096);
      }
    }
  }

  lemma EndOfRest(va: Word, n: nat, len: nat)
    requires len > 0 && n == Chunk(va, len)
    ensures n < len ==> (va + n) / 4096 == va / 4096 + 1 && EndPage(va + n, len - n) == EndPage(va, len)
    ensures n == len ==> EndPage(va, len) == va / 4096 + 1 && EndPage(va + n, 0) == (va + n) / 4096
  {
  }

  lemma NothingMissing(s: Vm, p: int, x: int)
    ensures Demand(TablesOf(s, p), MissingPages(s, p, x, x)) == 0
  {
  }

  /** The first page of a range, with what it costs taken off what is available and off the demand. */
  lemma ChunkCost(s: Vm, p: nat, va: Word, buf: seq<Byte>)
    requires Inv(s) && 1 <= p < NUM_IDS && VM_USERLO <= va && va + |buf| <= VM_USERHI && buf != []
    ensures var (s1, u, hi) := (CopyChunk(s, p, va, buf[..Chunk(va, |buf|)]), va / 4096, EndPage(va, |buf|));
            var demand := Demand(TablesOf(s, p), MissingPages(s, p, u, hi));
            if Touchable(s, p, va)
            then Inv(s1)
                 && Avail(s1.pmm, p) - Demand(TablesOf(s1, p), MissingPages(s1, p, u + 1, hi)) == Avail(s.pmm, p) - demand
            else Avail(s.pmm, p) < demand
  {
    hide Inv, CopyChunk, Touchable, Touch, Avail, TablesOf, Demand, MissingPages, EntAt, SameEntries;
    var u, hi := va / 4096, EndPage(va, |buf|);
    var s1 := CopyChunk(s, p, va, buf[..Chunk(va, |buf|)]);
    UserAddress(va);
    FirstChunk(s, p, va, buf);
    ChunkTables(s, p, va, buf[..Chunk(va, |buf|)]);
    TouchCost(s, p, va);
    MissingUnfolds(s, p, u, hi);
    RestMissing(s, Touch(s, p, va), s1, p, u, hi);
    DemandStep(TablesOf(s, p), u, MissingPages(s, p, u + 1, hi));
  }

  lemma ChunkTables(s: Vm, p: nat, va: Word, bs: seq<Byte>)
    requires p < NUM_IDS && va % 4096 + |bs| <= 4096
    ensures TablesOf(CopyChunk(s, p, va, bs), p) == TablesOf(Touch(s, p, va), p)
  {
    hide Touch, EntryByVa, PutBytes;
  }

  lemma MissingUnfolds(s: Vm, p: int, u: int, hi: int)
    requires u < hi
    ensures MissingPages(s, p, u, hi) ==
            if MappedAt(s, p, u) then MissingPages(s, p, u + 1, hi) else [u] + MissingPages(s, p, u + 1, hi)
  {
  }

  lemma RestMissing(s: Vm, s1: Vm, s': Vm, p: int, u: int, hi: int)
    requires EntsKept(s, s1, p, u, u + 1) && SameEntries(s1, s')
    ensures MissingPages(s', p, u + 1, hi) == MissingPages(s, p, u + 1, hi)
  {
    forall x | u + 1 <= x < hi ensures EntAt(s', p, x) == EntAt(s, p, x) {
      SameEntriesAt(s1, s', p, x);
    }
    MissingSame(s, s', p, u + 1, hi);
  }

  lemma TouchCost(s: Vm, p: nat, va: Word)
    requires Inv(s) && 1 <= p < NUM_IDS && UserPage(va / 4096)
    ensures var (s1, u) := (Touch(s, p, va), va / 4096);
            EntsKept(s, s1, p, u, u + 1)
            && if MappedAt(s, p, u) then s1 == s && Touchable(s, p, va)
               else var cost := if u / 1024 in TablesOf(s, p) then 1 else 2;
                    (Touchable(s, p, va) <==> Avail(s.pmm, p) >= cost)
                    && (Touchable(s, p, va) ==> Avail(s1.pmm, p) == Avail(s.pmm, p) - cost
                                                && TablesOf(s1, p) == TablesOf(s, p) + {u / 1024})
                    && (!Touchable(s, p, va) ==> Avail(s1.pmm, p) == 0)
  {
    hide Inv, Touch, Avail, EntAt, EntsKept, OnlyPage, EntryByVa;
    TouchEnsures(s, p, va);
    var u := va / 4096;
    if MappedAt(s, p, u) {
      EntryOfPage(s, p, va);
      NoTouch(s, p, va);
    } else {
      hide Touchable;
      TouchMeansAlloc(s, p, va);
      AllocCostAt(s, p, va, PTU);
    }
  }

  lemma TouchMeansAlloc(s: Vm, p: nat, va: Word)
    requires Inv(s) && 1 <= p < NUM_IDS && UserPage(va / 4096) && !MappedAt(s, p, va / 4096)
    ensures Touch(s, p, va) == AllocPage(s, p, va, PTU).0
    ensures Touchable(s, p, va) <==> AllocPage(s, p, va, PTU).1 != MAGIC
  {
    hide Inv, AllocPage, EntAt, EntryByVa, SameViews, SameEntries, SameViewsButCell, SameEntriesBut, Unshared, ViewAt;
    EntryOfPage(s, p, va);
    TouchIsAlloc(s, p, va);
    EntryOfPage(AllocPage(s, p, va, PTU).0, p, va);
    ZeroFillAt(s, p, va, PTU);
    if AllocPage(s, p, va, PTU).1 == MAGIC {
      SameEntriesAt(s, AllocPage(s, p, va, PTU).0, p, va / 4096);
    }
  }

  lemma AllocCostAt(s: Vm, p: nat, va: Word, perm: nat)
    requires Inv(s) && 1 <= p < NUM_IDS && UserPage(va / 4096) && perm < 4096 && !Super(perm)
    ensures var (s1, ret) := AllocPage(s, p, va, perm);
            var u := va / 4096;
            var cost := if u / 1024 in TablesOf(s, p) then 1 else 2;
            (ret != MAGIC <==> Avail(s.pmm, p) >= cost)
            && (ret != MAGIC ==> Avail(s1.pmm, p) == Avail(s.pmm, p) - cost
                                 && TablesOf(s1, p) == TablesOf(s, p) + {u / 1024})
            && (ret == MAGIC ==> Avail(s1.pmm, p) == 0)
  {
    hide Inv, AllocPage, EntryByVa, Avail;
    UserCell(s, p, va);
    CellsOfPage(va / 4096);
    AllocPageCost(s, p, va, perm);
  }

  // ----- Without pages

  lemma NoPageTouch(s: Vm, p: nat, va: Word)
    requires Inv(s) && 1 <= p < NUM_IDS && UserPage(va / 4096) && Avail(s.pmm, p) == 0
    ensures Avail(Touch(s, p, va).pmm, p) == 0
    ensures Touchable(s, p, va) <==> MappedAt(s, p, va / 4096)
  {
    hide EntAt, Touch, Touchable, Inv, Avail, EntsKept, TablesOf;
    TouchCost(s, p, va);
  }

  /** A process that can get no page maps nothing, and still can get none. */
  lemma {:induction false} NoPageMapsNothing(s: Vm, p: nat, va: Word, buf: seq<Byte>, x: int)
    requires Inv(s) && 1 <= p < NUM_IDS && VM_USERLO <= va && va + |buf| <= VM_USERHI && Avail(s.pmm, p) == 0
    ensures MappedAt(CopyLoop(s, p, va, buf), p, x) <==> MappedAt(s, p, x)
    ensures Avail(CopyLoop(s, p, va, buf).pmm, p) == 0
    decreases |buf|
  {
    hide Inv, CopyChunk, CopyLoop, Touchable, Touch, SameEntries, MappedAt, Avail;
    if buf == [] {
      LoopEnds(s, p, va);
    } else {
      var n := Chunk(va, |buf|);
      var s1 := CopyChunk(s, p, va, buf[..n]);
      LoopUnfolds(s, p, va, buf);
      RestStarts(va, n, |buf|);
      UserAddress(va);
      FirstChunk(s, p, va, buf);
      NoPageTouch(s, p, va);
      ChunkElsewhere(s, p, va, buf[..n], x);
      NoPageMapsNothing(s1, p, va + n, buf[n..], x);
    }
  }

  lemma ChunkElsewhere(s: Vm, p: nat, va: Word, bs: seq<Byte>, x: int)
    requires Inv(s) && 1 <= p < NUM_IDS && UserPage(va / 4096) && va % 4096 + |bs| <= 4096
    ensures x != va / 4096 ==> (MappedAt(CopyChunk(s, p, va, bs), p, x) <==> MappedAt(s, p, x))
  {
    hide Inv, CopyChunk, EntAt, OthersSee, Touch, Touchable, PutBytes, SameEntries, ViewAt;
    ChunkDone(s, p, va, bs);
  }

  /** A copy to pages the process does not have and cannot get is not seen at all. */
  lemma StarvedCopy(s: Vm, p: nat, va: Word, buf: seq<Byte>)
    requires Inv(s) && 1 <= p < NUM_IDS && VM_USERLO <= va && va + |buf| <= VM_USERHI && Avail(s.pmm, p) == 0
    requires forall x :: InPages(va, |buf|, x) ==> !MappedAt(s, p, x)
    ensures var s' := CopyLoop(s, p, va, buf);
            Inv(s') && Avail(s'.pmm, p) == 0 && (forall x :: MappedAt(s', p, x) <==> MappedAt(s, p, x))
            && forall q, x :: ViewAt(s', q, x) == ViewAt(s, q, x)
  {
    hide Inv, CopyLoop, EntAt, ViewAt, BytesCopied, EntsKept, Avail;
    var s' := CopyLoop(s, p, va, buf);
    CopyLoopIsByteCopy(s, p, va, buf);
    forall x ensures MappedAt(s', p, x) <==> MappedAt(s, p, x) {
      NoPageMapsNothing(s, p, va, buf, x);
    }
    NoPageMapsNothing(s, p, va, buf, 0);
    forall q, x ensures ViewAt(s', q, x) == ViewAt(s, q, x) {
      if q == p && InPages(va, |buf|, x) {
        ViewOfEntry(s, p, x);
        ViewOfEntry(s', p, x);
      } else if q != p {
        assert Unrelated(s, p, va / 4096, EndPage(va, |buf|), q, x);
      }
    }
  }

  /** So `pt_copyout` to such pages reports every byte as copied although no process sees any of them. */
  lemma CopyoutWithoutPages(s: Vm, kva: Word, buf: seq<Byte>, p: nat, va: Word)
    requires Inv(s) && 1 <= p < NUM_IDS && VM_USERLO <= va && va + |buf| <= VM_USERHI && kva + |buf| <= VM_USERHI
    requires Avail(s.pmm, p) == 0 && forall x :: InPages(va, |buf|, x) ==> !MappedAt(s, p, x)
    ensures var (s', n) := Copyout(s, kva, buf, p, va);
            n == |buf| && Inv(s') && forall q, x :: ViewAt(s', q, x) == ViewAt(s, q, x)
  {
    hide Inv, CopyLoop, MappedAt, ViewAt, Avail;
    StarvedCopy(s, p, va, buf);
  }

  /** A call outside the user range, or from a kernel buffer that reaches past it, copies nothing. */
  lemma OutOfRangeIsRefused(s: Vm, kva: Word, buf: seq<Byte>, p: nat, va: Word)
    requires p < NUM_IDS && |buf| < 0x1_0000_0000
    requires va < 0x4000_0000 || 0xF000_0000 < va + |buf| < 0x1_0000_0000 || 0xF000_0000 < kva + |buf| < 0x1_0000_0000
    ensures Copyout(s, kva, buf, p, va) == (s, 0) && Copyin(s, p, va, kva, |buf|) == (s, [])
  {
  }

  /** `pt_memset` sets every byte of a range whose pages are mapped or can be had to `c`, and no other byte
      of the process. */
  lemma MemsetFills(s: Vm, p: nat, va: Word, c: Byte, len: nat, a: int)
    requires Inv(s) && 1 <= p < NUM_IDS && VM_USERLO <= va && va + len <= VM_USERHI
    requires CopyOk(s, p, va, seq<Byte>(len, _ => c))
    ensures var s' := Memset(s, p, va, c, len);
            (va <= a < va + len ==> UByte(s', p, a) == Some(c))
            && (!InPages(va, len, a / 4096) ==> UByte(s', p, a) == UByte(s, p, a))
  {
    hide Inv, CopyLoop, CopyOk, EntAt, ViewAt, ByteAt, EntsKept;
    var buf := seq<Byte>(len, _ => c);
    CopyLoopIsByteCopy(s, p, va, buf);
    CopyOkIff(s, p, va, buf);
    AddressPage(va, len, a);
    var s' := CopyLoop(s, p, va, buf);
    if va <= a < va + len {
      assert UByte(s', p, a) == ByteAfter(s, p, va, buf, a);
    }
  }

  // ----- What others see

  ghost predicate PrivateRange(s: Vm, p: nat, va: int, n: nat) {
    forall x :: InPages(va, n, x) ==> OwnPage(s, p, x)
  }

  /** Where no page of the range is shared, nobody else sees the copy. */
  lemma PrivateCopyIsPrivate(s: Vm, p: nat, va: Word, buf: seq<Byte>)
    requires Inv(s) && 1 <= p < NUM_IDS && VM_USERLO <= va && va + |buf| <= VM_USERHI && PrivateRange(s, p, va, |buf|)
    ensures forall q, x :: q != p ==> ViewAt(CopyLoop(s, p, va, buf), q, x) == ViewAt(s, q, x)
  {
    hide Inv, CopyLoop, EntAt, ViewAt, BytesCopied, EntsKept;
    CopyLoopIsByteCopy(s, p, va, buf);
    forall q, x | q != p ensures ViewAt(CopyLoop(s, p, va, buf), q, x) == ViewAt(s, q, x) {
      forall u | va / 4096 <= u < EndPage(va, |buf|) ensures !Shares(s, p, u, q, x) {
        assert OwnPage(s, p, u);
      }
      assert Unrelated(s, p, va / 4096, EndPage(va, |buf|), q, x);
    }
  }

  /** The kernel writes through physical memory, so a write to a page whose frame is shared is seen
      wherever that frame is mapped: it stays in the one page exactly when the page is the process's own
      or nothing changes. */
  lemma WriteStaysHomeIff(s: Vm, p: nat, u: int, pg: Page)
    requires Inv(s) && MappedAt(s, p, u)
    ensures var f := Frame(EntAt(s, p, u));
            OnlyPage(s, SetFrame(s, f, pg), p, u) <==> OwnPage(s, p, u) || pg == s.phys[f]
  {
    WriteSeen(s, p, u, pg);
    hide Inv, EntAt, SameEntries;
    var f := Frame(EntAt(s, p, u));
    if pg == s.phys[f] {
      assert SetFrame(s, f, pg) == s;
    } else if !OwnPage(s, p, u) {
      var q, x :| Shares(s, p, u, q, x) && !(q == p && x == u);
      ViewOfEntry(s, q, x);
    }
  }

  // ----- Reading back

  lemma ReadChunk(s: Vm, p: nat, va: Word)
    requires 1 <= p < NUM_IDS && UserPage(va / 4096) && MappedAt(s, p, va / 4096)
    ensures Touch(s, p, va) == s && ViewAt(s, p, va / 4096) == Some(s.phys[Frame(EntryByVa(s, p, va))])
  {
    EntryOfPage(s, p, va);
    ViewOfEntry(s, p, va / 4096);
    NoTouch(s, p, va);
  }

  lemma ChunkBytes(s: Vm, p: nat, va: Word, n: nat, k: nat)
    requires va % 4096 + n <= 4096 && k < n && ViewAt(s, p, va / 4096).Some?
    ensures UByte(s, p, va + k) == Some(GetBytes(ViewAt(s, p, va / 4096).value, va % 4096, n)[k])
  {
    hide ViewAt, ByteAt;
    assert (va + k) / 4096 == va / 4096 && (va + k) % 4096 == va % 4096 + k;
  }

  lemma ReadUnfolds(s: Vm, p: nat, va: Word, len: nat)
    requires p < NUM_IDS
    ensures len == 0 ==> ReadLoop(s, p, va, len) == (s, [])
    ensures len > 0 ==>
              var s1 := Touch(s, p, va);
              var n := Chunk(va, len);
              var (s2, rest) := ReadLoop(s1, p, U32(va + n), len - n);
              ReadLoop(s, p, va, len) == (s2, GetBytes(s1.phys[Frame(EntryByVa(s1, p, va))], va % 4096, n) + rest)
  {
    hide Touch, EntryByVa, GetBytes;
  }

  /** What `pt_copyin` leaves: pages it could have mapped are there, zero where they were missing; nobody
      else sees a difference; and what it read from pages that are there is what they hold. */
  ghost predicate ReadDone(s: Vm, s': Vm, p: nat, va: int, bs: seq<Byte>) {
    && Inv(s') && EntsKept(s, s', p, va / 4096, EndPage(va, |bs|))
    && (forall q, x :: !(q == p && InPages(va, |bs|, x)) ==> ViewAt(s', q, x) == ViewAt(s, q, x))
    && (forall x :: InPages(va, |bs|, x) && MappedAt(s', p, x) ==> ViewAt(s', p, x) == Some(PageOr0(ViewAt(s, p, x))))
    && (forall k :: 0 <= k < |bs| ==> ReadAt(s, s', p, va + k, bs[k]))
  }

  ghost predicate ReadAt(s: Vm, s': Vm, p: nat, a: int, b: Byte) {
    MappedAt(s', p, a / 4096) ==> b == ByteAt(PageOr0(ViewAt(s, p, a / 4096)), a % 4096)
  }

  lemma ReadOne(s: Vm, p: nat, va: Word, n: nat)
    requires Inv(s) && 1 <= p < NUM_IDS && UserPage(va / 4096) && n > 0 && va % 4096 + n <= 4096
    ensures var s1 := Touch(s, p, va);
            ReadDone(s, s1, p, va, GetBytes(s1.phys[Frame(EntryByVa(s1, p, va))], va % 4096, n))
  {
    hide Inv, Touch, EntryByVa, EntAt, ViewAt, EntsKept, ByteAt, Touchable, InPages, EndPage, GetBytes;
    var u := va / 4096;
    var s1 := Touch(s, p, va);
    TouchEnsures(s, p, va);
    EntryOfPage(s1, p, va);
    forall x ensures (InPages(va, n, x) <==> x == u) && EndPage(va, n) == u + 1 {
      ChunkPages(va, n, x);
    }
    ReadOneBytes(s, s1, p, va, n, s1.phys[Frame(EntryByVa(s1, p, va))]);
  }

  lemma ReadOneBytes(s: Vm, s1: Vm, p: nat, va: Word, n: nat, pg: Page)
    requires Ensured(s, s1, p, va / 4096) && va % 4096 + n <= 4096
    requires MappedAt(s1, p, va / 4096) ==> pg == s1.phys[Frame(EntAt(s1, p, va / 4096))]
    ensures forall k :: 0 <= k < n ==> ReadAt(s, s1, p, va + k, GetBytes(pg, va % 4096, n)[k])
  {
    hide Inv, EntAt, ViewAt, EntsKept, ByteAt, OnlyPage;
    ViewOfEntry(s1, p, va / 4096);
    forall k | 0 <= k < n ensures ReadAt(s, s1, p, va + k, GetBytes(pg, va % 4096, n)[k]) {
      assert (va + k) / 4096 == va / 4096 && (va + k) % 4096 == va % 4096 + k;
    }
  }

  lemma ReadThen(s: Vm, s1: Vm, s2: Vm, p: nat, va: int, b1: seq<Byte>, b2: seq<Byte>)
    requires ReadDone(s, s1, p, va, b1) && ReadDone(s1, s2, p, va + |b1|, b2)
    requires b1 != [] && b2 != [] && (va + |b1|) % 4096 == 0
    ensures ReadDone(s, s2, p, va, b1 + b2)
  {
    hide Inv, EntAt, ViewAt, ByteAt, EntsKept;
    var mid := va + |b1|;
    SplitPages(va, |b1|, |b2|, va / 4096);
    EntsCompose(s, s1, s2, p, va / 4096, mid / 4096, EndPage(mid, |b2|));
    forall x ensures InPages(va, |b1 + b2|, x) <==> InPages(va, |b1|, x) || InPages(mid, |b2|, x)
      ensures InPages(mid, |b2|, x) ==> !InPages(va, |b1|, x)
    {
      SplitPages(va, |b1|, |b2|, x);
    }
    hide InPages, EndPage;
    forall x | InPages(va, |b1|, x) ensures MappedAt(s2, p, x) <==> MappedAt(s1, p, x) {
      ViewOfEntry(s1, p, x);
      ViewOfEntry(s2, p, x);
    }
    forall k | 0 <= k < |b1 + b2| ensures ReadAt(s, s2, p, va + k, (b1 + b2)[k]) {
      if k < |b1| {
        AddressPage(va, |b1|, va + k);
        assert ReadAt(s, s1, p, va + k, b1[k]);
      } else {
        AddressPage(mid, |b2|, mid + (k - |b1|));
        assert ReadAt(s1, s2, p, mid + (k - |b1|), b2[k - |b1|]);
        assert ViewAt(s1, p, (va + k) / 4096) == ViewAt(s, p, (va + k) / 4096);
      }
    }
  }

  lemma ReadNothing(s: Vm, p: nat, va: Word)
    requires Inv(s)
    ensures ReadDone(s, s, p, va, [])
  {
    hide Inv, ViewAt, EntAt;
    NothingKept(s, p, va / 4096);
  }

  /** `pt_copyin` of any user range, whether its pages are there, can be had or neither. */
  lemma {:induction false} ReadLoopTotal(s: Vm, p: nat, va: Word, len: nat)
    requires Inv(s) && 1 <= p < NUM_IDS && VM_USERLO <= va && va + len <= VM_USERHI
    ensures var (s', bs) := ReadLoop(s, p, va, len);
            |bs| == len && ReadDone(s, s', p, va, bs)
    decreases len
  {
    hide Inv, ReadDone, Touch, EntryByVa, GetBytes, ReadLoop;
    ReadUnfolds(s, p, va, len);
    if len == 0 {
      ReadNothing(s, p, va);
    } else {
      var n := Chunk(va, len);
      var s1 := Touch(s, p, va);
      UserAddress(va);
      ReadOne(s, p, va, n);
      var b1 := GetBytes(s1.phys[Frame(EntryByVa(s1, p, va))], va % 4096, n);
      ReadInv(s, s1, p, va, b1);
      RestStarts(va, n, len);
      hide U32, Chunk;
      ReadLoopTotal(s1, p, va + n, len - n);
      var (s2, b2) := ReadLoop(s1, p, va + n, len - n);
      if n < len {
        ReadThen(s, s1, s2, p, va, b1, b2);
      } else {
        ReadUnfolds(s1, p, va + n, 0);
        assert b1 + b2 == b1;
      }
    }
  }

  /** And it leaves every page of the range mapped exactly when the process can get the pages it misses and
      the page tables they lack. */
  lemma {:induction false} QuotaServesReadIff(s: Vm, p: nat, va: Word, len: nat)
    requires Inv(s) && 1 <= p < NUM_IDS && VM_USERLO <= va && va + len <= VM_USERHI
    ensures RangeMapped(ReadLoop(s, p, va, len).0, p, va, len) <==>
            Avail(s.pmm, p) >= Demand(TablesOf(s, p), MissingPages(s, p, va / 4096, EndPage(va, len)))
    decreases len
  {
    hide Inv, ReadLoop, Touchable, Avail, TablesOf, Demand, MissingPages, RangeMapped, Touch, MappedAt;
    ReadUnfolds(s, p, va, len);
    if len == 0 {
      NothingMissing(s, p, va / 4096);
      InvAvail(s, p);
      NoRange(s, p, va);
    } else {
      var n := Chunk(va, len);
      var s1 := Touch(s, p, va);
      UserAddress(va);
      RestStarts(va, n, len);
      TouchedCost(s, p, va, EndPage(va, len));
      QuotaServesReadIff(s1, p, va + n, len - n);
      EndOfRest(va, n, len);
      NothingMissing(s1, p, va / 4096 + 1);
      NothingMissing(s1, p, (va + n) / 4096);
      RestRead(s1, p, va, n, len);
    }
  }

  lemma NoRange(s: Vm, p: nat, va: int)
    ensures RangeMapped(s, p, va, 0)
  {
    NoPages(va);
  }

  lemma TouchedCost(s: Vm, p: nat, va: Word, hi: int)
    requires Inv(s) && 1 <= p < NUM_IDS && UserPage(va / 4096) && va / 4096 < hi
    ensures var (s1, u) := (Touch(s, p, va), va / 4096);
            var demand := Demand(TablesOf(s, p), MissingPages(s, p, u, hi));
            Inv(s1)
            && (MappedAt(s1, p, u) ==>
                  Avail(s1.pmm, p) - Demand(TablesOf(s1, p), MissingPages(s1, p, u + 1, hi)) == Avail(s.pmm, p) - demand)
            && (!MappedAt(s1, p, u) ==> Avail(s.pmm, p) < demand)
  {
    hide Inv, Touchable, Touch, Avail, TablesOf, Demand, MissingPages, EntAt, SameEntries, OnlyPage, ViewAt;
    var (s1, u) := (Touch(s, p, va), va / 4096);
    TouchEnsures(s, p, va);
    TouchCost(s, p, va);
    MissingUnfolds(s, p, u, hi);
    SameEntriesHere(s1);
    RestMissing(s, s1, s1, p, u, hi);
    DemandStep(TablesOf(s, p), u, MissingPages(s, p, u + 1, hi));
  }

  lemma SameEntriesHere(s: Vm)
    ensures SameEntries(s, s)
  {
  }

  lemma RestRead(s1: Vm, p: nat, va: Word, n: nat, len: nat)
    requires Inv(s1) && 1 <= p < NUM_IDS && VM_USERLO <= va && va + len <= VM_USERHI && len > 0 && n == Chunk(va, len)
    ensures var s2 := ReadLoop(s1, p, va + n, len - n).0;
            RangeMapped(s2, p, va, len) <==> MappedAt(s1, p, va / 4096) && RangeMapped(s2, p, va + n, len - n)
  {
    hide Inv, ReadLoop, EntAt, ViewAt, ByteAt;
    var s2 := ReadLoop(s1, p, va + n, len - n).0;
    ReadLoopTotal(s1, p, va + n, len - n);
    RestStarts(va, n, len);
    ChunkPages(va, n, va / 4096);
    if n < len {
      forall x ensures InPages(va, len, x) <==> x == va / 4096 || InPages(va + n, len - n, x) {
        SplitPages(va, n, len - n, x);
        ChunkPages(va, n, x);
      }
      SplitPages(va, n, len - n, va / 4096);
    } else {
      forall x ensures InPages(va, len, x) <==> x == va / 4096 {
        ChunkPages(va, n, x);
      }
      NoPages(va + n);
    }
    assert EntAt(s2, p, va / 4096) == EntAt(s1, p, va / 4096);
  }

  lemma ReadInv(s: Vm, s': Vm, p: nat, va: int, bs: seq<Byte>)
    requires ReadDone(s, s', p, va, bs)
    ensures Inv(s')
  {
  }

  /** On a mapped range `pt_copyin` changes nothing and reads what the process sees. */
  lemma {:induction false} ReadLoopIsByteRead(s: Vm, p: nat, va: Word, len: nat)
    requires 1 <= p < NUM_IDS && VM_USERLO <= va && va + len <= VM_USERHI && RangeMapped(s, p, va, len)
    ensures var (s', bs) := ReadLoop(s, p, va, len);
            s' == s && |bs| == len && forall k :: 0 <= k < len ==> UByte(s, p, va + k) == Some(bs[k])
    decreases len
  {
    hide ViewAt, ByteAt, Touch, EntryByVa, UByte, GetBytes, MappedAt, ReadLoop;
    ReadUnfolds(s, p, va, len);
    if len > 0 {
      var n := Chunk(va, len);
      UserAddress(va);
      AddressPage(va, len, va);
      ReadChunk(s, p, va);
      RestStarts(va, n, len);
      assert forall x :: InPages(va + n, len - n, x) ==> InPages(va, len, x);
      hide InPages, U32, Chunk;
      ReadLoopIsByteRead(s, p, va + n, len - n);
      ReadAppend(s, p, va, n, len, ReadLoop(s, p, va + n, len - n).1);
    }
  }

  lemma ReadAppend(s: Vm, p: nat, va: Word, n: nat, len: nat, rest: seq<Byte>)
    requires va % 4096 + n <= 4096 && n <= len && |rest| == len - n && ViewAt(s, p, va / 4096).Some?
    requires forall k :: 0 <= k < len - n ==> UByte(s, p, va + n + k) == Some(rest[k])
    ensures var bs := GetBytes(ViewAt(s, p, va / 4096).value, va % 4096, n) + rest;
            forall k :: 0 <= k < len ==> UByte(s, p, va + k) == Some(bs[k])
  {
    hide ViewAt, UByte, GetBytes;
    var bs := GetBytes(ViewAt(s, p, va / 4096).value, va % 4096, n) + rest;
    forall k | 0 <= k < len ensures UByte(s, p, va + k) == Some(bs[k]) {
      if k < n {
        ChunkBytes(s, p, va, n, k);
      } else {
        assert va + n + (k - n) == va + k;
      }
    }
  }

  /** `pt_copyout` of a buffer to a user range whose pages are mapped or can be had is a byte-by-byte
      copy, shared pages or not; it says so in its result, and `pt_copyin` of the same range gives the
      buffer back and changes nothing. */
  lemma CopyoutThenCopyin(s: Vm, kva: Word, buf: seq<Byte>, p: nat, va: Word, kva': Word)
    requires Inv(s) && 1 <= p < NUM_IDS && VM_USERLO <= va && va + |buf| <= VM_USERHI
    requires kva + |buf| <= VM_USERHI && kva' + |buf| <= VM_USERHI && CopyOk(s, p, va, buf)
    ensures var (s', n) := Copyout(s, kva, buf, p, va);
            n == |buf| && CopyDone(s, s', p, va, buf) && RangeMapped(s', p, va, |buf|)
            && Copyin(s', p, va, kva', |buf|) == (s', buf)
  {
    hide CopyDone, CopyOk, CopyLoop, ReadLoop, Inv, RangeMapped;
    var s' := CopyLoop(s, p, va, buf);
    CopyLoopIsByteCopy(s, p, va, buf);
    CopyOkIff(s, p, va, buf);
    ReadLoopIsByteRead(s', p, va, |buf|);
    ReadBack(s, s', p, va, buf, ReadLoop(s', p, va, |buf|).1);
  }

  lemma ReadBack(s: Vm, s': Vm, p: nat, va: int, buf: seq<Byte>, bs: seq<Byte>)
    requires CopyDone(s, s', p, va, buf) && RangeMapped(s', p, va, |buf|)
    requires |bs| == |buf| && forall k :: 0 <= k < |bs| ==> UByte(s', p, va + k) == Some(bs[k])
    ensures bs == buf
  {
    hide Inv, UByte, InPages, EntsKept, OthersSee, MappedAt;
    forall k | 0 <= k < |buf| ensures bs[k] == buf[k] {
      AddressPage(va, |buf|, va + k);
      assert UByte(s', p, va + k) == ByteAfter(s, p, va, buf, va + k);
    }
  }
}
