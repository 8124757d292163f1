/** The physical page allocation table and its allocators (layers MATIntro and MATOp). */
module AllocTable {
  const TABLE_SIZE := 0x10_0000
  const USERLO_PI := 0x4_0000
  const USERHI_PI := 0xF_0000

  /** `perm` is 0 for BIOS-reserved, 1 for kernel, above 1 for normal; `taken` is the allocation flag, 0 if unallocated. */
  datatype PageInfo = PageInfo(perm: nat, taken: nat)

  type Table = t: seq<PageInfo> | |t| == TABLE_SIZE witness seq(0x10_0000, _ => PageInfo(0, 0))

  predicate IsNorm(t: Table, i: int) {
    0 <= i < TABLE_SIZE && t[i].perm > 1
  }

  predicate IsFree(t: Table, i: int) {
    IsNorm(t, i) && t[i].taken == 0
  }

  /** A normal page that has been handed out. */
  predicate IsTaken(t: Table, i: int) {
    IsNorm(t, i) && t[i].taken != 0
  }

  ghost function FreePages(t: Table): (s: set<int>) {
    set i | 0 <= i < TABLE_SIZE && IsFree(t, i)
  }

  function SetAllocated(t: Table, i: nat, v: nat): (r: Table)
    requires i < TABLE_SIZE
  {
    t[i := t[i].(taken := v)]
  }

  /** The table with the allocation flag of every page in [lo, hi) set to `v`. */
  function MarkRange(t: Table, lo: int, hi: int, v: nat): (r: Table)
  {
    seq(TABLE_SIZE, k requires 0 <= k < TABLE_SIZE => if lo <= k < hi then t[k].(taken := v) else t[k])
  }

  lemma MarkRangeEmpty(t: Table, lo: int, v: nat)
    ensures MarkRange(t, lo, lo, v) == t
  {
    assert forall k :: 0 <= k < TABLE_SIZE ==> MarkRange(t, lo, lo, v)[k] == t[k];
  }

  lemma MarkRangeStep(t: Table, lo: int, hi: nat, v: nat)
    requires lo <= hi < TABLE_SIZE
    ensures SetAllocated(MarkRange(t, lo, hi, v), hi, v) == MarkRange(t, lo, hi + 1, v)
  {
    assert forall k :: 0 <= k < TABLE_SIZE ==>
      SetAllocated(MarkRange(t, lo, hi, v), hi, v)[k] == MarkRange(t, lo, hi + 1, v)[k];
  }

  /** The lowest free normal page at or above `i` in the user range; 0 if there is none. */
  function FirstFree(t: Table, i: nat): (r: nat)
    requires USERLO_PI <= i <= USERHI_PI
    ensures r == 0 || (i <= r < USERHI_PI && IsFree(t, r))
    ensures forall j :: i <= j < (if r == 0 then USERHI_PI else r) ==> !IsFree(t, j)
    decreases USERHI_PI - i, t
  {
    if i == USERHI_PI then 0
    else if IsFree(t, i) then i
    else FirstFree(t, i + 1)
  }

  function LowestFree(t: Table): (r: nat)
    ensures r == 0 || (USERLO_PI <= r < USERHI_PI && IsFree(t, r))
    ensures forall j :: USERLO_PI <= j < (if r == 0 then USERHI_PI else r) ==> !IsFree(t, j)
  {
    FirstFree(t, USERLO_PI)
  }

  lemma LowestFreeUnique(t: Table, r: nat)
    requires USERLO_PI <= r < USERHI_PI && IsFree(t, r)
    requires forall j :: USERLO_PI <= j < r ==> !IsFree(t, j)
    ensures LowestFree(t) == r
  {
    var l := LowestFree(t);
    assert l == 0 ==> !IsFree(t, r);
  }

  // ----- What each allocator does to the table

  function Palloc(t: Table): (res: (Table, nat))
  {
    var r := LowestFree(t);
    if r == 0 then (t, 0) else (SetAllocated(t, r, 1), r)
  }

  /** The number of pages one call of the consecutive allocator marks: it counts down from `n`
      over the pages [r, USERHI_PI), starting again at `r` each time it reaches the top. */
  function MarkedCount(r: nat, n: nat): (k: nat)
    requires USERLO_PI <= r < USERHI_PI && n > 0
    ensures 1 <= k <= USERHI_PI - r
    ensures n <= USERHI_PI - r ==> k == n
    decreases n
  {
    if n <= USERHI_PI - r then n else MarkedCount(r, n - (USERHI_PI - r))
  }

  function ConsecutivePalloc(t: Table, n: nat): (res: (Table, nat))
  {
    if n == 0 then (t, USERLO_PI)
    else
      var r := LowestFree(t);
      if r == 0 then (t, 0) else (MarkRange(t, r, r + MarkedCount(r, n), 1), r)
  }

  // ----- The consecutive allocator against a full search for a free run

  ghost predicate FreeBlock(t: Table, lo: int, n: nat) {
    USERLO_PI <= lo && lo + n <= USERHI_PI && forall k :: lo <= k < lo + n ==> IsFree(t, k)
  }

  /** `r` is what a search for the lowest run of `n` free normal pages answers. */
  ghost predicate IsFirstRun(t: Table, n: nat, r: nat) {
    if r == 0 then forall lo :: !FreeBlock(t, lo, n)
    else FreeBlock(t, r, n) && forall lo :: lo < r ==> !FreeBlock(t, lo, n)
  }

  /** The page returned is always the one `palloc` would return, so the call fails only when no
      page is free; it does what a run search would exactly when the lowest free page (if any)
      starts a block of `n` free pages. */
  lemma ConsecutivePallocExact(t: Table, n: nat)
    requires n > 0
    ensures ConsecutivePalloc(t, n).1 == Palloc(t).1
    ensures ConsecutivePalloc(t, n).1 == 0 <==> forall i :: USERLO_PI <= i < USERHI_PI ==> !IsFree(t, i)
    ensures var (t', r) := ConsecutivePalloc(t, n);
            (IsFirstRun(t, n, r) && (r != 0 ==> t' == MarkRange(t, r, r + n, 1)))
            <==> (LowestFree(t) == 0 || FreeBlock(t, LowestFree(t), n))
  {
    var r := LowestFree(t);
    if r == 0 {
      forall lo ensures !FreeBlock(t, lo, n) {
        assert FreeBlock(t, lo, n) ==> IsFree(t, lo);
      }
    } else {
      forall lo | lo < r ensures !FreeBlock(t, lo, n) {
        assert FreeBlock(t, lo, n) ==> IsFree(t, lo);
      }
    }
  }

  /** A request for no pages answers the first page of the user range and takes nothing. */
  lemma NoPagesRequested(t: Table)
    ensures ConsecutivePalloc(t, 0) == (t, 0x4_0000)
  {
  }

  /** The call does not fit its purpose on a fragmented table: with the lowest free page followed
      by an allocated one, a request for two pages hands the allocated page out again. */
  lemma FragmentedTableHandsOutTakenPage(t: Table)
    requires IsFree(t, USERLO_PI) && IsTaken(t, USERLO_PI + 1)
    ensures var (t', r) := ConsecutivePalloc(t, 2);
            r == USERLO_PI && IsTaken(t, r + 1) && t' == MarkRange(t, r, r + 2, 1) && !IsFirstRun(t, 2, r)
  {
    LowestFreeUnique(t, USERLO_PI);
    assert !IsFree(t, USERLO_PI + 1);
  }

  /** Two adjacent blocks taken from the lowest free run and then freed are handed out again as
      one block by the next request for both lengths together. */
  lemma FreedNeighboursCoalesce(t: Table, n1: nat, n2: nat)
    requires n1 > 0 && n2 > 0 && LowestFree(t) != 0
    requires FreeBlock(t, LowestFree(t), n1 + n2)
    ensures var (t1, a) := ConsecutivePalloc(t, n1);
            var (t2, b) := ConsecutivePalloc(t1, n2);
            var t3 := MarkRange(MarkRange(t2, a, a + n1, 0), b, b + n2, 0);
            b == a + n1 && t3 == t
            && ConsecutivePalloc(t3, n1 + n2) == (MarkRange(t, a, a + n1 + n2, 1), a)
  {
    var a := LowestFree(t);
    var t1 := MarkRange(t, a, a + n1, 1);
    var t2 := MarkRange(t1, a + n1, a + n1 + n2, 1);
    assert ConsecutivePalloc(t, n1) == (t1, a);
    assert ConsecutivePalloc(t1, n2) == (t2, a + n1) by {
      MarkingMovesLowestFree(t, n1);
    }
    MarkThenClear(t, a, a + n1, a + n1 + n2);
    assert ConsecutivePalloc(t, n1 + n2) == (MarkRange(t, a, a + n1 + n2, 1), a);
  }

  lemma MarkingMovesLowestFree(t: Table, n: nat)
    requires LowestFree(t) != 0 && FreeBlock(t, LowestFree(t), n + 1)
    ensures LowestFree(MarkRange(t, LowestFree(t), LowestFree(t) + n, 1)) == LowestFree(t) + n
  {
    var a := LowestFree(t);
    var t1 := MarkRange(t, a, a + n, 1);
    forall j | USERLO_PI <= j < a + n ensures !IsFree(t1, j) {
      assert j < a ==> !IsFree(t, j);
    }
    assert IsFree(t, a + n);
    LowestFreeUnique(t1, a + n);
  }

  lemma MarkThenClear(t: Table, lo: int, mid: int, hi: int)
    requires lo <= mid <= hi && forall k :: lo <= k < hi ==> IsFree(t, k)
    ensures var marked := MarkRange(MarkRange(t, lo, mid, 1), mid, hi, 1);
            MarkRange(MarkRange(marked, lo, mid, 0), mid, hi, 0) == t
  {
    var marked := MarkRange(MarkRange(t, lo, mid, 1), mid, hi, 1);
    var cleared := MarkRange(MarkRange(marked, lo, mid, 0), mid, hi, 0);
    forall k | 0 <= k < TABLE_SIZE ensures cleared[k] == t[k] {
      assert lo <= k < hi ==> IsFree(t, k);
    }
  }

  /** Exactly the marked pages leave the set of free pages. */
  lemma PallocFreePages(t: Table)
    ensures var (t', r) := Palloc(t);
            (r != 0 ==> FreePages(t') == FreePages(t) - {r}
                        && |FreePages(t')| == |FreePages(t)| - 1
                        && (forall i :: IsTaken(t', i) <==> IsTaken(t, i) || i == r))
            && (r == 0 ==> t' == t)
            && (forall i :: IsNorm(t', i) <==> IsNorm(t, i))
  {
    var (t', r) := Palloc(t);
    if r != 0 {
      forall i ensures i in FreePages(t') <==> i in FreePages(t) - {r} {
      }
      assert r in FreePages(t);
    }
  }
}
