/** The allocation table as the code keeps it: one static array updated in place. */
module PageAllocator {
  import opened AllocTable

  /** The global `AT` array with the operations of MATIntro and MATOp. */
  class Allocator {
    const at: array<PageInfo>

    ghost predicate Valid() {
      at.Length == TABLE_SIZE
    }

    ghost function Contents(): (t: Table)
      requires Valid()
      reads at
    {
      at[..]
    }

    /** The static array before `pmem_init`. */
    constructor ()
      ensures Valid() && fresh(at)
      ensures forall i :: 0 <= i < TABLE_SIZE ==> Contents()[i] == PageInfo(0, 0)
    {
      at := new PageInfo[TABLE_SIZE](_ => PageInfo(0, 0));
    }

    method SetPerm(i: nat, perm: nat)
      requires Valid() && i < TABLE_SIZE
      modifies at
      ensures Contents() == old(Contents())[i := PageInfo(perm, 0)]
    {
      at[i] := PageInfo(perm, 0);
    }

    method Palloc() returns (r: nat)
      requires Valid()
      modifies at
      ensures (Contents(), r) == AllocTable.Palloc(old(Contents()))
    {
      var i := USERLO_PI;
      while i < USERHI_PI
        invariant USERLO_PI <= i <= USERHI_PI
        invariant Contents() == old(Contents())
        invariant FirstFree(Contents(), i) == LowestFree(Contents())
      {
        if at[i].perm > 1 && at[i].taken == 0 {
          at[i] := at[i].(taken := 1);
          return i;
        }
        i := i + 1;
      }
      return 0;
    }

    method ConsecutivePalloc(pageNum: nat) returns (r: nat)
      requires Valid()
      modifies at
      ensures (Contents(), r) == AllocTable.ConsecutivePalloc(old(Contents()), pageNum)
    {
      var cnt: nat := pageNum;
      var i: nat := USERLO_PI;
      while i < USERHI_PI
        invariant USERLO_PI <= i <= USERHI_PI
        invariant Contents() == old(Contents())
        invariant forall j :: USERLO_PI <= j < i ==> !IsFree(Contents(), j)
        invariant pageNum == 0 ==> cnt == 0 && i == USERLO_PI
        invariant pageNum > 0 ==> 1 <= cnt <= pageNum
        invariant cnt < pageNum ==> i < USERHI_PI && IsFree(Contents(), i) && MarkedCount(i, cnt) == MarkedCount(i, pageNum)
        decreases USERHI_PI - i, cnt
      {
        ghost var i0, cnt0 := i, cnt;
        var end := i;
        while end < USERHI_PI && cnt > 0
          invariant i == i0 && i <= end <= USERHI_PI && cnt == cnt0 - (end - i)
          invariant end > i ==> IsFree(Contents(), i)
        {
          if at[i].perm <= 1 || at[i].taken != 0 {
            cnt := pageNum;
            i := end + 1;
            break;
          } else {
            cnt := cnt - 1;
            end := end + 1;
          }
        }
        if cnt == 0 {
          MarkPages(i, end, 1);
          if pageNum == 0 {
            MarkRangeEmpty(old(Contents()), i, 1);
          } else {
            LowestFreeUnique(old(Contents()), i);
          }
          return i;
        }
      }
      assert LowestFree(Contents()) == 0;
      return 0;
    }

    /** The marking loops of the consecutive allocator and of `consecutive_pfree`. */
    method MarkPages(lo: nat, hi: nat, v: nat)
      requires Valid() && lo <= hi <= TABLE_SIZE
      modifies at
      ensures Contents() == MarkRange(old(Contents()), lo, hi, v)
    {
      var start := lo;
      MarkRangeEmpty(Contents(), lo, v);
      while start < hi
        invariant lo <= start <= hi
        invariant Contents() == MarkRange(old(Contents()), lo, start, v)
      {
        MarkRangeStep(old(Contents()), lo, start, v);
        at[start] := at[start].(taken := v);
        start := start + 1;
      }
    }

    method Pfree(i: nat)
      requires Valid() && i < TABLE_SIZE
      modifies at
      ensures Contents() == SetAllocated(old(Contents()), i, 0)
    {
      at[i] := at[i].(taken := 0);
    }

    method ConsecutivePfree(i: nat, len: nat)
      requires Valid() && i + len <= TABLE_SIZE
      modifies at
      ensures Contents() == MarkRange(old(Contents()), i, i + len, 0)
    {
      MarkPages(i, i + len, 0);
    }
  }
}
