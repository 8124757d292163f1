/** The `CONTAINER` array with the operations of MContainer, on top of the page allocator. */
module ContainerTable {
  import opened Words
  import opened AllocTable
  import opened PageAllocator
  import opened Containers
  import Ledger

  const NPS := 0xF_FFFF  // 0xFFFFFFFF / 4096

  /** The free pages below `n`, as the loop of `container_init` counts them. */
  function CountFree(t: Table, n: nat): (q: nat)
    requires n <= TABLE_SIZE
    ensures q <= n
    decreases n, t
  {
    if n == 0 then 0 else CountFree(t, n - 1) + if IsFree(t, n - 1) then 1 else 0
  }

  lemma {:induction false} CountIsSetSize(t: Table, n: nat)
    requires n <= TABLE_SIZE
    ensures CountFree(t, n) == |set i | 0 <= i < n && IsFree(t, i)|
  {
    var s := set i | 0 <= i < n && IsFree(t, i);
    if n == 0 {
      assert s == {};
    } else {
      var s1 := set i | 0 <= i < n - 1 && IsFree(t, i);
      CountIsSetSize(t, n - 1);
      assert s == if IsFree(t, n - 1) then s1 + {n - 1} else s1;
    }
  }

  /** Where normal pages lie in the user range, the count is the number of free pages. */
  lemma CountIsFreePages(t: Table)
    requires NormalInUserRange(t)
    ensures CountFree(t, NPS) == |FreePages(t)|
  {
    CountIsSetSize(t, NPS);
    var s := set i | 0 <= i < NPS && IsFree(t, i);
    forall i ensures i in s <==> i in FreePages(t) {
      assert IsFree(t, i) ==> IsNorm(t, i);
    }
    assert s == FreePages(t);
  }

  class ContainerArray {
    const alloc: Allocator
    const cont: array<Container>

    ghost predicate Valid() {
      alloc.Valid() && cont.Length == NUM_IDS && alloc.at as object != cont
    }

    ghost function State(): (m: Pmm)
      requires Valid()
      reads alloc.at, cont
    {
      Pmm(alloc.Contents(), cont[..])
    }

    constructor ()
      ensures Valid() && fresh(alloc.at) && fresh(cont)
      ensures forall i :: 0 <= i < NUM_IDS ==> State().cont[i] == Unused
      ensures forall i :: 0 <= i < TABLE_SIZE ==> State().at[i] == PageInfo(0, 0)
    {
      alloc := new Allocator();
      cont := new Container[NUM_IDS](_ => Unused);
    }

    /** `container_init` after the table is set up. */
    method Init()
      requires Valid()
      modifies cont
      ensures State() == Pmm(old(State().at), old(State().cont)[0 := Container(CountFree(old(State().at), NPS), 0, 0, 0, true)])
      ensures NormalInUserRange(old(State().at)) && (forall i :: 0 <= i < NUM_IDS ==> old(State().cont)[i] == Unused) ==>
                State() == Ledger.Boot(old(State().at)).m
    {
      var realQuota := 0;
      var i := 0;
      while i < NPS
        invariant 0 <= i <= NPS && State() == old(State())
        invariant realQuota == CountFree(State().at, i)
      {
        if alloc.at[i].perm > 1 && alloc.at[i].taken == 0 {
          realQuota := realQuota + 1;
        }
        i := i + 1;
      }
      cont[0] := Container(realQuota, 0, 0, 0, true);
      if NormalInUserRange(State().at) && forall i :: 0 <= i < NUM_IDS ==> old(State().cont)[i] == Unused {
        CountIsFreePages(State().at);
        assert State().cont == Ledger.BootPool(realQuota);
      }
    }

    method CanConsume(id: nat, n: Word) returns (ok: bool)
      requires Valid()
      ensures ok == Containers.CanConsume(State().cont, id, n)
    {
      if id < NUM_IDS && cont[id].used {
        if n <= U32(cont[id].quota - cont[id].usage) {
          return true;
        }
      }
      return false;
    }

    method Split(id: nat, quota: Word) returns (child: nat)
      requires Valid() && id < NUM_IDS
      modifies cont
      ensures (State(), child) == Containers.Split(old(State()), id, quota)
    {
      var nc := U32(cont[id].nchildren);
      if nc >= MAX_CHILDREN {
        return NUM_IDS;
      }
      child := id * MAX_CHILDREN + 1 + nc;
      if NUM_IDS <= child {
        return NUM_IDS;
      }
      cont[id] := cont[id].(nchildren := cont[id].nchildren + 1);
      cont[id] := cont[id].(usage := S32(cont[id].usage + quota));
      cont[child] := Container(S32(quota), 0, id, 0, true);
      assert cont[..] == Containers.Split(old(State()), id, quota).0.cont;
    }

    /** `kctx_new`, its context writes left out. */
    method KctxNew(id: nat, quota: Word) returns (child: nat)
      requires Valid()
      modifies cont
      ensures (State(), child) == Containers.KctxNew(old(State()), id, quota)
    {
      var ok := CanConsume(id, quota);
      if !ok {
        return NUM_IDS;
      }
      child := Split(id, quota);
    }

    method Alloc(id: nat) returns (page: nat)
      requires Valid() && id < NUM_IDS
      modifies alloc.at, cont
      ensures (State(), page) == Containers.Alloc(old(State()), id)
    {
      var r := alloc.Palloc();
      if r != 0 && cont[id].usage < cont[id].quota {
        cont[id] := cont[id].(usage := cont[id].usage + 1);
        return r;
      } else {
        return 0;
      }
    }

    method ConsecutiveAlloc(id: nat, len: Word) returns (page: nat)
      requires Valid() && id < NUM_IDS
      modifies alloc.at, cont
      ensures (State(), page) == Containers.ConsecutiveAlloc(old(State()), id, len)
    {
      if U32(cont[id].usage + len) > U32(cont[id].quota) {
        return 0;
      }
      var r := alloc.ConsecutivePalloc(len);
      if r != 0 && cont[id].usage < cont[id].quota {
        cont[id] := cont[id].(usage := S32(cont[id].usage + len));
        return r;
      } else {
        return 0;
      }
    }

    method Free(id: nat, page: nat)
      requires Valid() && id < NUM_IDS && page < TABLE_SIZE
      modifies alloc.at, cont
      ensures State() == Containers.Free(old(State()), id, page)
    {
      if cont[id].usage > 0 {
        cont[id] := cont[id].(usage := cont[id].usage - 1);
        alloc.Pfree(page);
      }
    }

    method ConsecutiveFree(id: nat, page: nat, len: Word)
      requires Valid() && id < NUM_IDS && page + len <= TABLE_SIZE
      modifies alloc.at, cont
      ensures State() == Containers.ConsecutiveFree(old(State()), id, page, len)
    {
      cont[id] := cont[id].(usage := S32(cont[id].usage - len));
      alloc.ConsecutivePfree(page, len);
    }
  }
}
