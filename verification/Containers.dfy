/** Memory quota containers (layer MContainer) on top of the allocation table, and the quota
    check made before a split (PKCtxNew).  Signed and unsigned 32-bit conversions are written out. */
module Containers {
  import opened Words
  import opened AllocTable

  const NUM_IDS := 64
  const MAX_CHILDREN := 3

  datatype Container = Container(quota: int, usage: int, parent: int, nchildren: int, used: bool)

  const Unused := Container(0, 0, 0, 0, false)

  type Pool = c: seq<Container> | |c| == NUM_IDS witness seq(64, _ => Unused)

  /** The state of physical memory management: the table and the containers. */
  datatype Pmm = Pmm(at: Table, cont: Pool)

  // ----- Operations

  predicate CanConsume(c: Pool, id: nat, n: Word) {
    id < NUM_IDS && c[id].used && n <= U32(c[id].quota - c[id].usage)
  }

  /** `container_split`: NUM_IDS when the parent has no child slot left. */
  function Split(m: Pmm, id: nat, quota: Word): (res: (Pmm, nat))
    requires id < NUM_IDS
  {
    var nc := U32(m.cont[id].nchildren);
    var child := id * MAX_CHILDREN + 1 + nc;
    if nc >= MAX_CHILDREN || NUM_IDS <= child then (m, NUM_IDS)
    else
      var parent := m.cont[id].(nchildren := m.cont[id].nchildren + 1, usage := S32(m.cont[id].usage + quota));
      (m.(cont := m.cont[id := parent][child := Container(S32(quota), 0, id, 0, true)]), child)
  }

  /** `kctx_new` as far as memory is concerned: check, then split. */
  function KctxNew(m: Pmm, id: nat, quota: Word): (res: (Pmm, nat))
  {
    if CanConsume(m.cont, id, quota) then Split(m, id, quota) else (m, NUM_IDS)
  }

  /** The share of its remaining quota that `proc_fork` gives to a child. */
  function ForkQuota(c: Pool, id: nat): (q: Word)
    requires id < NUM_IDS
  {
    var quota := if c[id].used then U32(c[id].quota) else 0;
    U32(quota - U32(c[id].usage)) / 2
  }

  /** `container_alloc`: the page is taken before the quota is looked at. */
  function Alloc(m: Pmm, id: nat): (res: (Pmm, nat))
    requires id < NUM_IDS
  {
    var (at, r) := Palloc(m.at);
    if r != 0 && m.cont[id].usage < m.cont[id].quota then
      (Pmm(at, m.cont[id := m.cont[id].(usage := m.cont[id].usage + 1)]), r)
    else
      (Pmm(at, m.cont), 0)
  }

  function ConsecutiveAlloc(m: Pmm, id: nat, len: Word): (res: (Pmm, nat))
    requires id < NUM_IDS
  {
    if U32(m.cont[id].usage + len) > U32(m.cont[id].quota) then (m, 0)
    else
      var (at, r) := ConsecutivePalloc(m.at, len);
      if r != 0 && m.cont[id].usage < m.cont[id].quota then
        (Pmm(at, m.cont[id := m.cont[id].(usage := S32(m.cont[id].usage + len))]), r)
      else
        (Pmm(at, m.cont), 0)
  }

  function Free(m: Pmm, id: nat, page: nat): (r: Pmm)
    requires id < NUM_IDS && page < TABLE_SIZE
  {
    if m.cont[id].usage > 0 then
      Pmm(SetAllocated(m.at, page, 0), m.cont[id := m.cont[id].(usage := m.cont[id].usage - 1)])
    else m
  }

  function ConsecutiveFree(m: Pmm, id: nat, page: nat, len: Word): (r: Pmm)
    requires id < NUM_IDS
  {
    Pmm(MarkRange(m.at, page, page + len, 0),
        m.cont[id := m.cont[id].(usage := S32(m.cont[id].usage - len))])
  }

  // ----- Invariants

  /** `x` is child number `k` of the container `p`. */
  ghost predicate IsChild(c: Pool, p: int, k: int, x: int) {
    0 <= p < NUM_IDS && c[p].used && 0 <= k < c[p].nchildren && x == 3 * p + 1 + k
  }

  /** `x` is in use exactly when it is the child its position in the heap layout makes it. */
  ghost predicate Linked(c: Pool, x: int)
    requires 1 <= x < NUM_IDS
  {
    && (c[x].used <==> IsChild(c, (x - 1) / 3, (x - 1) % 3, x))
    && (c[x].used ==> c[x].parent == (x - 1) / 3)
  }

  /** The used containers form a tree laid out like a ternary heap. */
  ghost predicate Forest(c: Pool) {
    && c[0].used && c[0].parent == 0
    && (forall x :: 0 <= x < NUM_IDS ==> 0 <= c[x].nchildren <= MAX_CHILDREN)
    && (forall x :: 0 <= x < NUM_IDS && c[x].nchildren > 0 ==> 3 * x + c[x].nchildren < NUM_IDS)
    && (forall x :: 1 <= x < NUM_IDS ==> Linked(c, x))
    && (forall x :: 0 <= x < NUM_IDS && !c[x].used ==> c[x] == Unused)
  }

  /** No container is over its quota; quotas are page counts, so no conversion wraps. */
  ghost predicate Solvent(c: Pool) {
    forall x :: 0 <= x < NUM_IDS ==> 0 <= c[x].usage <= c[x].quota <= TABLE_SIZE
  }

  /** Normal pages lie in the user page range. */
  ghost predicate NormalInUserRange(t: Table) {
    forall i :: IsNorm(t, i) ==> USERLO_PI <= i < USERHI_PI
  }

  function Slack(c: Container): int { c.quota - c.usage }

  function SlackUpTo(c: Pool, n: nat): (s: int)
    requires n <= NUM_IDS
    decreases n, c
  {
    if n == 0 then 0 else SlackUpTo(c, n - 1) + Slack(c[n - 1])
  }

  /** The pages all containers together may still ask for. */
  function TotalSlack(c: Pool): (s: int) {
    SlackUpTo(c, NUM_IDS)
  }

  /** Pages that are neither free nor promised to any container. */
  ghost function Lost(m: Pmm): (n: int) {
    TotalSlack(m.cont) - |FreePages(m.at)|
  }

  ghost predicate PmmInv(m: Pmm) {
    Forest(m.cont) && Solvent(m.cont) && NormalInUserRange(m.at) && Lost(m) >= 0
  }

  lemma {:induction false} SlackUpToUpdate(c: Pool, id: nat, x: Container, n: nat)
    requires id < NUM_IDS && n <= NUM_IDS
    ensures SlackUpTo(c[id := x], n) == SlackUpTo(c, n) + (if id < n then Slack(x) - Slack(c[id]) else 0)
  {
    if n > 0 {
      SlackUpToUpdate(c, id, x, n - 1);
    }
  }

  lemma SlackUpdate(c: Pool, id: nat, x: Container)
    requires id < NUM_IDS
    ensures TotalSlack(c[id := x]) == TotalSlack(c) + Slack(x) - Slack(c[id])
  {
    SlackUpToUpdate(c, id, x, NUM_IDS);
  }

  lemma {:induction false} SlackAtLeast(c: Pool, id: nat, n: nat)
    requires Solvent(c) && n <= NUM_IDS
    ensures SlackUpTo(c, n) >= 0
    ensures id < n ==> SlackUpTo(c, n) >= Slack(c[id])
  {
    if n > 0 {
      SlackAtLeast(c, id, n - 1);
    }
  }

  /** The used ids other than 0 are exactly 3p + 1 + k for a used p and k < nchildren[p]. */
  lemma ForestIds(c: Pool, x: int)
    requires Forest(c) && 1 <= x < NUM_IDS
    ensures c[x].used <==> exists p, k :: IsChild(c, p, k, x)
    ensures c[x].used ==> c[x].parent == (x - 1) / 3
  {
    assert Linked(c, x);
    assert forall p, k :: IsChild(c, p, k, x) ==> p == (x - 1) / 3 && k == (x - 1) % 3;
  }

  /** There is a free child slot under `id`, which is in use. */
  predicate HasSlot(c: Pool, id: nat) {
    id < NUM_IDS && c[id].used && 0 <= c[id].nchildren < MAX_CHILDREN && 3 * id + 1 + c[id].nchildren < NUM_IDS
  }

  /** The containers after a split in which nothing wraps. */
  function Grown(c: Pool, id: nat, quota: nat): (r: Pool)
    requires HasSlot(c, id)
  {
    c[id := c[id].(usage := c[id].usage + quota, nchildren := c[id].nchildren + 1)]
     [3 * id + 1 + c[id].nchildren := Container(quota, 0, id, 0, true)]
  }

  lemma GrownForest(c: Pool, id: nat, quota: nat)
    requires Forest(c) && HasSlot(c, id)
    ensures !c[3 * id + 1 + c[id].nchildren].used
    ensures Forest(Grown(c, id, quota))
  {
    SlotIsFree(c, id);
    var c' := Grown(c, id, quota);
    forall x | 1 <= x < NUM_IDS ensures Linked(c', x) {
      assert Linked(c, x);
      GrownLinked(c, id, quota, x);
    }
    hide Linked;
  }

  lemma SlotIsFree(c: Pool, id: nat)
    requires HasSlot(c, id) && forall x :: 1 <= x < NUM_IDS ==> Linked(c, x)
    ensures !c[3 * id + 1 + c[id].nchildren].used
  {
    var nc := c[id].nchildren;
    var child := 3 * id + 1 + nc;
    assert (child - 1) / 3 == id && (child - 1) % 3 == nc;
    assert Linked(c, child);
  }

  lemma GrownLinked(c: Pool, id: nat, quota: nat, x: int)
    requires HasSlot(c, id) && 1 <= x < NUM_IDS && Linked(c, x) && !c[3 * id + 1 + c[id].nchildren].used
    ensures Linked(Grown(c, id, quota), x)
  {
    var nc := c[id].nchildren;
    var child := 3 * id + 1 + nc;
    assert (child - 1) / 3 == id && (child - 1) % 3 == nc;
    assert (x - 1) / 3 == id && (x - 1) % 3 == nc ==> x == child;
  }

  lemma GrownSlack(c: Pool, id: nat, quota: nat)
    requires HasSlot(c, id) && c[3 * id + 1 + c[id].nchildren] == Unused
    ensures TotalSlack(Grown(c, id, quota)) == TotalSlack(c)
  {
    var parent := c[id].(usage := c[id].usage + quota, nchildren := c[id].nchildren + 1);
    SlackUpdate(c, id, parent);
    SlackUpdate(c[id := parent], 3 * id + 1 + c[id].nchildren, Container(quota, 0, id, 0, true));
  }

  lemma UsageForest(c: Pool, id: nat, usage: int)
    requires Forest(c) && id < NUM_IDS && c[id].used
    ensures Forest(c[id := c[id].(usage := usage)])
  {
    var c' := c[id := c[id].(usage := usage)];
    forall x | 1 <= x < NUM_IDS ensures Linked(c', x) {
      assert Linked(c, x);
    }
  }

  /** Under the invariant no conversion wraps, so the check and the split read as written. */
  lemma KctxNewForm(m: Pmm, id: nat, quota: Word)
    requires Forest(m.cont) && Solvent(m.cont)
    ensures KctxNew(m, id, quota) ==
            if HasSlot(m.cont, id) && quota <= Slack(m.cont[id])
            then (m.(cont := Grown(m.cont, id, quota)), 3 * id + 1 + m.cont[id].nchildren)
            else (m, NUM_IDS)
  {
  }

  /** A checked split: the child is new, the forest grows by it, and nothing is gained or lost. */
  lemma KctxNewKeeps(m: Pmm, id: nat, quota: Word)
    requires PmmInv(m)
    ensures var (m', child) := KctxNew(m, id, quota);
            PmmInv(m') && Lost(m') == Lost(m) && m'.at == m.at
            && (child == NUM_IDS ==> m' == m)
            && (child != NUM_IDS ==> id < child < NUM_IDS && m.cont[id].used && !m.cont[child].used)
  {
    KctxNewForm(m, id, quota);
    hide KctxNew, Grown, PmmInv, Forest, Solvent, NormalInUserRange, Lost;
    if HasSlot(m.cont, id) && quota <= Slack(m.cont[id]) {
      GrownKeeps(m, id, quota);
    }
  }

  lemma GrownKeeps(m: Pmm, id: nat, quota: Word)
    requires PmmInv(m) && HasSlot(m.cont, id) && quota <= Slack(m.cont[id])
    ensures var m' := m.(cont := Grown(m.cont, id, quota));
            PmmInv(m') && Lost(m') == Lost(m) && !m.cont[3 * id + 1 + m.cont[id].nchildren].used
  {
    GrownForest(m.cont, id, quota);
    GrownSlack(m.cont, id, quota);
    hide Forest, Linked, NormalInUserRange, TotalSlack;
  }

  /** What a checked split gives the child, and takes from the parent. */
  ghost predicate SplitGives(m: Pmm, m': Pmm, id: nat, quota: int, child: nat)
  {
    && id < child < NUM_IDS
    && m'.cont[child].quota == quota && m'.cont[child].usage == 0 && m'.cont[child].parent == id
    && m'.cont[child].nchildren == 0 && m'.cont[child].used
    && m'.cont[id].usage == m.cont[id].usage + quota && m'.cont[id].nchildren == m.cont[id].nchildren + 1
    && m'.cont[id].quota == m.cont[id].quota && m'.cont[id].parent == m.cont[id].parent && m'.cont[id].used
    && m'.at == m.at
    && forall x :: 0 <= x < NUM_IDS && x != id && x != child ==> m'.cont[x] == m.cont[x]
  }

  /** It succeeds exactly when there is a child slot and the quota fits, and gives exactly that. */
  lemma KctxNewGives(m: Pmm, id: nat, quota: Word)
    requires Forest(m.cont) && Solvent(m.cont)
    ensures var (m', child) := KctxNew(m, id, quota);
            (child != NUM_IDS <==> HasSlot(m.cont, id) && quota <= Slack(m.cont[id]))
            && (child == NUM_IDS ==> m' == m)
            && (child != NUM_IDS ==> child == 3 * id + 1 + m.cont[id].nchildren && SplitGives(m, m', id, quota, child))
  {
    KctxNewForm(m, id, quota);
  }

  lemma SplitLeavesTable(m: Pmm, id: nat, quota: Word)
    ensures KctxNew(m, id, quota).0.at == m.at
  {
  }

  /** With its own quota halved, a fork is refused only for want of a child slot. */
  lemma ForkQuotaAlwaysFits(m: Pmm, id: nat)
    requires PmmInv(m) && id < NUM_IDS && m.cont[id].used
    ensures ForkQuota(m.cont, id) == Slack(m.cont[id]) / 2
    ensures CanConsume(m.cont, id, ForkQuota(m.cont, id))
  {
  }

  lemma LowestFreeOfRange(t: Table)
    requires NormalInUserRange(t)
    ensures LowestFree(t) == 0 <==> |FreePages(t)| == 0
  {
    if LowestFree(t) != 0 {
      assert LowestFree(t) in FreePages(t);
    } else {
      assert forall i :: IsFree(t, i) ==> IsNorm(t, i);
      assert FreePages(t) == {};
    }
  }

  /** The invariant without the books: a broken block request can leave fewer pages than are promised. */
  ghost predicate Sound(m: Pmm) {
    Forest(m.cont) && Solvent(m.cont) && NormalInUserRange(m.at)
  }

  lemma AllocSound(m: Pmm, id: nat)
    requires Sound(m) && id < NUM_IDS
    ensures var (m', r) := Alloc(m, id);
            var free := LowestFree(m.at);
            Sound(m')
            && (r != 0 <==> free != 0 && m.cont[id].usage < m.cont[id].quota)
            && (r != 0 ==> r == free && m'.cont == m.cont[id := m.cont[id].(usage := m.cont[id].usage + 1)])
            && (r == 0 ==> m'.cont == m.cont)
            && m'.at == (if free == 0 then m.at else SetAllocated(m.at, free, 1))
            && |FreePages(m'.at)| == |FreePages(m.at)| - (if free != 0 then 1 else 0)
            && Lost(m') == Lost(m) + (if free != 0 && r == 0 then 1 else 0)
  {
    var (m', r) := Alloc(m, id);
    PallocFreePages(m.at);
    if r != 0 {
      UsageForest(m.cont, id, m.cont[id].usage + 1);
      SlackUpdate(m.cont, id, m'.cont[id]);
    }
  }

  /** A single allocation: served exactly when the container is under quota and a page is free; a
      page is lost exactly when one is free and the container is not under quota. */
  lemma AllocKeeps(m: Pmm, id: nat)
    requires PmmInv(m) && id < NUM_IDS
    ensures var (m', r) := Alloc(m, id);
            var free := LowestFree(m.at);
            PmmInv(m')
            && (r != 0 <==> free != 0 && m.cont[id].usage < m.cont[id].quota)
            && (r != 0 ==> r == free && m'.cont == m.cont[id := m.cont[id].(usage := m.cont[id].usage + 1)])
            && (r == 0 ==> m'.cont == m.cont)
            && m'.at == (if free == 0 then m.at else SetAllocated(m.at, free, 1))
            && Lost(m') == Lost(m) + (if free != 0 && r == 0 then 1 else 0)
  {
    hide Forest, Solvent, NormalInUserRange, Lost, Alloc;
    AllocSound(m, id);
  }

  /** Freeing a page that was handed out to a container in use gives it back to the free pages. */
  lemma FreeKeeps(m: Pmm, id: nat, page: nat)
    requires PmmInv(m) && id < NUM_IDS && m.cont[id].usage > 0 && IsTaken(m.at, page)
    ensures var m' := Free(m, id, page);
            PmmInv(m') && Lost(m') == Lost(m)
            && FreePages(m'.at) == FreePages(m.at) + {page}
            && m'.cont == m.cont[id := m.cont[id].(usage := m.cont[id].usage - 1)]
            && (forall i :: IsTaken(m'.at, i) <==> IsTaken(m.at, i) && i != page)
  {
    var m' := Free(m, id, page);
    assert FreePages(m'.at) == FreePages(m.at) + {page};
    assert page !in FreePages(m.at);
    UsageForest(m.cont, id, m.cont[id].usage - 1);
    SlackUpdate(m.cont, id, m'.cont[id]);
    assert forall i :: IsNorm(m'.at, i) <==> IsNorm(m.at, i);
  }

  /** A container that has nothing in use frees nothing. */
  lemma FreeWithoutUsage(m: Pmm, id: nat, page: nat)
    requires id < NUM_IDS && page < TABLE_SIZE && m.cont[id].usage <= 0
    ensures Free(m, id, page) == m
  {
  }

  /** A page allocated and freed again leaves everything as it was. */
  lemma AllocFreeRoundTrip(m: Pmm, id: nat)
    requires PmmInv(m) && id < NUM_IDS && Alloc(m, id).1 != 0
    ensures var (m1, page) := Alloc(m, id);
            page < TABLE_SIZE && Free(m1, id, page) == m
  {
    AllocKeeps(m, id);
    var (m1, page) := Alloc(m, id);
    assert SetAllocated(m1.at, page, 0) == m.at;
    assert m1.cont[id := m.cont[id]] == m.cont;
  }

  /** So does a block, where the lowest free page starts one; elsewhere freeing it also frees the
      pages it should not have marked. */
  lemma BlockRoundTrip(m: Pmm, id: nat, len: Word)
    requires PmmInv(m) && id < NUM_IDS && len >= 1 && m.cont[id].usage + len <= m.cont[id].quota
    requires LowestFree(m.at) != 0 && LowestFree(m.at) + len <= USERHI_PI
    ensures var (m1, r) := ConsecutiveAlloc(m, id, len);
            r == LowestFree(m.at) && ConsecutiveFree(m1, id, r, len).cont == m.cont
            && (ConsecutiveFree(m1, id, r, len) == m <==> forall k :: r <= k < r + len ==> m.at[k].taken == 0)
  {
    var (m1, r) := ConsecutiveAlloc(m, id, len);
    var m2 := ConsecutiveFree(m1, id, r, len);
    assert m2.cont == m.cont;
    assert forall k :: 0 <= k < TABLE_SIZE ==> m2.at[k] == if r <= k < r + len then m.at[k].(taken := 0) else m.at[k];
    if forall k :: r <= k < r + len ==> m.at[k].taken == 0 {
      assert m2.at == m.at;
    }
  }

  /** Quotas are backed by pages: while nothing was lost, a container under quota gets a page. */
  lemma UnderQuotaIsServed(m: Pmm, id: nat)
    requires PmmInv(m) && Lost(m) == 0 && id < NUM_IDS
    ensures Alloc(m, id).1 != 0 <==> m.cont[id].usage < m.cont[id].quota
  {
    LowestFreeOfRange(m.at);
    SlackAtLeast(m.cont, id, NUM_IDS);
  }
}
