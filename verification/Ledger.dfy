/** Whole runs of the container layer, with the bookkeeping that makes conservation exact: who
    owns each page, and which pages were taken from the table but given to nobody. */
module Ledger {
  import opened Words
  import opened AllocTable
  import opened Containers

  datatype Ledger = Ledger(m: Pmm, owner: map<int, nat>, lost: set<int>)

  datatype Event =
    | Spawn(id: nat, quota: Word)
    | AllocPage(id: nat)
    | FreePage(id: nat, page: nat)
    | AllocBlock(id: nat, len: Word)

  /** What a caller respects: valid ids, frees by the owner of the page. */
  predicate Enabled(l: Ledger, e: Event) {
    match e
    case Spawn(id, quota) => true
    case AllocPage(id) => id < NUM_IDS
    case FreePage(id, page) => id < NUM_IDS && page < TABLE_SIZE && page in l.owner && l.owner[page] == id
    case AllocBlock(id, len) => id < NUM_IDS && len >= 1
  }

  function Step(l: Ledger, e: Event): (r: Ledger)
    requires Enabled(l, e)
  {
    match e
    case Spawn(id, quota) => l.(m := KctxNew(l.m, id, quota).0)
    case AllocPage(id) =>
      var (m, r) := Alloc(l.m, id);
      var free := LowestFree(l.m.at);
      if r != 0 then Ledger(m, l.owner[r := id], l.lost)
      else Ledger(m, l.owner, if free != 0 then l.lost + {free} else l.lost)
    case FreePage(id, page) => Ledger(Free(l.m, id, page), l.owner - {page}, l.lost)
    case AllocBlock(id, len) =>
      var (m, r) := ConsecutiveAlloc(l.m, id, len);
      if r != 0 then Ledger(m, l.owner + Block(r, len, id), l.lost) else l.(m := m)
  }

  function Block(lo: nat, len: nat, id: nat): (b: map<int, nat>) {
    map i | lo <= i < lo + len && InBlock(lo, len, i) :: id
  }

  predicate InBlock(lo: int, len: int, i: int) {
    lo <= i < lo + len
  }

  predicate RunOk(l: Ledger, evs: seq<Event>)
    decreases |evs|
  {
    evs == [] || (Enabled(l, evs[0]) && RunOk(Step(l, evs[0]), evs[1..]))
  }

  function Run(l: Ledger, evs: seq<Event>): (r: Ledger)
    requires RunOk(l, evs)
    decreases |evs|
  {
    if evs == [] then l else Run(Step(l, evs[0]), evs[1..])
  }

  // ----- Invariant

  function ChildQuota(c: Pool, p: nat, k: nat): (q: int)
    requires p < NUM_IDS && k < MAX_CHILDREN
  {
    if k < c[p].nchildren && 3 * p + 1 + k < NUM_IDS then c[3 * p + 1 + k].quota else 0
  }

  /** The quotas a container has given to its children. */
  function Given(c: Pool, p: nat): (q: int)
    requires p < NUM_IDS
  {
    ChildQuota(c, p, 0) + ChildQuota(c, p, 1) + ChildQuota(c, p, 2)
  }

  ghost function Owned(owner: map<int, nat>, p: nat): (s: set<int>) {
    set i | i in owner && owner[i] == p
  }

  /** Every page handed out has one owner or is lost, and every usage counter is the number of
      pages owned plus the quotas given to children. */
  ghost predicate Books(l: Ledger) {
    && l.owner.Keys !! l.lost
    && (forall i :: IsTaken(l.m.at, i) <==> i in l.owner.Keys + l.lost)
    && (forall p :: 0 <= p < NUM_IDS ==> Balanced(l, p))
  }

  ghost predicate Balanced(l: Ledger, p: nat)
    requires p < NUM_IDS
  {
    l.m.cont[p].usage == |Owned(l.owner, p)| + Given(l.m.cont, p)
  }

  ghost predicate Inv(l: Ledger) {
    PmmInv(l.m) && Books(l) && Lost(l.m) == |l.lost|
  }

  // ----- One step

  lemma GrownGiven(c: Pool, id: nat, quota: nat, p: nat)
    requires Forest(c) && HasSlot(c, id) && p < NUM_IDS
    ensures var child := 3 * id + 1 + c[id].nchildren;
            Given(Grown(c, id, quota), p) == if p == id then Given(c, id) + quota else Given(c, p)
  {
    var c' := Grown(c, id, quota);
    var child := 3 * id + 1 + c[id].nchildren;
    GrownForest(c, id, quota);
    assert c[child] == Unused;
    forall k | 0 <= k < MAX_CHILDREN
      ensures ChildQuota(c', p, k) == if p == id && k == c[id].nchildren then quota else ChildQuota(c, p, k)
    {
      assert 3 * p + 1 + k == child ==> p == id && k == c[id].nchildren;
    }
  }

  lemma SpawnKeeps(l: Ledger, id: nat, quota: Word)
    requires Inv(l)
    ensures Inv(Step(l, Spawn(id, quota)))
  {
    KctxNewKeeps(l.m, id, quota);
    KctxNewForm(l.m, id, quota);
    var l' := Step(l, Spawn(id, quota));
    if HasSlot(l.m.cont, id) && quota <= Slack(l.m.cont[id]) {
      GrownForest(l.m.cont, id, quota);
      forall p | 0 <= p < NUM_IDS ensures Balanced(l', p) {
        GrownGiven(l.m.cont, id, quota, p);
        assert Balanced(l, p);
      }
    } else {
      assert l' == l;
    }
  }

  /** The split the event makes: it succeeds when it should, and the child gets the quota asked for. */
  lemma SpawnGives(l: Ledger, id: nat, quota: Word)
    requires Inv(l)
    ensures var (m', child) := (Step(l, Spawn(id, quota)).m, 3 * id + 1 + (if id < NUM_IDS then l.m.cont[id].nchildren else 0));
            if HasSlot(l.m.cont, id) && quota <= Slack(l.m.cont[id]) then SplitGives(l.m, m', id, quota, child) else m' == l.m
  {
    KctxNewGives(l.m, id, quota);
  }

  lemma GivenIgnoresUsage(c: Pool, id: nat, usage: int, p: nat)
    requires id < NUM_IDS && p < NUM_IDS
    ensures Given(c[id := c[id].(usage := usage)], p) == Given(c, p)
  {
  }

  lemma BalancedAfterChange(l: Ledger, l': Ledger, id: nat, d: int, p: nat)
    requires id < NUM_IDS && p < NUM_IDS && Balanced(l, p)
    requires l'.m.cont == l.m.cont[id := l.m.cont[id].(usage := l.m.cont[id].usage + d)]
    requires |Owned(l'.owner, p)| == |Owned(l.owner, p)| + (if p == id then d else 0)
    ensures Balanced(l', p)
  {
    GivenIgnoresUsage(l.m.cont, id, l.m.cont[id].usage + d, p);
  }

  /** The books after the pages [lo, lo + len) have been taken and given to `id`. */
  lemma BooksAfterGrant(l: Ledger, m': Pmm, id: nat, lo: nat, len: nat)
    requires Books(l) && id < NUM_IDS
    requires forall i :: lo <= i < lo + len ==> !IsTaken(l.m.at, i)
    requires forall i :: IsTaken(m'.at, i) <==> IsTaken(l.m.at, i) || lo <= i < lo + len
    requires m'.cont == l.m.cont[id := l.m.cont[id].(usage := l.m.cont[id].usage + len)]
    ensures Books(Ledger(m', l.owner + Block(lo, len, id), l.lost))
  {
    var l' := Ledger(m', l.owner + Block(lo, len, id), l.lost);
    assert forall i :: lo <= i < lo + len ==> i !in l.owner.Keys + l.lost;
    forall i ensures i in l'.owner.Keys <==> i in l.owner.Keys || lo <= i < lo + len {
      assert InBlock(lo, len, i) <==> lo <= i < lo + len;
    }
    forall p | 0 <= p < NUM_IDS ensures Balanced(l', p) {
      assert Balanced(l, p);
      OwnedAfterGrant(l.owner, lo, len, id, p);
      BalancedAfterChange(l, l', id, len, p);
    }
  }

  /** The books after page `page` has been taken and given to nobody. */
  lemma BooksAfterLoss(l: Ledger, m': Pmm, page: int)
    requires Books(l) && !IsTaken(l.m.at, page) && m'.cont == l.m.cont
    requires forall i :: IsTaken(m'.at, i) <==> IsTaken(l.m.at, i) || i == page
    ensures Books(Ledger(m', l.owner, l.lost + {page}))
  {
    var l' := Ledger(m', l.owner, l.lost + {page});
    assert page !in l.owner.Keys + l.lost;
    forall p | 0 <= p < NUM_IDS ensures Balanced(l', p) {
      assert Balanced(l, p);
    }
  }

  lemma AllocPageBooks(l: Ledger, id: nat)
    requires Books(l) && id < NUM_IDS
    ensures Books(Step(l, AllocPage(id)))
    ensures var l' := Step(l, AllocPage(id));
            var free := LowestFree(l.m.at);
            if free != 0 && l.m.cont[id].usage >= l.m.cont[id].quota
            then l'.lost == l.lost + {free} && free !in l.lost
            else l'.lost == l.lost
  {
    var (m', r) := Alloc(l.m, id);
    var free := LowestFree(l.m.at);
    assert free != 0 ==> !IsTaken(l.m.at, free);
    assert free != 0 ==> forall i :: IsTaken(m'.at, i) <==> IsTaken(l.m.at, i) || i == free by {
      PallocFreePages(l.m.at);
    }
    if r != 0 {
      BooksAfterGrant(l, m', id, r, 1);
      SingleBlock(l.owner, r, id);
    } else if free != 0 {
      BooksAfterLoss(l, m', free);
    }
  }

  lemma AllocPageKeeps(l: Ledger, id: nat)
    requires Inv(l) && id < NUM_IDS
    ensures var l' := Step(l, AllocPage(id));
            Inv(l') && (l'.lost == l.lost <==> LowestFree(l.m.at) == 0 || l.m.cont[id].usage < l.m.cont[id].quota)
  {
    AllocPageBooks(l, id);
    AllocKeeps(l.m, id);
  }

  lemma SingleBlock(owner: map<int, nat>, page: nat, id: nat)
    ensures owner[page := id] == owner + Block(page, 1, id)
  {
    forall i ensures i in Block(page, 1, id) <==> i == page {
      assert InBlock(page, 1, i) <==> i == page;
    }
  }

  ghost function Range(lo: int, len: nat): (s: set<int>)
    ensures |s| == len && forall i :: i in s <==> lo <= i < lo + len
  {
    if len == 0 then {} else Range(lo, len - 1) + {lo + len - 1}
  }

  lemma OwnedAfterGrant(owner: map<int, nat>, lo: nat, len: nat, id: nat, p: nat)
    requires forall i :: lo <= i < lo + len ==> i !in owner
    ensures |Owned(owner + Block(lo, len, id), p)| == |Owned(owner, p)| + if p == id then len else 0
  {
    var owner' := owner + Block(lo, len, id);
    forall i ensures i in Owned(owner', p) <==> i in Owned(owner, p) || (p == id && i in Range(lo, len)) {
      assert InBlock(lo, len, i) <==> lo <= i < lo + len;
    }
    if p == id {
      assert Owned(owner', p) == Owned(owner, p) + Range(lo, len);
      assert Owned(owner, p) !! Range(lo, len);
    } else {
      assert Owned(owner', p) == Owned(owner, p);
    }
  }

  lemma OwnedAfterRemove(owner: map<int, nat>, page: int, p: nat)
    requires page in owner
    ensures |Owned(owner - {page}, p)| == |Owned(owner, p)| - if p == owner[page] then 1 else 0
  {
    assert Owned(owner - {page}, p) == if p == owner[page] then Owned(owner, p) - {page} else Owned(owner, p);
  }

  lemma NonNegativeGiven(c: Pool, p: nat)
    requires Solvent(c) && p < NUM_IDS
    ensures Given(c, p) >= 0
  {
  }

  /** The books after the owner `id` of page `page` has freed it. */
  lemma BooksAfterRelease(l: Ledger, m': Pmm, id: nat, page: int)
    requires Books(l) && id < NUM_IDS && page in l.owner && l.owner[page] == id
    requires forall i :: IsTaken(m'.at, i) <==> IsTaken(l.m.at, i) && i != page
    requires m'.cont == l.m.cont[id := l.m.cont[id].(usage := l.m.cont[id].usage - 1)]
    ensures Books(Ledger(m', l.owner - {page}, l.lost))
  {
    var l' := Ledger(m', l.owner - {page}, l.lost);
    forall p | 0 <= p < NUM_IDS ensures Balanced(l', p) {
      assert Balanced(l, p);
      OwnedAfterRemove(l.owner, page, p);
      BalancedAfterChange(l, l', id, -1, p);
    }
  }

  lemma FreePageKeeps(l: Ledger, id: nat, page: nat)
    requires Inv(l) && Enabled(l, FreePage(id, page))
    ensures Inv(Step(l, FreePage(id, page)))
    ensures Step(l, FreePage(id, page)).lost == l.lost
  {
    assert Balanced(l, id);
    NonNegativeGiven(l.m.cont, id);
    assert page in Owned(l.owner, id);
    assert IsTaken(l.m.at, page);
    FreeKeeps(l.m, id, page);
    BooksAfterRelease(l, Free(l.m, id, page), id, page);
  }

  // ----- Runs of checked splits, single allocations and owner frees

  /** A page freed by its owner is free again, and the only one that is. */
  lemma FreeReturns(l: Ledger, id: nat, page: nat)
    requires Inv(l) && Enabled(l, FreePage(id, page))
    ensures var l' := Step(l, FreePage(id, page));
            FreePages(l'.m.at) == FreePages(l.m.at) + {page} && page !in FreePages(l.m.at)
            && l'.owner.Keys == l.owner.Keys - {page} && Slack(l'.m.cont[id]) == Slack(l.m.cont[id]) + 1
  {
    assert IsTaken(l.m.at, page);
    assert page in Owned(l.owner, id);
    NonNegativeGiven(l.m.cont, id);
    assert Balanced(l, id);
    FreeKeeps(l.m, id, page);
  }

  predicate NoBlocks(evs: seq<Event>) {
    forall i :: 0 <= i < |evs| ==> !evs[i].AllocBlock?
  }

  /** Conservation over every such run: what containers may still ask for is exactly what is free
      plus what over-quota calls have lost; usage is pages owned plus quotas given away. */
  lemma {:induction false} Conservation(l: Ledger, evs: seq<Event>)
    requires Inv(l) && RunOk(l, evs) && NoBlocks(evs)
    ensures var l' := Run(l, evs);
            Inv(l') && TotalSlack(l'.m.cont) == |FreePages(l'.m.at)| + |l'.lost|
    decreases |evs|
  {
    if evs != [] {
      assert !evs[0].AllocBlock?;
      match evs[0] {
        case Spawn(id, quota) => SpawnKeeps(l, id, quota);
        case AllocPage(id) => AllocPageKeeps(l, id);
        case FreePage(id, page) => FreePageKeeps(l, id, page);
      }
      Conservation(Step(l, evs[0]), evs[1..]);
    }
  }

  /** The event loses no page and wraps no sum: a single page is asked for within quota only; a block
      may be asked for beyond it and is then refused. */
  predicate Affordable(l: Ledger, e: Event)
    requires Enabled(l, e)
  {
    match e
    case AllocPage(id) => l.m.cont[id].usage < l.m.cont[id].quota
    case AllocBlock(id, len) => l.m.cont[id].usage + len < 0x1_0000_0000
    case _ => true
  }

  predicate NoOverdraft(l: Ledger, evs: seq<Event>)
    requires RunOk(l, evs)
    decreases |evs|
  {
    evs == [] || (Affordable(l, evs[0]) && NoOverdraft(Step(l, evs[0]), evs[1..]))
  }

  /** Hence, as long as nobody asks for a page beyond its quota, nothing is ever lost and every container
      under quota gets a page when it asks. */
  lemma {:induction false} UnderQuotaAlwaysServed(l: Ledger, evs: seq<Event>, id: nat)
    requires Inv(l) && l.lost == {} && RunOk(l, evs) && NoBlocks(evs) && NoOverdraft(l, evs) && id < NUM_IDS
    ensures var l' := Run(l, evs);
            l'.lost == {} && (Alloc(l'.m, id).1 != 0 <==> l'.m.cont[id].usage < l'.m.cont[id].quota)
    decreases |evs|
  {
    if evs == [] {
      UnderQuotaIsServed(l.m, id);
    } else {
      assert !evs[0].AllocBlock?;
      match evs[0] {
        case Spawn(i, quota) => SpawnKeeps(l, i, quota);
        case AllocPage(i) => AllocPageKeeps(l, i);
        case FreePage(i, page) => FreePageKeeps(l, i, page);
      }
      UnderQuotaAlwaysServed(Step(l, evs[0]), evs[1..], id);
    }
  }

  // ----- Free-less runs over one contiguous region

  ghost predicate Contiguous(t: Table, lo: nat, hi: nat) {
    USERLO_PI <= lo <= hi <= USERHI_PI && forall i :: IsNorm(t, i) <==> lo <= i < hi
  }

  /** The pages handed out so far are exactly [lo, next). */
  ghost predicate TakenPrefix(t: Table, lo: nat, next: nat) {
    forall i :: IsTaken(t, i) <==> lo <= i < next
  }

  ghost predicate Prefix(t: Table, lo: nat, hi: nat, next: nat) {
    Contiguous(t, lo, hi) && lo <= next <= hi && TakenPrefix(t, lo, next)
  }

  lemma PrefixFree(t: Table, lo: nat, hi: nat, next: nat)
    requires Prefix(t, lo, hi, next)
    ensures forall i :: IsFree(t, i) <==> next <= i < hi
    ensures LowestFree(t) == if next < hi then next else 0
    ensures |FreePages(t)| == hi - next
  {
    forall i ensures IsFree(t, i) <==> next <= i < hi {
      assert IsFree(t, i) <==> IsNorm(t, i) && !IsTaken(t, i);
    }
    assert FreePages(t) == Range(next, hi - next);
    if next < hi {
      LowestFreeUnique(t, next);
    }
  }

  /** A block that fits the quota is made of `len` consecutive pages, all free until now. */
  lemma BlockIsFresh(m: Pmm, id: nat, len: Word, lo: nat, hi: nat, next: nat)
    requires PmmInv(m) && Lost(m) == 0 && Prefix(m.at, lo, hi, next)
    requires id < NUM_IDS && len >= 1 && m.cont[id].usage + len <= m.cont[id].quota
    ensures next + len <= hi
    ensures ConsecutiveAlloc(m, id, len)
            == (Pmm(MarkRange(m.at, next, next + len, 1),
                    m.cont[id := m.cont[id].(usage := m.cont[id].usage + len)]), next)
    ensures forall i :: next <= i < next + len ==> IsFree(m.at, i)
  {
    PrefixFree(m.at, lo, hi, next);
    SlackAtLeast(m.cont, id, NUM_IDS);
    assert len <= Slack(m.cont[id]) <= hi - next;
  }

  lemma MarkPrefix(t: Table, lo: nat, hi: nat, next: nat, len: nat)
    requires Prefix(t, lo, hi, next) && next + len <= hi
    ensures Prefix(MarkRange(t, next, next + len, 1), lo, hi, next + len)
  {
    var t' := MarkRange(t, next, next + len, 1);
    forall i ensures IsNorm(t', i) <==> lo <= i < hi {
      assert IsNorm(t', i) <==> IsNorm(t, i);
    }
    forall i ensures IsTaken(t', i) <==> lo <= i < next + len {
      assert IsNorm(t', i) <==> IsNorm(t, i);
      assert IsTaken(t, i) <==> lo <= i < next;
    }
  }

  lemma BlockKeeps(m: Pmm, id: nat, len: Word, lo: nat, hi: nat, next: nat)
    requires PmmInv(m) && Lost(m) == 0 && Prefix(m.at, lo, hi, next)
    requires id < NUM_IDS && len >= 1 && m.cont[id].usage + len <= m.cont[id].quota
    ensures var m' := ConsecutiveAlloc(m, id, len).0;
            next + len <= hi && PmmInv(m') && Lost(m') == 0 && Prefix(m'.at, lo, hi, next + len)
  {
    var m' := ConsecutiveAlloc(m, id, len).0;
    BlockIsFresh(m, id, len, lo, hi, next);
    MarkPrefix(m.at, lo, hi, next, len);
    PrefixFree(m.at, lo, hi, next);
    PrefixFree(m'.at, lo, hi, next + len);
    UsageForest(m.cont, id, m.cont[id].usage + len);
    SlackUpdate(m.cont, id, m'.cont[id]);
  }

  predicate NoFrees(evs: seq<Event>) {
    forall i :: 0 <= i < |evs| ==> !evs[i].FreePage?
  }

  ghost predicate PrefixInv(l: Ledger, lo: nat, hi: nat, next: nat) {
    Inv(l) && l.lost == {} && Prefix(l.m.at, lo, hi, next)
  }

  lemma PrefixAllocPage(l: Ledger, id: nat, lo: nat, hi: nat, next: nat)
    requires PrefixInv(l, lo, hi, next) && id < NUM_IDS && l.m.cont[id].usage < l.m.cont[id].quota
    ensures PrefixInv(Step(l, AllocPage(id)), lo, hi, next + 1)
    ensures l.owner.Keys <= Step(l, AllocPage(id)).owner.Keys
  {
    AllocPageKeeps(l, id);
    NextPageTaken(l.m, id, lo, hi, next);
    hide PmmInv, Books, Prefix, Lost;
  }

  lemma NextPageTaken(m: Pmm, id: nat, lo: nat, hi: nat, next: nat)
    requires PmmInv(m) && Lost(m) == 0 && Prefix(m.at, lo, hi, next) && id < NUM_IDS && m.cont[id].usage < m.cont[id].quota
    ensures Prefix(Alloc(m, id).0.at, lo, hi, next + 1)
  {
    UnderQuotaIsServed(m, id);
    hide PmmInv, Lost, Prefix;
    PrefixFree(m.at, lo, hi, next);
    SingleMark(m.at, next);
    MarkPrefix(m.at, lo, hi, next, 1);
  }

  lemma PrefixAllocBlock(l: Ledger, id: nat, len: Word, lo: nat, hi: nat, next: nat)
    requires PrefixInv(l, lo, hi, next) && id < NUM_IDS && len >= 1
    requires l.m.cont[id].usage + len <= l.m.cont[id].quota
    ensures PrefixInv(Step(l, AllocBlock(id, len)), lo, hi, next + len)
    ensures l.owner.Keys <= Step(l, AllocBlock(id, len)).owner.Keys
  {
    hide PmmInv, Books, Prefix, ConsecutiveAlloc, Lost, Block, MarkRange;
    var (m', r) := ConsecutiveAlloc(l.m, id, len);
    BlockKeeps(l.m, id, len, lo, hi, next);
    BlockIsFresh(l.m, id, len, lo, hi, next);
    PrefixTakes(l.m.at, lo, hi, next);
    PrefixTakes(m'.at, lo, hi, next + len);
    BooksAfterGrant(l, m', id, next, len);
  }

  lemma PrefixTakes(t: Table, lo: nat, hi: nat, next: nat)
    requires Prefix(t, lo, hi, next)
    ensures TakenPrefix(t, lo, next) && 0 < lo <= next
  {
  }

  /** A block asked for beyond the quota is refused, and nothing changes. */
  lemma RefusedBlock(l: Ledger, id: nat, len: Word)
    requires Inv(l) && id < NUM_IDS && len >= 1
    requires l.m.cont[id].quota < l.m.cont[id].usage + len < 0x1_0000_0000
    ensures Step(l, AllocBlock(id, len)) == l
  {
  }

  lemma PrefixStep(l: Ledger, e: Event, lo: nat, hi: nat, next: nat) returns (next': nat)
    requires PrefixInv(l, lo, hi, next) && Enabled(l, e) && !e.FreePage? && Affordable(l, e)
    ensures next <= next' && PrefixInv(Step(l, e), lo, hi, next')
    ensures l.owner.Keys <= Step(l, e).owner.Keys
  {
    match e {
      case Spawn(id, quota) =>
        SpawnKeeps(l, id, quota);
        KctxNewKeeps(l.m, id, quota);
        next' := next;
      case AllocPage(id) =>
        PrefixAllocPage(l, id, lo, hi, next);
        next' := next + 1;
      case AllocBlock(id, len) =>
        if l.m.cont[id].usage + len <= l.m.cont[id].quota {
          PrefixAllocBlock(l, id, len, lo, hi, next);
          next' := next + len;
        } else {
          RefusedBlock(l, id, len);
          next' := next;
        }
    }
  }

  lemma SingleMark(t: Table, i: nat)
    requires i < TABLE_SIZE
    ensures SetAllocated(t, i, 1) == MarkRange(t, i, i + 1, 1)
  {
    MarkRangeEmpty(t, i, 1);
    MarkRangeStep(t, i, i, 1);
  }

  /** In every free-less run without over-quota page requests over one contiguous region, block
      requests served or refused, the pages handed out stay a prefix of the region, nothing is
      lost, and pages once handed out stay handed out. */
  lemma {:induction false} PrefixRun(l: Ledger, evs: seq<Event>, lo: nat, hi: nat, next: nat) returns (next': nat)
    requires PrefixInv(l, lo, hi, next) && RunOk(l, evs) && NoFrees(evs) && NoOverdraft(l, evs)
    ensures PrefixInv(Run(l, evs), lo, hi, next')
    ensures l.owner.Keys <= Run(l, evs).owner.Keys
    decreases |evs|
  {
    if evs == [] {
      next' := next;
    } else {
      assert !evs[0].FreePage?;
      var mid := PrefixStep(l, evs[0], lo, hi, next);
      next' := PrefixRun(Step(l, evs[0]), evs[1..], lo, hi, mid);
    }
  }

  /** After any such run from boot, a block request within quota is served by `len` consecutive
      pages of which none was ever handed out before, to anybody. */
  lemma BlocksNeverOverlap(t: Table, lo: nat, hi: nat, evs: seq<Event>, id: nat, len: Word)
    requires Contiguous(t, lo, hi) && (forall i :: !IsTaken(t, i))
    requires RunOk(Boot(t), evs) && NoFrees(evs) && NoOverdraft(Boot(t), evs)
    requires id < NUM_IDS && len >= 1
    requires Run(Boot(t), evs).m.cont[id].usage + len <= Run(Boot(t), evs).m.cont[id].quota
    ensures FreshBlock(Run(Boot(t), evs), id, len)
  {
    var next := PrefixFromBoot(t, lo, hi, evs);
    var l := Run(Boot(t), evs);
    FreshForTheLedger(l, id, len, lo, hi, next);
  }

  lemma FreshForTheLedger(l: Ledger, id: nat, len: Word, lo: nat, hi: nat, next: nat)
    requires PrefixInv(l, lo, hi, next) && id < NUM_IDS && len >= 1
    requires l.m.cont[id].usage + len <= l.m.cont[id].quota
    ensures FreshBlock(l, id, len)
  {
    BlockIsFresh(l.m, id, len, lo, hi, next);
    forall i | next <= i < next + len ensures i !in l.owner {
      assert IsFree(l.m.at, i) && !IsTaken(l.m.at, i);
    }
  }

  /** A block request is answered with `len` consecutive free pages that nobody owns. */
  ghost predicate FreshBlock(l: Ledger, id: nat, len: Word)
    requires id < NUM_IDS
  {
    var (m', r) := ConsecutiveAlloc(l.m, id, len);
    r != 0 && m'.at == MarkRange(l.m.at, r, r + len, 1)
    && forall i :: r <= i < r + len ==> IsFree(l.m.at, i) && i !in l.owner
  }

  lemma PrefixFromBoot(t: Table, lo: nat, hi: nat, evs: seq<Event>) returns (next: nat)
    requires Contiguous(t, lo, hi) && (forall i :: !IsTaken(t, i))
    requires RunOk(Boot(t), evs) && NoFrees(evs) && NoOverdraft(Boot(t), evs)
    ensures PrefixInv(Run(Boot(t), evs), lo, hi, next)
  {
    BootInv(t);
    assert Prefix(t, lo, hi, lo);
    next := PrefixRun(Boot(t), evs, lo, hi, lo);
  }

  // ----- Boot

  function BootPool(quota: nat): (c: Pool) {
    seq(NUM_IDS, i => if i == 0 then Container(quota, 0, 0, 0, true) else Unused)
  }

  /** The state `container_init` leaves: the root holds every free page as quota. */
  ghost function Boot(t: Table): (l: Ledger) {
    Ledger(Pmm(t, BootPool(|FreePages(t)|)), map[], {})
  }

  lemma {:induction false} BootSlack(q: nat, n: nat)
    requires 1 <= n <= NUM_IDS
    ensures SlackUpTo(BootPool(q), n) == q
  {
    if n > 1 {
      BootSlack(q, n - 1);
    } else {
      assert SlackUpTo(BootPool(q), 0) == 0;
    }
  }

  lemma SubsetSize(s: set<int>, n: nat)
    requires forall i :: i in s ==> 0 <= i < n
    ensures |s| <= n
    decreases n
  {
    if n > 0 {
      SubsetSize(s - {n - 1}, n - 1);
    } else {
      assert forall i :: i in s ==> 0 <= i < 0;
      assert s == {};
    }
  }

  lemma SubsetCount(a: set<int>, b: set<int>)
    requires a <= b
    ensures |a| <= |b|
  {
    assert b == a + (b - a);
  }

  lemma BootInv(t: Table)
    requires NormalInUserRange(t) && forall i :: !IsTaken(t, i)
    ensures Inv(Boot(t)) && Boot(t).lost == {}
  {
    var l := Boot(t);
    var q := |FreePages(t)|;
    SubsetSize(FreePages(t), TABLE_SIZE);
    BootSlack(q, NUM_IDS);
    forall x | 1 <= x < NUM_IDS ensures Linked(l.m.cont, x) {
    }
    forall p | 0 <= p < NUM_IDS ensures Balanced(l, p) {
      assert Owned(l.owner, p) == {};
    }
  }
}
