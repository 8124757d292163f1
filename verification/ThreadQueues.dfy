/** Thread control blocks and thread queues (layers PTCBIntro, PTCBInit, PTQueueIntro and
    PTQueueInit): doubly linked lists threaded by index through one pool of blocks. */
module ThreadQueues {
  import opened Containers

  datatype TState = Ready | Running | Sleep | Dead

  datatype Tcb = Tcb(state: TState, prev: nat, next: nat)

  datatype TQueue = TQueue(head: nat, tail: nat)

  ghost function StatesOf(tcb: seq<Tcb>): (s: seq<TState>)
    ensures |s| == |tcb|
  {
    seq(|tcb|, t requires 0 <= t < |tcb| => tcb[t].state)
  }

  // ----- What the arrays represent

  function PrevIn(xs: seq<nat>, k: int): (t: nat)
    requires 0 <= k < |xs|
  {
    if k == 0 then NUM_IDS else xs[k - 1]
  }

  function NextIn(xs: seq<nat>, k: int): (t: nat)
    requires 0 <= k < |xs|
  {
    if k == |xs| - 1 then NUM_IDS else xs[k + 1]
  }

  ghost predicate LinkedAt(tcb: seq<Tcb>, xs: seq<nat>, k: int)
    requires |tcb| == NUM_IDS && 0 <= k < |xs|
  {
    xs[k] < NUM_IDS && tcb[xs[k]].prev == PrevIn(xs, k) && tcb[xs[k]].next == NextIn(xs, k)
  }

  /** The list starting at `q.head` is exactly `xs`, linked both ways. */
  ghost predicate Represents(tcb: seq<Tcb>, q: TQueue, xs: seq<nat>)
    requires |tcb| == NUM_IDS
  {
    && q.head == (if xs == [] then NUM_IDS else xs[0])
    && q.tail == (if xs == [] then NUM_IDS else xs[|xs| - 1])
    && forall k :: 0 <= k < |xs| ==> LinkedAt(tcb, xs, k)
  }

  ghost predicate NoRepeats(xs: seq<nat>) {
    forall k, l :: 0 <= k < l < |xs| ==> xs[k] != xs[l]
  }

  ghost predicate Apart(xs: seq<nat>, ys: seq<nat>) {
    forall t :: t in xs ==> t !in ys
  }

  /** `xs` without `t`, if `t` is there. */
  function Without(xs: seq<nat>, t: nat): (ys: seq<nat>) {
    if xs == [] then []
    else if xs[0] == t then xs[1..]
    else [xs[0]] + Without(xs[1..], t)
  }

  lemma {:induction false} WithoutAbsent(xs: seq<nat>, t: nat)
    requires t !in xs
    ensures Without(xs, t) == xs
  {
    if xs != [] {
      WithoutAbsent(xs[1..], t);
    }
  }

  lemma {:induction false} WithoutAt(xs: seq<nat>, k: nat)
    requires k < |xs| && NoRepeats(xs)
    ensures Without(xs, xs[k]) == xs[..k] + xs[k + 1..]
  {
    if k > 0 {
      WithoutAt(xs[1..], k - 1);
      assert xs[1..][k - 1] == xs[k];
      assert xs[..k] + xs[k + 1..] == [xs[0]] + (xs[1..][..k - 1] + xs[1..][k..]);
    }
  }

  // ----- The pools as values

  datatype Pools = Pools(tcb: seq<Tcb>, tq: seq<TQueue>)

  ghost predicate LooseIn(qs: seq<seq<nat>>, t: nat) {
    forall c :: 0 <= c < |qs| ==> t !in qs[c]
  }

  /** The queues are disjoint and repeat nothing. */
  ghost predicate Separate(qs: seq<seq<nat>>) {
    (forall c :: 0 <= c < |qs| ==> NoRepeats(qs[c]))
    && forall c, d :: 0 <= c < |qs| && 0 <= d < |qs| && c != d ==> Apart(qs[c], qs[d])
  }

  /** The arrays represent the queues `qs`, and threads on no queue are detached. */
  ghost predicate Rep(p: Pools, qs: seq<seq<nat>>) {
    && |p.tcb| == NUM_IDS && |p.tq| == NUM_IDS + 1 && |qs| == NUM_IDS + 1
    && Separate(qs)
    && (forall c :: 0 <= c <= NUM_IDS ==> Represents(p.tcb, p.tq[c], qs[c]))
    && (forall t :: 0 <= t < NUM_IDS && LooseIn(qs, t) ==> p.tcb[t].prev == NUM_IDS && p.tcb[t].next == NUM_IDS)
  }

  function SetLinks(tcb: seq<Tcb>, t: nat, prev: nat, next: nat): (r: seq<Tcb>)
    requires |tcb| == NUM_IDS
    ensures |r| == NUM_IDS
  {
    if t < NUM_IDS then tcb[t := tcb[t].(prev := prev, next := next)] else tcb
  }

  function SetPrev(tcb: seq<Tcb>, t: nat, prev: nat): (r: seq<Tcb>)
    requires |tcb| == NUM_IDS
    ensures |r| == NUM_IDS
  {
    if t < NUM_IDS then tcb[t := tcb[t].(prev := prev)] else tcb
  }

  function SetNext(tcb: seq<Tcb>, t: nat, next: nat): (r: seq<Tcb>)
    requires |tcb| == NUM_IDS
    ensures |r| == NUM_IDS
  {
    if t < NUM_IDS then tcb[t := tcb[t].(next := next)] else tcb
  }

  ghost predicate Sized(p: Pools) {
    |p.tcb| == NUM_IDS && |p.tq| == NUM_IDS + 1
  }

  ghost function AfterEnqueue(p: Pools, chid: nat, pid: nat): (r: Pools)
    requires Sized(p) && chid <= NUM_IDS && pid < NUM_IDS
  {
    var tail := p.tq[chid].tail;
    if tail == NUM_IDS then
      Pools(SetLinks(p.tcb, pid, NUM_IDS, NUM_IDS), p.tq[chid := TQueue(pid, pid)])
    else
      Pools(SetLinks(SetNext(p.tcb, tail, pid), pid, tail, NUM_IDS), p.tq[chid := p.tq[chid].(tail := pid)])
  }

  ghost function AfterDequeue(p: Pools, chid: nat): (r: Pools)
    requires Sized(p) && chid <= NUM_IDS
  {
    var q := p.tq[chid];
    if q.head >= NUM_IDS then p
    else if q.head == q.tail then
      Pools(SetLinks(p.tcb, q.head, NUM_IDS, NUM_IDS), p.tq[chid := TQueue(NUM_IDS, NUM_IDS)])
    else
      var nx := p.tcb[q.head].next;
      Pools(SetLinks(SetPrev(p.tcb, nx, NUM_IDS), q.head, NUM_IDS, NUM_IDS), p.tq[chid := q.(head := nx)])
  }

  /** The unlinking part of `tqueue_remove`. */
  ghost function AfterUnlink(p: Pools, chid: nat, t: nat): (r: Pools)
    requires Sized(p) && chid <= NUM_IDS && t < NUM_IDS
  {
    var (nx, prev, q) := (p.tcb[t].next, p.tcb[t].prev, p.tq[chid]);
    var q' := TQueue(if q.head == t then nx else q.head, if q.tail == t then prev else q.tail);
    var tcb1 := if nx == NUM_IDS then p.tcb else SetNext(SetPrev(p.tcb, nx, prev), t, NUM_IDS);
    var tcb2 := if prev == NUM_IDS then tcb1 else SetPrev(SetNext(tcb1, prev, nx), t, NUM_IDS);
    Pools(tcb2, p.tq[chid := q'])
  }

  /** Links of the threads of `xs` are the same in both pools. */
  ghost predicate Agree(tcb: seq<Tcb>, tcb': seq<Tcb>, xs: seq<nat>)
    requires |tcb| == NUM_IDS && |tcb'| == NUM_IDS
  {
    forall t :: 0 <= t < NUM_IDS && t in xs ==> tcb'[t].prev == tcb[t].prev && tcb'[t].next == tcb[t].next
  }

  lemma AgreeRepresents(tcb: seq<Tcb>, tcb': seq<Tcb>, q: TQueue, xs: seq<nat>)
    requires |tcb| == NUM_IDS && |tcb'| == NUM_IDS && Represents(tcb, q, xs) && Agree(tcb, tcb', xs)
    ensures Represents(tcb', q, xs)
  {
    forall k | 0 <= k < |xs| ensures LinkedAt(tcb', xs, k) {
      assert LinkedAt(tcb, xs, k);
    }
  }

  /** Replacing one queue: enough to look at that queue, the threads touched and the loose ones. */
  lemma RepAfter(p: Pools, p': Pools, qs: seq<seq<nat>>, c: nat, ys: seq<nat>, touched: set<nat>)
    requires Rep(p, qs) && Sized(p') && c <= NUM_IDS && Separate(qs[c := ys])
    requires forall t :: t in touched ==> t in qs[c] || t in ys
    requires forall t :: 0 <= t < NUM_IDS && t !in touched ==> p'.tcb[t].prev == p.tcb[t].prev && p'.tcb[t].next == p.tcb[t].next
    requires forall d :: 0 <= d <= NUM_IDS && d != c ==> p'.tq[d] == p.tq[d]
    requires Represents(p'.tcb, p'.tq[c], ys)
    requires forall t :: 0 <= t < NUM_IDS && t in qs[c] && t !in ys ==> p'.tcb[t].prev == NUM_IDS && p'.tcb[t].next == NUM_IDS
    ensures Rep(p', qs[c := ys])
  {
    var qs' := qs[c := ys];
    forall d | 0 <= d <= NUM_IDS && d != c ensures Represents(p'.tcb, p'.tq[d], qs'[d]) {
      assert Apart(qs[c], qs[d]) && Apart(qs'[c], qs'[d]);
      AgreeRepresents(p.tcb, p'.tcb, p.tq[d], qs[d]);
    }
    forall t | 0 <= t < NUM_IDS && LooseIn(qs', t) ensures p'.tcb[t].prev == NUM_IDS && p'.tcb[t].next == NUM_IDS {
      assert t !in qs'[c];
      if t !in qs[c] {
        assert LooseIn(qs, t) by {
          forall d | 0 <= d < |qs| ensures t !in qs[d] {
            assert d != c ==> qs'[d] == qs[d];
          }
        }
      }
    }
  }

  // ----- Enqueue

  lemma EnqueueSeparate(qs: seq<seq<nat>>, c: nat, t: nat)
    requires Separate(qs) && c < |qs| && LooseIn(qs, t)
    ensures Separate(qs[c := qs[c] + [t]])
  {
    var qs' := qs[c := qs[c] + [t]];
    forall d, e | 0 <= d < |qs'| && 0 <= e < |qs'| && d != e ensures Apart(qs'[d], qs'[e]) {
      assert Apart(qs[d], qs[e]);
    }
    assert NoRepeats(qs[c]);
  }

  lemma EnqueueFirst(tcb: seq<Tcb>, t: nat)
    requires |tcb| == NUM_IDS && t < NUM_IDS
    ensures Represents(SetLinks(tcb, t, NUM_IDS, NUM_IDS), TQueue(t, t), [t])
  {
    assert LinkedAt(SetLinks(tcb, t, NUM_IDS, NUM_IDS), [t], 0);
  }

  lemma EnqueueLast(tcb: seq<Tcb>, q: TQueue, xs: seq<nat>, t: nat)
    requires |tcb| == NUM_IDS && Represents(tcb, q, xs) && NoRepeats(xs) && t < NUM_IDS && t !in xs && xs != []
    ensures q.tail == xs[|xs| - 1] < NUM_IDS
    ensures Represents(SetLinks(SetNext(tcb, q.tail, t), t, q.tail, NUM_IDS), q.(tail := t), xs + [t])
  {
    var ys := xs + [t];
    var tcb' := SetLinks(SetNext(tcb, q.tail, t), t, q.tail, NUM_IDS);
    assert LinkedAt(tcb, xs, |xs| - 1);
    forall k | 0 <= k < |ys| ensures LinkedAt(tcb', ys, k) {
      if k < |xs| {
        assert LinkedAt(tcb, xs, k);
        assert k < |xs| - 1 ==> xs[k] != xs[|xs| - 1];
      }
    }
  }

  lemma RepGives(p: Pools, qs: seq<seq<nat>>, c: nat)
    requires Rep(p, qs) && c <= NUM_IDS
    ensures Sized(p) && |qs| == NUM_IDS + 1 && Separate(qs) && Represents(p.tcb, p.tq[c], qs[c]) && NoRepeats(qs[c])
  {
  }

  lemma EnqueueRep(p: Pools, qs: seq<seq<nat>>, chid: nat, pid: nat)
    requires Rep(p, qs) && chid <= NUM_IDS && pid < NUM_IDS && LooseIn(qs, pid)
    ensures Rep(AfterEnqueue(p, chid, pid), qs[chid := qs[chid] + [pid]])
  {
    RepGives(p, qs, chid);
    hide Rep, Separate, NoRepeats, LinkedAt;
    var xs := qs[chid];
    EnqueueSeparate(qs, chid, pid);
    if xs == [] {
      EnqueueFirst(p.tcb, pid);
      assert xs + [pid] == [pid];
      RepAfter(p, AfterEnqueue(p, chid, pid), qs, chid, xs + [pid], {pid});
    } else {
      EnqueueLast(p.tcb, p.tq[chid], xs, pid);
      RepAfter(p, AfterEnqueue(p, chid, pid), qs, chid, xs + [pid], {pid, xs[|xs| - 1]});
    }
  }

  // ----- Removal at a position

  lemma RemoveSeparate(qs: seq<seq<nat>>, c: nat, k: nat)
    requires Separate(qs) && c < |qs| && k < |qs[c]|
    ensures Separate(qs[c := qs[c][..k] + qs[c][k + 1..]])
    ensures qs[c][k] !in qs[c][..k] + qs[c][k + 1..]
    ensures LooseIn(qs[c := qs[c][..k] + qs[c][k + 1..]], qs[c][k])
  {
    var ys := qs[c][..k] + qs[c][k + 1..];
    var qs' := qs[c := ys];
    assert NoRepeats(qs[c]);
    forall t | t in ys ensures t in qs[c] {
    }
    forall d, e | 0 <= d < |qs'| && 0 <= e < |qs'| && d != e ensures Apart(qs'[d], qs'[e]) {
      assert Apart(qs[d], qs[e]);
    }
    forall d | 0 <= d < |qs'| ensures qs[c][k] !in qs'[d] {
      assert d != c ==> Apart(qs[c], qs[d]);
    }
  }

  /** The links of `xs[l]` bypass `xs[k]`. */
  ghost predicate BypassedAt(tcb: seq<Tcb>, xs: seq<nat>, k: int, l: int)
    requires |tcb| == NUM_IDS && 0 <= k < |xs| && 0 <= l < |xs|
  {
    && xs[l] < NUM_IDS
    && tcb[xs[l]].prev == (if l == k + 1 then PrevIn(xs, k) else PrevIn(xs, l))
    && tcb[xs[l]].next == (if l == k - 1 then NextIn(xs, k) else NextIn(xs, l))
  }

  lemma UnlinkLinks(p: Pools, chid: nat, xs: seq<nat>, k: nat)
    requires Sized(p) && chid <= NUM_IDS && Represents(p.tcb, p.tq[chid], xs) && NoRepeats(xs) && k < |xs|
    ensures LinkedAt(p.tcb, xs, k)
    ensures var p' := AfterUnlink(p, chid, xs[k]);
            (forall l :: 0 <= l < |xs| && l != k ==> BypassedAt(p'.tcb, xs, k, l))
            && p'.tcb[xs[k]].prev == NUM_IDS && p'.tcb[xs[k]].next == NUM_IDS
  {
    assert LinkedAt(p.tcb, xs, k);
    var p' := AfterUnlink(p, chid, xs[k]);
    assert k > 0 ==> LinkedAt(p.tcb, xs, k - 1);
    assert k < |xs| - 1 ==> LinkedAt(p.tcb, xs, k + 1);
    forall l | 0 <= l < |xs| && l != k ensures BypassedAt(p'.tcb, xs, k, l) {
      assert LinkedAt(p.tcb, xs, l);
    }
  }

  /** Who comes before and after whom once position `k` is gone. */
  lemma NeighboursAfter(xs: seq<nat>, k: nat, l: nat)
    requires k < |xs| && l < |xs| - 1
    ensures var ys := xs[..k] + xs[k + 1..];
            var m := if l < k then l else l + 1;
            ys[l] == xs[m]
            && PrevIn(ys, l) == (if m == k + 1 then PrevIn(xs, k) else PrevIn(xs, m))
            && NextIn(ys, l) == (if m == k - 1 then NextIn(xs, k) else NextIn(xs, m))
  {
  }

  lemma UnlinkRepresents(p: Pools, chid: nat, xs: seq<nat>, k: nat)
    requires Sized(p) && chid <= NUM_IDS && Represents(p.tcb, p.tq[chid], xs) && NoRepeats(xs) && k < |xs|
    ensures xs[k] < NUM_IDS
    ensures var p' := AfterUnlink(p, chid, xs[k]);
            Represents(p'.tcb, p'.tq[chid], xs[..k] + xs[k + 1..])
  {
    UnlinkLinks(p, chid, xs, k);
    var ys := xs[..k] + xs[k + 1..];
    var p' := AfterUnlink(p, chid, xs[k]);
    assert p'.tq[chid].head == (if ys == [] then NUM_IDS else ys[0])
        && p'.tq[chid].tail == (if ys == [] then NUM_IDS else ys[|ys| - 1]) by {
      assert k > 0 ==> xs[0] != xs[k];
      assert k < |xs| - 1 ==> xs[|xs| - 1] != xs[k];
    }
    hide AfterUnlink, NoRepeats, PrevIn, NextIn;
    forall l | 0 <= l < |ys| ensures LinkedAt(p'.tcb, ys, l) {
      var m := if l < k then l else l + 1;
      assert BypassedAt(p'.tcb, xs, k, m);
      NeighboursAfter(xs, k, l);
    }
  }

  /** The threads whose links an unlink at position `k` writes. */
  ghost function Around(xs: seq<nat>, k: nat): (s: set<nat>)
    requires k < |xs|
    ensures forall t :: t in s ==> t in xs
  {
    {xs[k]} + (if k > 0 then {xs[k - 1]} else {}) + (if k < |xs| - 1 then {xs[k + 1]} else {})
  }

  lemma UnlinkTouches(p: Pools, chid: nat, xs: seq<nat>, k: nat)
    requires Sized(p) && chid <= NUM_IDS && k < |xs| && LinkedAt(p.tcb, xs, k)
    ensures var p' := AfterUnlink(p, chid, xs[k]);
            Sized(p') && (forall d :: 0 <= d <= NUM_IDS && d != chid ==> p'.tq[d] == p.tq[d])
            && forall t :: 0 <= t < NUM_IDS && t !in Around(xs, k) ==> p'.tcb[t] == p.tcb[t]
  {
  }

  lemma UnlinkRep(p: Pools, qs: seq<seq<nat>>, chid: nat, k: nat)
    requires Rep(p, qs) && chid <= NUM_IDS && k < |qs[chid]|
    ensures qs[chid][k] < NUM_IDS
    ensures var ys := qs[chid][..k] + qs[chid][k + 1..];
            Rep(AfterUnlink(p, chid, qs[chid][k]), qs[chid := ys]) && LooseIn(qs[chid := ys], qs[chid][k])
  {
    RepGives(p, qs, chid);
    hide Rep, Separate, NoRepeats, Represents, LooseIn, AfterUnlink;
    var xs := qs[chid];
    var ys := xs[..k] + xs[k + 1..];
    RemoveSeparate(qs, chid, k);
    UnlinkLinks(p, chid, xs, k);
    UnlinkRepresents(p, chid, xs, k);
    UnlinkTouches(p, chid, xs, k);
    forall t | t in xs && t !in ys ensures t == xs[k] {
      OnlyOneGone(xs, k, t);
    }
    RepAfter(p, AfterUnlink(p, chid, xs[k]), qs, chid, ys, Around(xs, k));
  }

  lemma OnlyOneGone(xs: seq<nat>, k: nat, t: nat)
    requires k < |xs| && t in xs
    ensures t == xs[k] || t in xs[..k] + xs[k + 1..]
  {
    var ys := xs[..k] + xs[k + 1..];
    var l :| 0 <= l < |xs| && xs[l] == t;
    if l < k {
      assert ys[l] == t;
    } else if l > k {
      assert ys[l - 1] == t;
    }
  }

  lemma StateRep(p: Pools, qs: seq<seq<nat>>, t: nat, st: TState)
    requires Rep(p, qs) && t < NUM_IDS
    ensures Rep(p.(tcb := p.tcb[t := p.tcb[t].(state := st)]), qs)
  {
    var tcb' := p.tcb[t := p.tcb[t].(state := st)];
    forall c | 0 <= c <= NUM_IDS ensures Represents(tcb', p.tq[c], qs[c]) {
      AgreeRepresents(p.tcb, tcb', p.tq[c], qs[c]);
    }
  }

  lemma TailOf(p: Pools, qs: seq<seq<nat>>, c: nat)
    requires Rep(p, qs) && c <= NUM_IDS
    ensures Sized(p) && |qs| == NUM_IDS + 1
    ensures if qs[c] == [] then p.tq[c] == TQueue(NUM_IDS, NUM_IDS)
            else p.tq[c] == TQueue(qs[c][0], qs[c][|qs[c]| - 1]) && qs[c][0] < NUM_IDS && qs[c][|qs[c]| - 1] < NUM_IDS
  {
    RepGives(p, qs, c);
    if qs[c] != [] {
      assert LinkedAt(p.tcb, qs[c], 0) && LinkedAt(p.tcb, qs[c], |qs[c]| - 1);
    }
  }

  lemma NeighboursInRange(p: Pools, chid: nat, xs: seq<nat>, k: nat)
    requires Sized(p) && chid <= NUM_IDS && Represents(p.tcb, p.tq[chid], xs) && k < |xs|
    ensures xs[k] < NUM_IDS && p.tcb[xs[k]].prev <= NUM_IDS && p.tcb[xs[k]].next <= NUM_IDS
    ensures p.tcb[xs[k]].next == NUM_IDS <==> k == |xs| - 1
  {
    assert LinkedAt(p.tcb, xs, k);
    assert k > 0 ==> LinkedAt(p.tcb, xs, k - 1);
    assert k < |xs| - 1 ==> LinkedAt(p.tcb, xs, k + 1);
  }

  lemma UnlinkStates(p: Pools, chid: nat, t: nat)
    requires Sized(p) && chid <= NUM_IDS && t < NUM_IDS
    ensures Sized(AfterUnlink(p, chid, t))
    ensures forall x :: 0 <= x < NUM_IDS ==> AfterUnlink(p, chid, t).tcb[x].state == p.tcb[x].state
  {
  }

  /** Dequeue is removal at position 0. */
  lemma DequeueRep(p: Pools, qs: seq<seq<nat>>, chid: nat)
    requires Rep(p, qs) && chid <= NUM_IDS && qs[chid] != []
    ensures p.tq[chid].head == qs[chid][0] < NUM_IDS
    ensures p.tq[chid].head != p.tq[chid].tail ==> p.tcb[qs[chid][0]].next < NUM_IDS
    ensures Rep(AfterDequeue(p, chid), qs[chid := qs[chid][1..]]) && LooseIn(qs[chid := qs[chid][1..]], qs[chid][0])
  {
    var xs := qs[chid];
    RepGives(p, qs, chid);
    UnlinkRep(p, qs, chid, 0);
    hide Rep, Separate, LooseIn;
    assert xs[..0] + xs[1..] == xs[1..];
    assert LinkedAt(p.tcb, xs, 0);
    if |xs| > 1 {
      assert LinkedAt(p.tcb, xs, 1);
      assert xs[0] != xs[|xs| - 1];
    }
    assert AfterDequeue(p, chid) == AfterUnlink(p, chid, xs[0]);
  }

  class QueuePool {
    const tcb: array<Tcb>
    const tq: array<TQueue>
    /** The threads on each queue; queue NUM_IDS is the ready queue. */
    ghost var qs: seq<seq<nat>>

    ghost predicate Shape() {
      tcb.Length == NUM_IDS && tq.Length == NUM_IDS + 1 && tcb as object != tq
    }

    ghost function Arrays(): (p: Pools)
      reads tcb, tq
    {
      Pools(tcb[..], tq[..])
    }

    ghost predicate Valid()
      reads this, tcb, tq
    {
      Shape() && Rep(Arrays(), qs)
    }

    lemma QueueCount()
      requires Valid()
      ensures |qs| == NUM_IDS + 1
    {
    }

    /** On no queue. */
    ghost predicate Loose(t: nat)
      reads this
    {
      LooseIn(qs, t)
    }

    /** `tcb_init` and `tqueue_init`. */
    constructor ()
      ensures Valid() && fresh(tcb) && fresh(tq)
      ensures forall c :: 0 <= c <= NUM_IDS ==> qs[c] == []
      ensures |tcb[..]| == NUM_IDS && forall t :: 0 <= t < NUM_IDS ==> StatesOf(tcb[..])[t] == Dead
    {
      tcb := new Tcb[NUM_IDS](_ => Tcb(Dead, NUM_IDS, NUM_IDS));
      tq := new TQueue[NUM_IDS + 1](_ => TQueue(NUM_IDS, NUM_IDS));
      qs := seq(NUM_IDS + 1, _ => []);
    }

    method SetState(t: nat, st: TState)
      requires Valid() && t < NUM_IDS
      modifies tcb
      ensures Valid()
      ensures StatesOf(tcb[..]) == old(StatesOf(tcb[..]))[t := st]
    {
      StateRep(Arrays(), qs, t, st);
      hide Rep;
      tcb[t] := tcb[t].(state := st);
      assert Arrays() == old(Arrays()).(tcb := old(Arrays()).tcb[t := old(tcb[t]).(state := st)]);
    }

    // The accessors of PTCBIntro and PTQueueIntro that write.

    method TcbSetPrev(t: nat, prev: nat)
      requires Shape() && t < NUM_IDS
      modifies tcb
      ensures tcb[..] == SetPrev(old(tcb[..]), t, prev)
    {
      tcb[t] := tcb[t].(prev := prev);
    }

    method TcbSetNext(t: nat, next: nat)
      requires Shape() && t < NUM_IDS
      modifies tcb
      ensures tcb[..] == SetNext(old(tcb[..]), t, next)
    {
      tcb[t] := tcb[t].(next := next);
    }

    method TqueueSetHead(c: nat, head: nat)
      requires Shape() && c <= NUM_IDS
      modifies tq
      ensures tq[..] == old(tq[..])[c := old(tq[c]).(head := head)]
    {
      tq[c] := tq[c].(head := head);
    }

    method TqueueSetTail(c: nat, tail: nat)
      requires Shape() && c <= NUM_IDS
      modifies tq
      ensures tq[..] == old(tq[..])[c := old(tq[c]).(tail := tail)]
    {
      tq[c] := tq[c].(tail := tail);
    }

    /** Appends an unqueued thread. */
    method Enqueue(chid: nat, pid: nat)
      requires Valid() && chid <= NUM_IDS && pid < NUM_IDS && Loose(pid)
      modifies this`qs, tcb, tq
      ensures Valid() && qs == old(qs)[chid := old(qs)[chid] + [pid]]
      ensures StatesOf(tcb[..]) == old(StatesOf(tcb[..]))
    {
      EnqueueRep(Arrays(), qs, chid, pid);
      TailOf(Arrays(), qs, chid);
      hide Rep, LooseIn;
      if tq[chid].tail == NUM_IDS {
        TqueueSetHead(chid, pid);
        TqueueSetTail(chid, pid);
        TcbSetPrev(pid, NUM_IDS);
        TcbSetNext(pid, NUM_IDS);
      } else {
        var target := tq[chid].tail;
        TcbSetNext(target, pid);
        TcbSetPrev(pid, target);
        TcbSetNext(pid, NUM_IDS);
        TqueueSetTail(chid, pid);
      }
      qs := qs[chid := qs[chid] + [pid]];
      assert Arrays() == AfterEnqueue(old(Arrays()), chid, pid);
    }

    /** Marks an unqueued thread ready and appends it to the ready queue. */
    method MakeReady(pid: nat)
      requires Valid() && pid < NUM_IDS && Loose(pid)
      modifies this`qs, tcb, tq
      ensures Valid() && qs == old(qs)[NUM_IDS := old(qs)[NUM_IDS] + [pid]]
      ensures StatesOf(tcb[..]) == old(StatesOf(tcb[..]))[pid := Ready]
    {
      SetState(pid, Ready);
      Enqueue(NUM_IDS, pid);
    }

    /** Takes the head of a queue; NUM_IDS if the queue is empty. */
    method Dequeue(chid: nat) returns (res: nat)
      requires Valid() && chid <= NUM_IDS
      modifies this`qs, tcb, tq
      ensures Valid()
      ensures old(qs)[chid] == [] ==> res == NUM_IDS && qs == old(qs)
      ensures old(qs)[chid] != [] ==> res == old(qs)[chid][0] && qs == old(qs)[chid := old(qs)[chid][1..]] && Loose(res)
      ensures StatesOf(tcb[..]) == old(StatesOf(tcb[..]))
    {
      TailOf(Arrays(), qs, chid);
      hide Rep, LooseIn;
      if tq[chid].head == NUM_IDS {
        return NUM_IDS;
      }
      DequeueRep(Arrays(), qs, chid);
      res := tq[chid].head;
      if tq[chid].head == tq[chid].tail {
        TcbSetPrev(res, NUM_IDS);
        TcbSetNext(res, NUM_IDS);
        TqueueSetHead(chid, NUM_IDS);
        TqueueSetTail(chid, NUM_IDS);
      } else {
        var nextHead := tcb[res].next;
        TqueueSetHead(chid, nextHead);
        TcbSetPrev(nextHead, NUM_IDS);
        TcbSetPrev(res, NUM_IDS);
        TcbSetNext(res, NUM_IDS);
      }
      qs := qs[chid := qs[chid][1..]];
      assert Arrays() == AfterDequeue(old(Arrays()), chid);
    }

    /** The walk of `tqueue_remove`: NUM_IDS if `pid` is not on the queue, else `pid`. */
    method Find(chid: nat, pid: nat) returns (target: nat, ghost k: nat)
      requires Valid() && chid <= NUM_IDS
      ensures target == if pid in qs[chid] then pid else NUM_IDS
      ensures target != NUM_IDS ==> k < |qs[chid]| && qs[chid][k] == pid
      ensures target == NUM_IDS ==> pid !in qs[chid]
    {
      ghost var xs := qs[chid];
      RepGives(Arrays(), qs, chid);
      hide Rep, Separate, NoRepeats;
      k := 0;
      target := NUM_IDS;
      var next := tq[chid].head;
      while next != NUM_IDS
        invariant 0 <= k <= |xs| && next == (if k < |xs| then xs[k] else NUM_IDS)
        invariant pid !in xs[..k]
        decreases |xs| - k
      {
        assert LinkedAt(tcb[..], xs, k);
        if next == pid {
          return pid, k;
        } else {
          next := tcb[next].next;
          k := k + 1;
        }
      }
      assert k < |xs| ==> LinkedAt(tcb[..], xs, k);
      assert xs[..k] == xs;
    }

    /** The unlinking part of `tqueue_remove`. */
    method Unlink(chid: nat, target: nat, ghost k: nat)
      requires Valid() && chid <= NUM_IDS && k < |qs[chid]| && qs[chid][k] == target
      modifies this`qs, tcb, tq
      ensures Valid() && qs == old(qs)[chid := old(qs)[chid][..k] + old(qs)[chid][k + 1..]] && Loose(target)
      ensures StatesOf(tcb[..]) == old(StatesOf(tcb[..]))
    {
      RepGives(Arrays(), qs, chid);
      UnlinkRep(Arrays(), qs, chid, k);
      NeighboursInRange(Arrays(), chid, qs[chid], k);
      hide Rep, LooseIn, Separate, Represents, NoRepeats;
      var nx, prev := tcb[target].next, tcb[target].prev;
      if tq[chid].head == target {
        TqueueSetHead(chid, nx);
      }
      if tq[chid].tail == target {
        TqueueSetTail(chid, prev);
      }
      assert tq[..] == AfterUnlink(old(Arrays()), chid, target).tq;
      if nx != NUM_IDS {
        TcbSetPrev(nx, prev);
        TcbSetNext(target, NUM_IDS);
      }
      if prev != NUM_IDS {
        TcbSetNext(prev, nx);
        TcbSetPrev(target, NUM_IDS);
      }
      qs := qs[chid := qs[chid][..k] + qs[chid][k + 1..]];
      assert Arrays() == AfterUnlink(old(Arrays()), chid, target);
      UnlinkStates(old(Arrays()), chid, target);
    }

    /** Takes a thread out of a queue wherever it is; does nothing if it is not there. */
    method Remove(chid: nat, pid: nat)
      requires Valid() && chid <= NUM_IDS
      modifies this`qs, tcb, tq
      ensures Valid() && qs == old(qs)[chid := Without(old(qs)[chid], pid)]
      ensures pid in old(qs)[chid] ==> Loose(pid)
      ensures StatesOf(tcb[..]) == old(StatesOf(tcb[..]))
    {
      RepGives(Arrays(), qs, chid);
      var target, k := Find(chid, pid);
      if target == NUM_IDS {
        WithoutAbsent(qs[chid], pid);
        assert qs == qs[chid := qs[chid]];
        return;
      }
      WithoutAt(qs[chid], k);
      Unlink(chid, target, k);
    }
  }
}
