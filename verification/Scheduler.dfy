/** The round-robin scheduler (layer PThread): `thread_init`, `thread_spawn`, `thread_yield`. */
module Scheduler {
  import opened Words
  import opened Containers
  import opened ContainerTable
  import opened ThreadQueues

  // ----- The scheduler as a state machine

  /** Thread states, the ready queue, the current thread, and the containers threads come from. */
  datatype Sched = Sched(state: seq<TState>, ready: seq<nat>, cur: nat, pmm: Pmm)

  datatype Event = Spawn(id: nat, quota: Word) | Yield

  function AfterSpawn(s: Sched, id: nat, quota: Word): (r: (Sched, nat))
    requires |s.state| == NUM_IDS
  {
    var (m, child) := KctxNew(s.pmm, id, quota);
    if child >= NUM_IDS then (s.(pmm := m), child)
    else (Sched(s.state[child := Ready], s.ready + [child], s.cur, m), child)
  }

  function AfterYield(s: Sched): (r: Sched)
    requires |s.state| == NUM_IDS && s.cur < NUM_IDS && forall k :: 0 <= k < |s.ready| ==> s.ready[k] < NUM_IDS
  {
    if s.ready == [] then s
    else
      var next := s.ready[0];
      Sched(s.state[s.cur := Ready][next := Running], s.ready[1..] + [s.cur], next, s.pmm)
  }

  /** Ready means on the ready queue, once; the current thread alone runs and is not queued; a
      thread is alive exactly when its container is in use. */
  ghost predicate Inv(s: Sched) {
    && |s.state| == NUM_IDS && s.cur < NUM_IDS && PmmInv(s.pmm)
    && NoRepeats(s.ready) && s.cur !in s.ready
    && (forall k :: 0 <= k < |s.ready| ==> s.ready[k] < NUM_IDS)
    && (forall t :: 0 <= t < NUM_IDS ==> (s.state[t] == Ready <==> t in s.ready))
    && (forall t :: 0 <= t < NUM_IDS ==> (s.state[t] == Running <==> t == s.cur))
    && (forall t :: 0 <= t < NUM_IDS ==> (s.state[t] != Dead <==> s.pmm.cont[t].used))
  }

  function Step(s: Sched, e: Event): (r: Sched)
    requires Inv(s)
  {
    match e
    case Spawn(id, quota) => AfterSpawn(s, id, quota).0
    case Yield => AfterYield(s)
  }

  /** A spawn succeeds exactly when the spawner has a child slot and the quota fits; the child, dead until
      then, is put at the end of the ready queue and gets that quota, charged to the spawner, and no other
      container changes. */
  lemma SpawnKeeps(s: Sched, id: nat, quota: Word)
    requires Inv(s)
    ensures var (s', child) := AfterSpawn(s, id, quota);
            Inv(s') && s'.cur == s.cur && s.ready <= s'.ready
            && (child != NUM_IDS <==> HasSlot(s.pmm.cont, id) && quota <= Slack(s.pmm.cont[id]))
            && (child == NUM_IDS ==> s' == s)
            && (child != NUM_IDS ==> s'.ready == s.ready + [child] && s.state[child] == Dead
                                     && SplitGives(s.pmm, s'.pmm, id, quota, child))
  {
    var (s', child) := AfterSpawn(s, id, quota);
    KctxNewKeeps(s.pmm, id, quota);
    KctxNewForm(s.pmm, id, quota);
    KctxNewGives(s.pmm, id, quota);
    hide PmmInv, KctxNew;
    if child < NUM_IDS {
      assert s.state[child] == Dead;
      assert child !in s.ready;
    }
  }

  lemma NewThreadIsLoose(s: Sched, id: nat, quota: Word)
    requires Inv(s)
    ensures var (_, child) := KctxNew(s.pmm, id, quota);
            child != NUM_IDS ==> child < NUM_IDS && child !in s.ready
  {
    KctxNewKeeps(s.pmm, id, quota);
    var child := KctxNew(s.pmm, id, quota).1;
    assert child != NUM_IDS ==> s.state[child] == Dead;
  }

  lemma YieldKeeps(s: Sched)
    requires Inv(s)
    ensures var s' := AfterYield(s);
            Inv(s') && s'.pmm == s.pmm
            && (s.ready == [] ==> s' == s)
            && (s.ready != [] ==> s'.cur == s.ready[0] && s'.ready == s.ready[1..] + [s.cur])
  {
    hide PmmInv;
    if s.ready != [] {
      var s' := AfterYield(s);
      assert s.ready == [s.ready[0]] + s.ready[1..];
      assert s.state[s.cur] == Running && s.state[s.ready[0]] == Ready;
      forall t ensures t in s'.ready <==> (t in s.ready && t != s.ready[0]) || t == s.cur {
      }
    }
  }

  lemma StepKeeps(s: Sched, e: Event)
    requires Inv(s)
    ensures Inv(Step(s, e))
  {
    match e
    case Spawn(id, quota) => SpawnKeeps(s, id, quota);
    case Yield => YieldKeeps(s);
  }

  ghost function Run(s: Sched, evs: seq<Event>): (r: Sched)
    requires Inv(s)
    ensures Inv(r)
    decreases |evs|
  {
    if evs == [] then s
    else
      StepKeeps(s, evs[0]);
      Run(Step(s, evs[0]), evs[1..])
  }

  function Yields(evs: seq<Event>): (n: nat) {
    if evs == [] then 0 else Yields(evs[1..]) + if evs[0].Yield? then 1 else 0
  }

  /** Without a yield the current thread stays. */
  lemma {:induction false} NoYieldNoSwitch(s: Sched, evs: seq<Event>)
    requires Inv(s) && Yields(evs) == 0
    ensures Run(s, evs).cur == s.cur
    decreases |evs|
  {
    hide Inv;
    if evs != [] {
      StepKeeps(s, evs[0]);
      SpawnKeeps(s, evs[0].id, evs[0].quota);
      NoYieldNoSwitch(Step(s, evs[0]), evs[1..]);
    }
  }

  /** Round robin: the thread at position k of the ready queue runs after exactly k + 1 yields,
      whatever spawns come in between, and not before. */
  lemma {:induction false} RunsAfterExactly(s: Sched, evs: seq<Event>, k: nat)
    requires Inv(s) && k < |s.ready|
    ensures Yields(evs) <= k ==> Run(s, evs).cur != s.ready[k]
    ensures Yields(evs) == k + 1 ==> Run(s, evs).cur == s.ready[k]
    decreases |evs|
  {
    hide PmmInv, NoRepeats, AfterSpawn, AfterYield;
    if evs == [] {
      assert s.ready[k] in s.ready;
    } else {
      var s1 := Step(s, evs[0]);
      StepKeeps(s, evs[0]);
      match evs[0] {
        case Spawn(id, quota) =>
          SpawnKeeps(s, id, quota);
          RunsAfterExactly(s1, evs[1..], k);
        case Yield =>
          YieldKeeps(s);
          if k > 0 {
            assert s1.ready[k - 1] == s.ready[k];
            RunsAfterExactly(s1, evs[1..], k - 1);
          } else if Yields(evs[1..]) == 0 {
            NoYieldNoSwitch(s1, evs[1..]);
          }
      }
    }
  }

  /** The state `thread_init` leaves: thread 0 runs, nobody else exists. */
  function Boot(m: Pmm): (s: Sched) {
    Sched(seq(NUM_IDS, t => if t == 0 then Running else Dead), [], 0, m)
  }

  lemma BootInv(m: Pmm)
    requires PmmInv(m) && forall t :: 1 <= t < NUM_IDS ==> !m.cont[t].used
    ensures Inv(Boot(m))
  {
  }

  /** A thread that is not ready is on no queue, as only the ready queue is in use. */
  lemma NotReadyIsLoose(qs: seq<seq<nat>>, t: nat)
    requires |qs| == NUM_IDS + 1 && t !in qs[NUM_IDS] && forall c :: 0 <= c < NUM_IDS ==> qs[c] == []
    ensures LooseIn(qs, t)
  {
  }

  lemma InvParts(s: Sched)
    requires Inv(s)
    ensures |s.state| == NUM_IDS && s.cur < NUM_IDS && s.cur !in s.ready
    ensures forall k :: 0 <= k < |s.ready| ==> s.ready[k] < NUM_IDS
  {
  }

  // ----- The scheduler as the code keeps it

  class Threads {
    const queues: QueuePool
    const pool: ContainerArray
    var cur: nat  // CURID

    ghost predicate Valid()
      reads this, queues, queues.tcb, queues.tq, pool.cont, pool.alloc.at
    {
      && queues.Valid() && pool.Valid()
      && queues.tcb as object != pool.cont && queues.tq as object != pool.cont
      && queues.tcb as object != pool.alloc.at && queues.tq as object != pool.alloc.at
      && (forall c :: 0 <= c < NUM_IDS ==> queues.qs[c] == [])
      && Inv(State())
    }

    ghost function State(): (s: Sched)
      requires pool.Valid() && |queues.qs| == NUM_IDS + 1
      reads this, queues, queues.tcb, pool.cont, pool.alloc.at
    {
      Sched(StatesOf(queues.tcb[..]), queues.qs[NUM_IDS], cur, pool.State())
    }

    /** `thread_init` over containers of which only the root is in use. */
    constructor (containers: ContainerArray)
      requires containers.Valid() && PmmInv(containers.State())
      requires forall t :: 1 <= t < NUM_IDS ==> !containers.State().cont[t].used
      ensures Valid() && pool == containers && fresh(queues) && fresh(queues.tcb) && fresh(queues.tq)
      ensures State() == Boot(containers.State())
    {
      queues := new QueuePool();
      pool := containers;
      cur := 0;
      new;
      queues.SetState(0, Running);
      BootInv(pool.State());
      assert StatesOf(queues.tcb[..]) == Boot(pool.State()).state;
    }

    method Spawn(id: nat, quota: Word) returns (child: nat)
      requires Valid()
      modifies queues`qs, queues.tcb, queues.tq, pool.cont
      ensures Valid() && cur == old(cur)
      ensures (State(), child) == AfterSpawn(old(State()), id, quota)
    {
      hide Rep, Inv, StatesOf, KctxNew, LooseIn;
      queues.QueueCount();
      InvParts(State());
      SpawnKeeps(State(), id, quota);
      NewThreadIsLoose(State(), id, quota);
      child := pool.KctxNew(id, quota);
      if child == NUM_IDS {
        return NUM_IDS;
      }
      NotReadyIsLoose(queues.qs, child);
      queues.MakeReady(child);
      assert State() == AfterSpawn(old(State()), id, quota).0;
    }

    /** Puts the current thread at the end of the ready queue and runs `next` instead. */
    method SwitchTo(next: nat)
      requires queues.Valid() && cur < NUM_IDS && next < NUM_IDS && queues.Loose(cur)
      modifies this`cur, queues`qs, queues.tcb, queues.tq
      ensures queues.Valid() && cur == next
      ensures queues.qs == old(queues.qs)[NUM_IDS := old(queues.qs)[NUM_IDS] + [old(cur)]]
      ensures StatesOf(queues.tcb[..]) == old(StatesOf(queues.tcb[..]))[old(cur) := Ready][next := Running]
    {
      queues.MakeReady(cur);
      queues.SetState(next, Running);
      cur := next;
    }

    method Yield()
      requires Valid()
      modifies this`cur, queues`qs, queues.tcb, queues.tq
      ensures Valid()
      ensures State() == AfterYield(old(State()))
    {
      hide Rep, Inv, StatesOf, LooseIn;
      queues.QueueCount();
      InvParts(State());
      NotReadyIsLoose(queues.qs, cur);
      ghost var after := AfterYield(State());
      YieldKeeps(State());
      var next := queues.Dequeue(NUM_IDS);
      if next == NUM_IDS {
        assert State() == old(State());
        return;
      }
      SwitchTo(next);
      assert State() == after;
    }
  }
}
