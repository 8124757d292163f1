/** Boot, end to end: from the memory map the firmware reports to a kernel whose invariants hold. */
module Boot {
  import opened Words
  import opened AllocTable
  import opened Containers
  import opened PageTables
  import opened Mapping
  import opened MemoryMap
  import opened BootClassify
  import opened PageStructure
  import opened PhysicalMap
  import Ledger
  import CowRefinement

  /** The state a successful boot on the E820 table `es` leaves. */
  ghost predicate Booted(s: Vm, es: seq<E820>) {
    && Inv(s) && BootMap(s) && Lost(s.pmm) == 0 && Classified(s.pmm.at, Built(es))
    && s.pmm == Ledger.Boot(s.pmm.at).m && Ledger.Inv(Ledger.Boot(s.pmm.at))
  }

  /** Allocator, containers and paging set up in turn; false where the kernel panics. */
  method BootKernel(es: seq<E820>, base: IdBase) returns (mem: PagedMemory, ok: bool)
    ensures mem.Valid() && (ok <==> |Kept(es)| <= SLOTS && forall r :: r in Built(es) ==> 1 <= r.ty <= 4)
    ensures ok ==> Booted(mem.State(), es)
  {
    hide Built, Kept, Inv, Classified, Ledger.Inv, Ledger.Boot, PmmInv, Lost, Flat;
    mem := new PagedMemory(base);
    assert mem.State().pmm.cont == mem.pool.cont[..] && mem.State().pmm.at == mem.pool.alloc.at[..];
    assert forall f :: 0 <= f < TABLE_SIZE ==> mem.phys[f] == mem.State().phys[f];
    ok := BootMemory(es, mem.pool);
    if ok {
      BootPmm(mem.State().pmm);
      mem.PagingInit();
    }
  }

  lemma BootPmm(m: Pmm)
    requires m == Ledger.Boot(m.at).m && Ledger.Inv(Ledger.Boot(m.at))
    ensures PmmInv(m) && Lost(m) == 0
  {
  }

  lemma BootMemories(s: Vm, p: nat)
    requires BootMap(s) && p < NUM_IDS
    ensures CowRefinement.Abs(s)[p] == map[]
  {
    CowRefinement.AbsIs(s, p);
    forall u ensures CowRefinement.ViewAt(s, p, u) == None {
      if p > 0 && UserPage(u) {
        FlatUser(s, p, u);
      }
    }
  }

  /** Whatever the machine's memory map, every run of process creations, user stores, page
      faults, mappings, unmappings and forks after boot gives every process the memory of a machine that starts with
      empty memories, in which processes share nothing and forks copy everything. */
  lemma EveryRunFromBoot(s: Vm, es: seq<E820>, evs: seq<CowRefinement.Event>)
    requires Booted(s, es) && forall k :: 0 <= k < |evs| ==> CowRefinement.Enabled(evs[k])
    requires CowRefinement.RunRaised(s, evs) && CowRefinement.RunHarmless(s, evs)
    ensures var s' := CowRefinement.Run(s, evs);
            Inv(s') && CowRefinement.Abs(s') == CowRefinement.ActAll(NoMemory(), CowRefinement.Labels(s, evs))
  {
    hide Inv, CowRefinement.Abs, CowRefinement.Run, CowRefinement.ActAll, CowRefinement.Labels, BootMap;
    CowRefinement.RunRefines(s, evs);
    BootIsEmpty(s);
  }

  /** At boot no process has any memory. */
  lemma BootIsEmpty(s: Vm)
    requires BootMap(s)
    ensures CowRefinement.Abs(s) == NoMemory()
  {
    hide CowRefinement.Abs, BootMap;
    forall p | 0 <= p < NUM_IDS ensures CowRefinement.Abs(s)[p] == map[] {
      BootMemories(s, p);
    }
  }

  lemma NothingTaken(s: Vm, es: seq<E820>)
    requires Booted(s, es)
    ensures forall i :: !IsTaken(s.pmm.at, i)
  {
    hide Inv, BootMap, Ledger.Inv;
    BootTable(s.pmm.at, Built(es));
  }

  function NoMemory(): (a: CowRefinement.Memories) {
    seq(NUM_IDS, _ => map[])
  }
}
