/** The memory map as kern/dev/mboot.c keeps it: static slots threaded by links into one list of
    all rows and one list per type. */
module PhysicalMap {
  import opened Words
  import opened MemoryMap

  const SLOTS := 128  // also the null link

  // ----- Singly linked lists through an array of links

  ghost predicate StepAt(next: seq<int>, xs: seq<int>, k: int)
    requires |next| == SLOTS && 0 <= k < |xs|
  {
    0 <= xs[k] < SLOTS && next[xs[k]] == if k + 1 < |xs| then xs[k + 1] else SLOTS
  }

  /** Following `next` from `head` visits exactly `xs`. */
  ghost predicate Chain(next: seq<int>, head: int, xs: seq<int>)
    requires |next| == SLOTS
  {
    head == (if xs == [] then SLOTS else xs[0])
    && forall k :: 0 <= k < |xs| ==> StepAt(next, xs, k)
  }

  ghost predicate NoDup(xs: seq<int>) {
    forall k, l :: 0 <= k < l < |xs| ==> xs[k] != xs[l]
  }

  /** SLIST_INSERT_HEAD (k = 0) and SLIST_INSERT_AFTER. */
  ghost function Linked(next: seq<int>, xs: seq<int>, k: nat, x: nat): (r: seq<int>)
    requires |next| == SLOTS && k <= |xs| && x < SLOTS
    ensures |r| == SLOTS
  {
    var following := if k < |xs| then xs[k] else SLOTS;
    var n1 := next[x := following];
    if k > 0 && 0 <= xs[k - 1] < SLOTS then n1[xs[k - 1] := x] else n1
  }

  lemma ChainInsert(next: seq<int>, head: int, xs: seq<int>, k: nat, x: nat)
    requires |next| == SLOTS && Chain(next, head, xs) && NoDup(xs) && k <= |xs| && x < SLOTS && x !in xs
    ensures var ys := xs[..k] + [x] + xs[k..];
            Chain(Linked(next, xs, k, x), if k == 0 then x else head, ys) && NoDup(ys)
  {
    var ys := xs[..k] + [x] + xs[k..];
    var next' := Linked(next, xs, k, x);
    assert k > 0 ==> StepAt(next, xs, k - 1);
    forall l | 0 <= l < |ys| ensures StepAt(next', ys, l) {
      if l < k {
        assert StepAt(next, xs, l);
        assert ys[l] == xs[l] && (l + 1 < k ==> ys[l + 1] == xs[l + 1]);
      } else if l == k {
        assert k < |xs| ==> ys[k + 1] == xs[k];
      } else {
        assert StepAt(next, xs, l - 1);
        assert ys[l] == xs[l - 1] && (l + 1 < |ys| ==> ys[l + 1] == xs[l]);
      }
    }
  }

  /** SLIST_REMOVE_AFTER */
  lemma ChainRemoveAfter(next: seq<int>, head: int, xs: seq<int>, k: nat)
    requires |next| == SLOTS && Chain(next, head, xs) && NoDup(xs) && k + 1 < |xs|
    ensures StepAt(next, xs, k) && StepAt(next, xs, k + 1)
    ensures var ys := xs[..k + 1] + xs[k + 2..];
            Chain(next[xs[k] := next[xs[k + 1]]], head, ys) && NoDup(ys)
  {
    var ys := xs[..k + 1] + xs[k + 2..];
    assert StepAt(next, xs, k) && StepAt(next, xs, k + 1);
    var next' := next[xs[k] := next[xs[k + 1]]];
    forall l | 0 <= l < |ys| ensures StepAt(next', ys, l) {
      var m := if l <= k then l else l + 1;
      assert StepAt(next, xs, m);
      assert ys[l] == xs[m];
      assert l + 1 < |ys| ==> ys[l + 1] == if l + 1 <= k then xs[l + 1] else xs[l + 2];
    }
  }

  lemma ChainFrame(next: seq<int>, next': seq<int>, head: int, xs: seq<int>)
    requires |next| == SLOTS && |next'| == SLOTS && Chain(next, head, xs)
    requires forall x :: 0 <= x < SLOTS && x in xs ==> next'[x] == next[x]
    ensures Chain(next', head, xs)
  {
    forall k | 0 <= k < |xs| ensures StepAt(next', xs, k) {
      assert StepAt(next, xs, k);
    }
  }

  lemma StepsAt(next: seq<int>, head: int, xs: seq<int>, k: nat)
    requires |next| == SLOTS && Chain(next, head, xs) && k < |xs|
    ensures 0 <= xs[k] < SLOTS && next[xs[k]] == (if k + 1 < |xs| then xs[k + 1] else SLOTS)
    ensures k + 1 < |xs| ==> 0 <= xs[k + 1] < SLOTS
  {
    assert StepAt(next, xs, k);
    assert k + 1 < |xs| ==> StepAt(next, xs, k + 1);
  }

  lemma NotBefore(xs: seq<int>, k: nat)
    requires NoDup(xs) && k < |xs|
    ensures xs[k] !in xs[..k]
  {
  }

  lemma TakeOne(xs: seq<int>, k: nat)
    requires k < |xs|
    ensures xs[..k + 1] == xs[..k] + [xs[k]]
  {
  }

  ghost predicate InRange(xs: seq<int>) {
    forall k :: 0 <= k < |xs| ==> 0 <= xs[k] < SLOTS
  }

  ghost function RowsOf(rows: seq<Row>, xs: seq<int>): (rs: seq<Row>)
    requires |rows| == SLOTS && InRange(xs)
    ensures |rs| == |xs|
  {
    seq(|xs|, k requires 0 <= k < |xs| => rows[xs[k]])
  }

  lemma {:induction false} InsertAt(xs: seq<Row>, r: Row, k: nat)
    requires k <= |xs| && (forall l :: 0 <= l < k ==> xs[l].start <= r.start) && (k < |xs| ==> r.start < xs[k].start)
    ensures Insert(xs, r) == xs[..k] + [r] + xs[k..]
  {
    if k > 0 {
      var t := xs[1..];
      InsertAt(t, r, k - 1);
      assert t[..k - 1] == xs[1..k] && t[k - 1..] == xs[k..];
      assert [xs[0]] + xs[1..k] == xs[..k];
      assert Insert(xs, r) == [xs[0]] + (xs[1..k] + [r] + xs[k..]);
    } else {
      assert xs[..0] + [r] + xs[0..] == [r] + xs;
    }
  }

  lemma RowsInsert(rows: seq<Row>, xs: seq<int>, k: nat, slot: nat)
    requires |rows| == SLOTS && InRange(xs) && k <= |xs| && slot < SLOTS
    ensures InRange(xs[..k] + [slot] + xs[k..])
    ensures RowsOf(rows, xs[..k] + [slot] + xs[k..]) == RowsOf(rows, xs)[..k] + [rows[slot]] + RowsOf(rows, xs)[k..]
  {
  }

  /** Progress of the merging pass: the first `k` rows are final. */
  ghost predicate MergedTo(rs: seq<Row>, k: int, all: seq<Row>) {
    0 <= k <= |rs| && rs[..k] + Merge(rs[k..]) == all
  }

  lemma MergedSkip(rs: seq<Row>, k: nat, all: seq<Row>)
    requires MergedTo(rs, k, all) && k + 1 < |rs| && !Joins(rs[k], rs[k + 1])
    ensures MergedTo(rs, k + 1, all)
  {
    MergeUnfold(rs, k);
    assert rs[..k + 1] == rs[..k] + [rs[k]];
  }

  lemma MergedJoin(rs: seq<Row>, rs': seq<Row>, k: nat, all: seq<Row>)
    requires MergedTo(rs, k, all) && k + 1 < |rs| && Joins(rs[k], rs[k + 1])
    requires rs' == rs[..k] + [Joined(rs[k], rs[k + 1])] + rs[k + 2..]
    ensures MergedTo(rs', k + 1, all)
  {
    MergeUnfold(rs, k);
    assert rs'[k + 1..] == rs[k + 2..];
    assert rs'[..k + 1] == rs[..k] + [Joined(rs[k], rs[k + 1])];
  }

  lemma MergedEnd(rs: seq<Row>, k: nat, all: seq<Row>)
    requires MergedTo(rs, k, all) && k + 1 >= |rs|
    ensures rs == all
  {
    assert rs[..k] + rs[k..] == rs;
  }

  lemma MergeUnfold(rs: seq<Row>, k: nat)
    requires k + 1 < |rs|
    ensures Merge(rs[k..]) == if Joins(rs[k], rs[k + 1]) then [Joined(rs[k], rs[k + 1])] + Merge(rs[k + 2..])
                              else [rs[k]] + Merge(rs[k + 1..])
  {
    assert rs[k..][1..] == rs[k + 1..] && rs[k..][2..] == rs[k + 2..];
  }

  // ----- Lists by type

  /** For one type: the chain through `links`, its rows taken from the slots `seen` so far. */
  ghost predicate TypeList(links: seq<int>, head: int, xs: seq<int>, rows: seq<Row>, seen: seq<int>, ty: Word)
    requires |links| == SLOTS && |rows| == SLOTS && InRange(seen)
  {
    && Chain(links, head, xs) && NoDup(xs) && InRange(xs)
    && (forall x :: x in xs ==> x in seen && 0 <= x < SLOTS && rows[x].ty == ty)
    && RowsOf(rows, xs) == OfType(RowsOf(rows, seen), ty)
  }

  ghost function Last(xs: seq<int>): (t: int) { if xs == [] then SLOTS else xs[|xs| - 1] }

  /** `last` holds the last slot of each list. */
  ghost predicate Ends(subs: seq<seq<int>>, last: seq<int>) {
    |subs| == 4 && |last| == 4 && forall nr :: 0 <= nr < 4 ==> last[nr] == Last(subs[nr])
  }

  lemma EndsGrow(subs: seq<seq<int>>, last: seq<int>, nr: nat, x: nat)
    requires Ends(subs, last) && nr < 4
    ensures last[nr] == Last(subs[nr])
    ensures Ends(subs[nr := subs[nr] + [x]], last[nr := x])
  {
  }

  /** The links after slot `x` was put at the end of the chain whose last slot is `last`. */
  ghost function Appended(links: seq<int>, last: int, x: nat): (r: seq<int>)
    requires |links| == SLOTS && x < SLOTS
    ensures |r| == SLOTS
  {
    var l1 := links[x := SLOTS];
    if 0 <= last < SLOTS then l1[last := x] else l1
  }

  lemma RowsAppend(rows: seq<Row>, xs: seq<int>, x: nat)
    requires |rows| == SLOTS && InRange(xs) && x < SLOTS
    ensures InRange(xs + [x]) && RowsOf(rows, xs + [x]) == RowsOf(rows, xs) + [rows[x]]
  {
  }

  lemma OfTypeAppend(rs: seq<Row>, r: Row, ty: Word)
    ensures OfType(rs + [r], ty) == OfType(rs, ty) + if r.ty == ty then [r] else []
  {
    assert (rs + [r])[..|rs|] == rs;
  }

  /** The list of the type of slot `x` gains it at the end. */
  lemma TypeListGrows(links: seq<int>, head: int, xs: seq<int>, rows: seq<Row>, seen: seq<int>, ty: Word, x: nat)
    requires |links| == SLOTS && |rows| == SLOTS && InRange(seen) && x < SLOTS && x !in seen
    requires TypeList(links, head, xs, rows, seen, ty) && rows[x].ty == ty
    ensures InRange(seen + [x])
    ensures TypeList(Appended(links, Last(xs), x), if xs == [] then x else head, xs + [x], rows, seen + [x], ty)
    ensures if xs == [] then head == SLOTS
            else 0 <= Last(xs) < SLOTS && links[Last(xs)] == SLOTS && rows[Last(xs)].ty == ty
  {
    assert x !in xs;
    assert xs != [] ==> Last(xs) in xs;
    assert xs != [] ==> StepAt(links, xs, |xs| - 1);
    ChainInsert(links, head, xs, |xs|, x);
    assert xs[..|xs|] + [x] + xs[|xs|..] == xs + [x];
    RowsAppend(rows, xs, x);
    RowsAppend(rows, seen, x);
    OfTypeAppend(RowsOf(rows, seen), rows[x], ty);
  }

  /** The lists of the other types stay as they are. */
  lemma TypeListStays(links: seq<int>, head: int, xs: seq<int>, rows: seq<Row>, seen: seq<int>, ty: Word, x: nat, last: int)
    requires |links| == SLOTS && |rows| == SLOTS && InRange(seen) && x < SLOTS && x !in seen
    requires TypeList(links, head, xs, rows, seen, ty) && rows[x].ty != ty && (0 <= last < SLOTS ==> rows[last].ty != ty)
    ensures InRange(seen + [x])
    ensures TypeList(Appended(links, last, x), head, xs, rows, seen + [x], ty)
  {
    ChainFrame(links, Appended(links, last, x), head, xs);
    RowsAppend(rows, seen, x);
    OfTypeAppend(RowsOf(rows, seen), rows[x], ty);
  }

  ghost predicate AllTypes(links: seq<int>, heads: seq<int>, subs: seq<seq<int>>, rows: seq<Row>, seen: seq<int>)
    requires |links| == SLOTS && |rows| == SLOTS && |heads| == 4 && InRange(seen)
  {
    |subs| == 4 && forall nr :: 0 <= nr < 4 ==> TypeList(links, heads[nr], subs[nr], rows, seen, nr + 1)
  }

  lemma AllTypesGrow(links: seq<int>, heads: seq<int>, subs: seq<seq<int>>, rows: seq<Row>, seen: seq<int>, x: nat)
    requires |links| == SLOTS && |rows| == SLOTS && |heads| == 4 && InRange(seen) && x < SLOTS && x !in seen
    requires AllTypes(links, heads, subs, rows, seen) && 1 <= rows[x].ty <= 4
    ensures var nr := rows[x].ty - 1;
            InRange(seen + [x])
            && AllTypes(Appended(links, Last(subs[nr]), x), if subs[nr] == [] then heads[nr := x] else heads,
                        subs[nr := subs[nr] + [x]], rows, seen + [x])
            && (if subs[nr] == [] then heads[nr] == SLOTS == Last(subs[nr])
                else 0 <= Last(subs[nr]) < SLOTS && links[Last(subs[nr])] == SLOTS)
  {
    hide TypeList, Appended;
    var nr := rows[x].ty - 1;
    var links' := Appended(links, Last(subs[nr]), x);
    var heads' := if subs[nr] == [] then heads[nr := x] else heads;
    var subs' := subs[nr := subs[nr] + [x]];
    TypeListGrows(links, heads[nr], subs[nr], rows, seen, nr + 1, x);
    forall m | 0 <= m < 4 ensures TypeList(links', heads'[m], subs'[m], rows, seen + [x], m + 1) {
      if m != nr {
        TypeListStays(links, heads[m], subs[m], rows, seen, m + 1, x, Last(subs[nr]));
      }
    }
  }

  /** One round of step 2 of `pmmap_merge`, on the lists by type. */
  lemma ScanStep(links: seq<int>, heads: seq<int>, subs: seq<seq<int>>, last: seq<int>, rows: seq<Row>, list: seq<int>, k: nat)
    requires |links| == SLOTS && |rows| == SLOTS && |heads| == 4 && InRange(list) && NoDup(list) && k < |list|
    requires AllTypes(links, heads, subs, rows, list[..k]) && Ends(subs, last) && 1 <= rows[list[k]].ty <= 4
    ensures var nr := rows[list[k]].ty - 1;
            |subs| == 4 && |last| == 4
            && (if 0 <= last[nr] < SLOTS then links[last[nr]] == SLOTS else last[nr] == SLOTS == heads[nr])
            && AllTypes(Appended(links, last[nr], list[k]), if last[nr] == SLOTS then heads[nr := list[k]] else heads,
                        subs[nr := subs[nr] + [list[k]]], rows, list[..k + 1])
            && Ends(subs[nr := subs[nr] + [list[k]]], last[nr := list[k]])
  {
    hide Appended, TypeList;
    var nr := rows[list[k]].ty - 1;
    NotBefore(list, k);
    AllTypesGrow(links, heads, subs, rows, list[..k], list[k]);
    EndsGrow(subs, last, nr, list[k]);
    TakeOne(list, k);
  }

  /** The finished lists: each type's chain holds the rows of that type, in order. */
  ghost predicate SplitDone(links: seq<int>, heads: seq<int>, subs: seq<seq<int>>, rows: seq<Row>, rs: seq<Row>)
    requires |links| == SLOTS && |rows| == SLOTS && |heads| == 4
  {
    |subs| == 4 && forall nr :: 0 <= nr < 4 ==>
      InRange(subs[nr]) && Chain(links, heads[nr], subs[nr]) && RowsOf(rows, subs[nr]) == OfType(rs, nr + 1)
  }

  lemma AllSeen(links: seq<int>, heads: seq<int>, subs: seq<seq<int>>, rows: seq<Row>, seen: seq<int>)
    requires |links| == SLOTS && |rows| == SLOTS && |heads| == 4 && InRange(seen)
    requires AllTypes(links, heads, subs, rows, seen)
    ensures SplitDone(links, heads, subs, rows, RowsOf(rows, seen))
  {
    forall nr | 0 <= nr < 4
      ensures InRange(subs[nr]) && Chain(links, heads[nr], subs[nr]) && RowsOf(rows, subs[nr]) == OfType(RowsOf(rows, seen), nr + 1)
    {
      assert TypeList(links, heads[nr], subs[nr], rows, seen, nr + 1);
    }
  }

  lemma NothingSeen(links: seq<int>, rows: seq<Row>)
    requires |links| == SLOTS && |rows| == SLOTS
    ensures AllTypes(links, [SLOTS, SLOTS, SLOTS, SLOTS], [[], [], [], []], rows, [])
  {
  }

  lemma KeptStep(es: seq<E820>, n: nat)
    requires n < |es|
    ensures Kept(es[..n + 1]) == if es[n].baseHigh != 0 then Kept(es[..n]) else Kept(es[..n]) + [Clip(es[n])]
    ensures es[n].baseHigh == 0 ==> InsertAll(Kept(es[..n + 1])) == Insert(InsertAll(Kept(es[..n])), Clip(es[n]))
  {
    assert es[..n + 1][..n] == es[..n];
    if es[n].baseHigh == 0 {
      var rs := Kept(es[..n + 1]);
      assert rs[..|rs| - 1] == Kept(es[..n]);
    }
  }

  lemma {:induction false} KeptMonotone(es: seq<E820>, n: nat)
    requires n <= |es|
    ensures |Kept(es[..n])| <= |Kept(es)|
    decreases |es| - n
  {
    if n == |es| {
      assert es[..n] == es;
    } else {
      KeptStep(es, n);
      KeptMonotone(es, n + 1);
    }
  }

  class PhysMap {
    const rows: array<Row>
    const next: array<int>
    const typeNext: array<int>
    const sub: array<int>
    var head: int
    var free: nat
    ghost var list: seq<int>
    ghost var subs: seq<seq<int>>

    ghost predicate Shape() {
      && rows.Length == SLOTS && next.Length == SLOTS && typeNext.Length == SLOTS && sub.Length == 4
      && next != typeNext && next != sub && typeNext != sub
      && rows as object != next && rows as object != typeNext && rows as object != sub
    }

    ghost predicate Valid()
      reads this`head, this`free, this`list, next
    {
      && Shape() && free <= SLOTS
      && Chain(next[..], head, list) && NoDup(list)
      && (forall k :: 0 <= k < |list| ==> 0 <= list[k] < free)
    }

    /** The rows in list order. */
    ghost function Contents(): (rs: seq<Row>)
      requires Valid()
      reads this`head, this`free, this`list, next, rows
    {
      RowsOf(rows[..], list)
    }

    constructor ()
      ensures Valid() && Contents() == [] && free == 0
      ensures fresh(rows) && fresh(next) && fresh(typeNext) && fresh(sub)
      ensures sub[..] == [SLOTS, SLOTS, SLOTS, SLOTS] && subs == [[], [], [], []]
    {
      rows := new Row[SLOTS](_ => Row(0, 0, 0));
      next := new int[SLOTS](_ => SLOTS);
      typeNext := new int[SLOTS](_ => SLOTS);
      sub := new int[4](_ => SLOTS);
      head, free, list, subs := SLOTS, 0, [], [[], [], [], []];
    }

    /** The walk of `pmmap_insert`: the last slot whose start is not above `start`. */
    method FindPlace(start: Word) returns (last: int, ghost k: nat)
      requires Valid()
      ensures k <= |list| && last == (if k == 0 then SLOTS else list[k - 1])
      ensures forall l :: 0 <= l < k ==> Contents()[l].start <= start
      ensures k < |list| ==> start < Contents()[k].start
      ensures k > 0 ==> StepAt(next[..], list, k - 1)
    {
      var slot := head;
      last, k := SLOTS, 0;
      while slot != SLOTS
        invariant 0 <= k <= |list| && slot == (if k < |list| then list[k] else SLOTS)
        invariant last == if k == 0 then SLOTS else list[k - 1]
        invariant forall l :: 0 <= l < k ==> Contents()[l].start <= start
        invariant k > 0 ==> StepAt(next[..], list, k - 1)
        decreases |list| - k
      {
        assert StepAt(next[..], list, k);
        if start < rows[slot].start {
          break;
        }
        last := slot;
        slot := next[slot];
        k := k + 1;
      }
      assert k < |list| ==> StepAt(next[..], list, k);
    }

    /** `pmmap_insert`; false where the code panics because all slots are taken. */
    method InsertRow(start: Word, end: Word, ty: Word) returns (ok: bool)
      requires Valid()
      modifies this`head, this`free, this`list, rows, next
      ensures Valid()
      ensures ok <==> old(free) < SLOTS
      ensures ok ==> free == old(free) + 1 && Contents() == Insert(old(Contents()), Row(start, end, ty))
      ensures !ok ==> free == old(free) && Contents() == old(Contents())
    {
      if free == SLOTS {
        return false;
      }
      ghost var xs, rs := list, Contents();
      var slot := free;
      free := free + 1;
      rows[slot] := Row(start, end, ty);
      assert Contents() == rs;
      var last, k := FindPlace(start);
      InsertAt(rs, Row(start, end, ty), k);
      assert slot !in xs;
      hide Chain, NoDup, StepAt, Insert;
      LinkIn(slot, last, k);
      RowsInsert(rows[..], xs, k, slot);
      return true;
    }

    /** SLIST_INSERT_HEAD or SLIST_INSERT_AFTER, by whether there is a slot to insert after. */
    method LinkIn(slot: nat, last: int, ghost k: nat)
      requires Valid() && slot < free && slot !in list && k <= |list|
      requires last == (if k == 0 then SLOTS else list[k - 1])
      modifies this`head, this`list, next
      ensures Valid() && list == old(list)[..k] + [slot] + old(list)[k..]
    {
      ghost var xs := list;
      ChainInsert(next[..], head, xs, k, slot);
      assert k > 0 ==> StepAt(next[..], xs, k - 1);
      assert head == if xs == [] then SLOTS else xs[0];
      hide Chain, NoDup;
      if last == SLOTS {
        next[slot] := head;
        head := slot;
      } else {
        next[slot] := next[last];
        next[last] := slot;
      }
      list := xs[..k] + [slot] + xs[k..];
      assert next[..] == Linked(old(next[..]), xs, k, slot);
    }

    /** Step 1 of `pmmap_merge`. */
    method MergeRows()
      requires Valid()
      modifies this`list, rows, next
      ensures Valid() && free == old(free) && Contents() == Merge(old(Contents()))
    {
      var slot := head;
      ghost var k := 0;
      ghost var all := Merge(Contents());
      assert Contents()[0..] == Contents();
      while slot != SLOTS
        invariant Valid() && free == old(free) && 0 <= k <= |list| && slot == (if k < |list| then list[k] else SLOTS)
        invariant MergedTo(Contents(), k, all)
        decreases |list| - k
      {
        StepsAt(next[..], head, list, k);
        hide MergedTo;
        var nextSlot := next[slot];
        if nextSlot == SLOTS {
          break;
        }
        if Joins(rows[slot], rows[nextSlot]) {
          ghost var rs := Contents();
          JoinNext(slot, nextSlot, k);
          MergedJoin(rs, Contents(), k, all);
        } else {
          MergedSkip(Contents(), k, all);
        }
        StepsAt(next[..], head, list, k);
        slot := next[slot];
        k := k + 1;
      }
      MergedEnd(Contents(), k, all);
    }

    /** Lets the row at position `k` take in its neighbour. */
    method JoinNext(slot: nat, nextSlot: nat, ghost k: nat)
      requires Valid() && k + 1 < |list| && slot == list[k] && nextSlot == list[k + 1]
      modifies this`list, rows, next
      ensures Valid() && list == old(list)[..k + 1] + old(list)[k + 2..]
      ensures var rs := old(Contents());
              Contents() == rs[..k] + [Joined(rs[k], rs[k + 1])] + rs[k + 2..]
    {
      ghost var xs := list;
      ChainRemoveAfter(next[..], head, xs, k);
      rows[slot] := Joined(rows[slot], rows[nextSlot]);
      next[slot] := next[nextSlot];
      list := xs[..k + 1] + xs[k + 2..];
      assert next[..] == old(next[..])[xs[k] := old(next[..])[xs[k + 1]]];
      ghost var rs := old(Contents());
      forall l | 0 <= l < |list| ensures rows[list[l]] == (rs[..k] + [Joined(rs[k], rs[k + 1])] + rs[k + 2..])[l] {
        assert l != k ==> list[l] != xs[k];
      }
    }

    /** The lists by type, as far as the slots `seen` go. */
    ghost predicate TypesUpTo(seen: seq<int>)
      requires Shape() && InRange(seen)
      reads this, rows, typeNext, sub
    {
      AllTypes(typeNext[..], sub[..], subs, rows[..], seen)
    }

    /** Step 2 of `pmmap_merge`; false where the code stops at an unknown type. */
    method SplitByType() returns (ok: bool)
      requires Valid() && subs == [[], [], [], []] && sub[..] == [SLOTS, SLOTS, SLOTS, SLOTS]
      modifies this`subs, typeNext, sub
      ensures Valid() && Contents() == old(Contents())
      ensures ok <==> forall r :: r in Contents() ==> 1 <= r.ty <= 4
      ensures ok ==> SplitDone(typeNext[..], sub[..], subs, rows[..], Contents())
    {
      hide AllTypes, SplitDone, RowsOf, Chain, NoDup, Scanned;
      var last: seq<int>;
      ghost var k;
      ok, last, k := ScanTypes();
      if ok {
        ScanEnds(last);
      } else {
        RowInContents(k);
      }
    }

    /** Its loop: the slots by type in the order of the list, or the first slot of unknown type. */
    method ScanTypes() returns (ok: bool, last: seq<int>, ghost k: nat)
      requires Valid() && subs == [[], [], [], []] && sub[..] == [SLOTS, SLOTS, SLOTS, SLOTS]
      modifies this`subs, typeNext, sub
      ensures Valid() && Contents() == old(Contents())
      ensures ok ==> Scanned(|list|, last)
      ensures !ok ==> k < |list| && !(1 <= rows[list[k]].ty <= 4)
    {
      last := [SLOTS, SLOTS, SLOTS, SLOTS];
      var slot := head;
      k := 0;
      NothingSeen(typeNext[..], rows[..]);
      hide AllTypes, SplitDone, RowsOf, Chain, NoDup;
      assert list[..0] == [];
      StartOf();
      assert Scanned(0, last);
      hide Scanned;
      while slot != SLOTS
        invariant 0 <= k <= |list| && slot == (if k < |list| then list[k] else SLOTS)
        invariant Scanned(k, last)
        decreases |list| - k
      {
        StepsAt(next[..], head, list, k);
        var ty := rows[slot].ty;
        if !(1 <= ty <= 4) {
          return false, last, k;
        }
        last := AppendSlot(slot, last, k);
        slot := next[slot];
        k := k + 1;
      }
      EndOf(k);
      ok := true;
    }

    lemma ScanEnds(last: seq<int>)
      requires Valid() && Scanned(|list|, last)
      ensures SplitDone(typeNext[..], sub[..], subs, rows[..], Contents())
      ensures forall r :: r in Contents() ==> 1 <= r.ty <= 4
    {
      assert list[..|list|] == list;
      AllSeen(typeNext[..], sub[..], subs, rows[..], list);
      TypesOfContents();
    }

    lemma TypesOfContents()
      requires Valid() && forall k :: 0 <= k < |list| ==> 1 <= rows[list[k]].ty <= 4
      ensures forall r :: r in Contents() ==> 1 <= r.ty <= 4
    {
      forall r | r in Contents() ensures 1 <= r.ty <= 4 {
        var k :| 0 <= k < |Contents()| && Contents()[k] == r;
        assert rows[list[k]] == r;
      }
    }

    lemma StartOf()
      requires Valid()
      ensures head == if list == [] then SLOTS else list[0]
    {
    }

    lemma EndOf(k: nat)
      requires Valid() && k <= |list| && (k < |list| ==> list[k] == SLOTS)
      ensures k == |list|
    {
    }

    lemma RowInContents(k: nat)
      requires Valid() && k < |list|
      ensures rows[list[k]] in Contents()
    {
      assert Contents()[k] == rows[list[k]];
    }

    /** The lists by type hold the first `k` slots, `last` is where each ends. */
    ghost predicate Scanned(k: int, last: seq<int>)
      requires Valid() && 0 <= k <= |list|
      reads this, rows, next, typeNext, sub
    {
      && TypesUpTo(list[..k])
      && Ends(subs, last)
      && (forall l :: 0 <= l < k ==> 1 <= rows[list[l]].ty <= 4)
    }

    /** SLIST_INSERT_AFTER the last slot of the type, or SLIST_INSERT_HEAD if there is none. */
    method AppendSlot(slot: nat, last: seq<int>, ghost k: nat) returns (last': seq<int>)
      requires Valid() && k < |list| && slot == list[k] && 1 <= rows[slot].ty <= 4 && Scanned(k, last)
      modifies this`subs, typeNext, sub
      ensures Scanned(k + 1, last')
    {
      hide Chain, NoDup, Appended, RowsOf, Last, AllTypes, Ends;
      ScanStep(typeNext[..], sub[..], subs, last, rows[..], list, k);
      var nr := rows[slot].ty - 1;
      LinkLast(slot, last[nr], nr);
      last' := last[nr := slot];
      subs := subs[nr := subs[nr] + [slot]];
    }

    method LinkLast(slot: nat, last: int, nr: nat)
      requires Shape() && slot < SLOTS && nr < 4
      requires if 0 <= last < SLOTS then typeNext[last] == SLOTS else last == SLOTS && sub[nr] == SLOTS
      modifies typeNext, sub
      ensures typeNext[..] == Appended(old(typeNext[..]), last, slot)
      ensures sub[..] == if last == SLOTS then old(sub[..])[nr := slot] else old(sub[..])
    {
      if last != SLOTS {
        typeNext[slot] := typeNext[last];
        typeNext[last] := slot;
      } else {
        typeNext[slot] := sub[nr];
        sub[nr] := slot;
      }
    }

    /** `pmmap_init`: false where the code panics (too many entries, or an unknown type). */
    method Init(es: seq<E820>) returns (ok: bool)
      requires Valid() && list == [] && free == 0
      requires subs == [[], [], [], []] && sub[..] == [SLOTS, SLOTS, SLOTS, SLOTS]
      modifies this, rows, next, typeNext, sub
      ensures Valid()
      ensures ok <==> |Kept(es)| <= SLOTS && forall r :: r in Built(es) ==> 1 <= r.ty <= 4
      ensures ok ==> Contents() == Built(es) && SplitDone(typeNext[..], sub[..], subs, rows[..], Contents())
    {
      ok := InsertEntries(es);
      if ok {
        MergeRows();
        ok := SplitByType();
      }
    }

    /** The copy loop of `pmmap_init`. */
    method InsertEntries(es: seq<E820>) returns (ok: bool)
      requires Valid() && list == [] && free == 0
      modifies this`head, this`free, this`list, rows, next
      ensures Valid()
      ensures ok <==> |Kept(es)| <= SLOTS
      ensures ok ==> Contents() == InsertAll(Kept(es))
    {
      hide Chain, NoDup, Insert, Clip;
      assert Contents() == InsertAll(Kept(es[..0]));
      var n := 0;
      while n < |es|
        invariant 0 <= n <= |es| && Valid()
        invariant free == |Kept(es[..n])| && Contents() == InsertAll(Kept(es[..n]))
      {
        KeptStep(es, n);
        KeptMonotone(es, n + 1);
        if es[n].baseHigh == 0 {
          var r := Clip(es[n]);
          var inserted := InsertRow(r.start, r.end, r.ty);
          if !inserted {
            return false;
          }
        }
        n := n + 1;
      }
      assert es[..n] == es;
      return true;
    }

    /** The slot at position `idx` of the list, as the getters walk to it. */
    method Walk(idx: nat) returns (slot: int)
      requires Valid()
      ensures if idx < |list| then slot == list[idx] && 0 <= slot < SLOTS else slot == SLOTS
    {
      slot := head;
      var i := 0;
      while slot != SLOTS && i != idx
        invariant 0 <= i <= idx && i <= |list| && slot == (if i < |list| then list[i] else SLOTS)
        decreases |list| - i
      {
        StepsAt(next[..], head, list, i);
        slot := next[slot];
        i := i + 1;
      }
      if slot == SLOTS {
        EndOf(i);
      } else {
        StepsAt(next[..], head, list, i);
      }
    }

    /** `get_mms`, `get_mms + get_mml` and `is_usable` for one row; (0, 0, false) past the end. */
    method GetRow(idx: nat) returns (start: Word, end: Word, usable: bool)
      requires Valid()
      ensures idx < |Contents()| ==>
                start == Contents()[idx].start && end == Contents()[idx].end && usable == (Contents()[idx].ty == MEM_RAM)
      ensures idx >= |Contents()| ==> start == 0 && end == 0 && !usable
    {
      var slot := Walk(idx);
      if slot == SLOTS {
        return 0, 0, false;
      }
      var length := U32(rows[slot].end - rows[slot].start);
      return rows[slot].start, U32(rows[slot].start + length), rows[slot].ty == MEM_RAM;
    }

    /** The counting loop of `pmmap_init`. */
    method Size() returns (n: nat)
      requires Valid()
      ensures n == |Contents()|
    {
      var slot := head;
      n := 0;
      while slot != SLOTS
        invariant n <= |list| && slot == (if n < |list| then list[n] else SLOTS)
        decreases |list| - n
      {
        StepsAt(next[..], head, list, n);
        slot := next[slot];
        n := n + 1;
      }
      EndOf(n);
    }
  }
}
