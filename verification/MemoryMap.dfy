/** The boot memory map (kern/dev/mboot.c): E820 entries are clipped to 32 bits, inserted in order
    of their start, merged with their neighbours and sorted into one list per type.  The entry
    format is the INT 15h, E820h interface, section 15.1 of the ACPI specification. */
module MemoryMap {
  import opened Words

  const MEM_RAM := 1

  datatype E820 = E820(baseLow: Word, baseHigh: Word, lenLow: Word, lenHigh: Word, ty: Word)

  /** A region [start, end) of one type. */
  datatype Row = Row(start: Word, end: Word, ty: Word)

  // ----- What the list operations compute

  /** The part of an entry below 4 GB. */
  function Clip(e: E820): (r: Row)
    ensures r.start <= r.end
  {
    Row(e.baseLow,
        if e.lenHigh != 0 || e.lenLow >= 0xFFFF_FFFF - e.baseLow then 0xFFFF_FFFF else e.baseLow + e.lenLow,
        e.ty)
  }

  /** The entries that are kept: those starting below 4 GB. */
  function Kept(es: seq<E820>): (rs: seq<Row>) {
    if es == [] then []
    else if es[|es| - 1].baseHigh != 0 then Kept(es[..|es| - 1])
    else Kept(es[..|es| - 1]) + [Clip(es[|es| - 1])]
  }

  function Insert(xs: seq<Row>, r: Row): (ys: seq<Row>)
    ensures |ys| == |xs| + 1
  {
    if xs == [] || r.start < xs[0].start then [r] + xs else [xs[0]] + Insert(xs[1..], r)
  }

  function InsertAll(rs: seq<Row>): (xs: seq<Row>)
    ensures |xs| == |rs|
  {
    if rs == [] then [] else Insert(InsertAll(rs[..|rs| - 1]), rs[|rs| - 1])
  }

  /** Two neighbours that one visit of `pmmap_merge` joins. */
  predicate Joins(x: Row, y: Row) {
    x.start <= y.start && x.end >= y.start && x.ty == y.ty
  }

  function Joined(x: Row, y: Row): (r: Row) {
    x.(end := if x.end > y.end then x.end else y.end)
  }

  /** One pass over the list; a row takes in at most one neighbour. */
  function Merge(xs: seq<Row>): (ys: seq<Row>)
    ensures |ys| <= |xs|
  {
    if |xs| <= 1 then xs
    else if Joins(xs[0], xs[1]) then [Joined(xs[0], xs[1])] + Merge(xs[2..])
    else [xs[0]] + Merge(xs[1..])
  }

  function OfType(xs: seq<Row>, ty: Word): (ys: seq<Row>) {
    if xs == [] then []
    else OfType(xs[..|xs| - 1], ty) + if xs[|xs| - 1].ty == ty then [xs[|xs| - 1]] else []
  }

  /** The memory map the kernel ends up with. */
  function Built(es: seq<E820>): (xs: seq<Row>) {
    Merge(InsertAll(Kept(es)))
  }

  /** The list of a type has the rows of that type and no others, in the order of the whole list. */
  lemma {:induction false} OfTypeIs(xs: seq<Row>, ty: Word)
    ensures forall r :: r in OfType(xs, ty) <==> r in xs && r.ty == ty
    decreases |xs|
  {
    if xs != [] {
      var (tl, x) := (xs[..|xs| - 1], xs[|xs| - 1]);
      OfTypeIs(tl, ty);
      assert xs == tl + [x];
    }
  }

  lemma {:induction false} OfTypeSorted(xs: seq<Row>, ty: Word)
    requires Sorted(xs)
    ensures Sorted(OfType(xs, ty))
    decreases |xs|
  {
    if xs != [] {
      var (tl, x) := (xs[..|xs| - 1], xs[|xs| - 1]);
      OfTypeSorted(tl, ty);
      OfTypeIs(tl, ty);
      forall r | r in OfType(tl, ty) ensures r.start <= x.start {
        var k :| 0 <= k < |tl| && tl[k] == r;
        assert xs[k] == r;
      }
    }
  }

  // ----- Insertion is a stable sort

  ghost predicate Sorted(xs: seq<Row>) {
    forall k, l :: 0 <= k <= l < |xs| ==> xs[k].start <= xs[l].start
  }

  /** The rows that start at `v`, in list order. */
  function StartingAt(xs: seq<Row>, v: Word): (ys: seq<Row>) {
    if xs == [] then []
    else (if xs[0].start == v then [xs[0]] else []) + StartingAt(xs[1..], v)
  }

  lemma {:induction false} InsertSorted(xs: seq<Row>, r: Row)
    requires Sorted(xs)
    ensures Sorted(Insert(xs, r))
    ensures forall x :: x in Insert(xs, r) ==> x == r || x in xs
  {
    if !(xs == [] || r.start < xs[0].start) {
      InsertSorted(xs[1..], r);
      var ys := Insert(xs[1..], r);
      forall x | x in ys ensures xs[0].start <= x.start {
        assert x == r || x in xs[1..];
      }
    }
  }

  lemma {:induction false} StartingAboveIsEmpty(xs: seq<Row>, v: Word)
    requires forall x :: x in xs ==> x.start > v
    ensures StartingAt(xs, v) == []
  {
    if xs != [] {
      StartingAboveIsEmpty(xs[1..], v);
    }
  }

  lemma {:induction false} InsertStable(xs: seq<Row>, r: Row, v: Word)
    requires Sorted(xs)
    ensures StartingAt(Insert(xs, r), v) == StartingAt(xs, v) + if r.start == v then [r] else []
  {
    if xs == [] || r.start < xs[0].start {
      assert ([r] + xs)[1..] == xs;
      if r.start == v {
        StartingAboveIsEmpty(xs, v);
      }
    } else {
      InsertStable(xs[1..], r, v);
      var ys := Insert(xs[1..], r);
      assert ([xs[0]] + ys)[1..] == ys;
    }
  }

  lemma {:induction false} StartingAtAppend(xs: seq<Row>, r: Row, v: Word)
    ensures StartingAt(xs + [r], v) == StartingAt(xs, v) + if r.start == v then [r] else []
  {
    if xs == [] {
      assert xs + [r] == [r];
      assert [r][1..] == [];
    } else {
      StartingAtAppend(xs[1..], r, v);
      var here, last := if xs[0].start == v then [xs[0]] else [], if r.start == v then [r] else [];
      assert (xs + [r])[0] == xs[0] && (xs + [r])[1..] == xs[1..] + [r];
      assert StartingAt(xs + [r], v) == here + StartingAt(xs[1..] + [r], v);
      assert here + (StartingAt(xs[1..], v) + last) == here + StartingAt(xs[1..], v) + last;
    }
  }

  /** After all inserts the list is sorted by start, and the rows of any one start are exactly the
      input rows of that start, in input order. */
  lemma {:induction false} InsertAllIsStableSort(rs: seq<Row>)
    ensures Sorted(InsertAll(rs))
    ensures forall v :: StartingAt(InsertAll(rs), v) == StartingAt(rs, v)
  {
    if rs != [] {
      var n := |rs| - 1;
      InsertAllIsStableSort(rs[..n]);
      InsertSorted(InsertAll(rs[..n]), rs[n]);
      forall v ensures StartingAt(InsertAll(rs), v) == StartingAt(rs, v) {
        InsertStable(InsertAll(rs[..n]), rs[n], v);
        assert rs[..n] + [rs[n]] == rs;
        StartingAtAppend(rs[..n], rs[n], v);
      }
    }
  }

  // ----- Merging keeps what is covered

  predicate InRow(r: Row, ty: Word, a: int) {
    r.ty == ty && r.start <= a < r.end
  }

  ghost predicate Covered(xs: seq<Row>, ty: Word, a: int) {
    exists x :: x in xs && InRow(x, ty, a)
  }

  lemma CoveredSplit(x: Row, xs: seq<Row>, ty: Word, a: int)
    ensures Covered([x] + xs, ty, a) <==> InRow(x, ty, a) || Covered(xs, ty, a)
  {
    if Covered([x] + xs, ty, a) {
      var y :| y in [x] + xs && InRow(y, ty, a);
      assert y == x || y in xs;
    }
    if InRow(x, ty, a) {
      assert x in [x] + xs;
    }
    if Covered(xs, ty, a) {
      var y :| y in xs && InRow(y, ty, a);
      assert y in [x] + xs;
    }
  }

  /** Merging changes the rows but not the set of addresses covered by each type. */
  lemma {:induction false} MergeCovers(xs: seq<Row>, ty: Word, a: int)
    ensures Covered(Merge(xs), ty, a) <==> Covered(xs, ty, a)
  {
    if |xs| > 1 {
      assert xs == [xs[0]] + xs[1..] && xs[1..] == [xs[1]] + xs[2..];
      CoveredSplit(xs[0], xs[1..], ty, a);
      CoveredSplit(xs[1], xs[2..], ty, a);
      if Joins(xs[0], xs[1]) {
        MergeCovers(xs[2..], ty, a);
        CoveredSplit(Joined(xs[0], xs[1]), Merge(xs[2..]), ty, a);
      } else {
        MergeCovers(xs[1..], ty, a);
        CoveredSplit(xs[0], Merge(xs[1..]), ty, a);
      }
    }
  }

  lemma {:induction false} MergeSorted(xs: seq<Row>)
    requires Sorted(xs)
    ensures Sorted(Merge(xs))
    ensures xs != [] ==> forall y :: y in Merge(xs) ==> xs[0].start <= y.start
  {
    if |xs| > 1 {
      if Joins(xs[0], xs[1]) {
        MergeSorted(xs[2..]);
      } else {
        MergeSorted(xs[1..]);
      }
    }
  }

  /** What the merge does with the head of a sorted list: it takes in its neighbour exactly when the two
      have one type and leave no gap, touching included. */
  lemma MergeHead(xs: seq<Row>)
    requires Sorted(xs) && |xs| >= 2
    ensures xs[0].end >= xs[1].start && xs[0].ty == xs[1].ty ==>
              Merge(xs) == [Row(xs[0].start, if xs[0].end >= xs[1].end then xs[0].end else xs[1].end, xs[0].ty)] + Merge(xs[2..])
    ensures xs[0].end < xs[1].start || xs[0].ty != xs[1].ty ==> Merge(xs) == [xs[0]] + Merge(xs[1..])
  {
    assert xs[0].start <= xs[1].start;
  }

  /** Two entries of one type that touch become one row. */
  lemma TouchingEntriesJoin(b: nat, n1: nat, n2: nat, ty: Word)
    requires b + n1 + n2 < 0xFFFF_FFFF
    ensures Built([E820(b, 0, n1, 0, ty), E820(b + n1, 0, n2, 0, ty)]) == [Row(b, b + n1 + n2, ty)]
  {
    var (e1, e2) := (E820(b, 0, n1, 0, ty), E820(b + n1, 0, n2, 0, ty));
    var (r1, r2) := (Row(b, b + n1, ty), Row(b + n1, b + n1 + n2, ty));
    assert Clip(e1) == r1 && Clip(e2) == r2;
    KeptTwo(e1, e2);
    InsertedTwo(r1, r2);
    MergeHead([r1, r2]);
    assert [r1, r2][2..] == [];
  }

  lemma KeptTwo(e1: E820, e2: E820)
    requires e1.baseHigh == 0 && e2.baseHigh == 0
    ensures Kept([e1, e2]) == [Clip(e1), Clip(e2)]
  {
    assert [e1, e2][..1] == [e1] && [e1][..0] == [];
    assert Kept([e1]) == Kept([]) + [Clip(e1)] == [Clip(e1)];
  }

  lemma InsertedTwo(r1: Row, r2: Row)
    requires r1.start <= r2.start
    ensures InsertAll([r1, r2]) == [r1, r2]
  {
    assert [r1, r2][..1] == [r1] && [r1][..0] == [];
    assert InsertAll([r1]) == Insert(InsertAll([]), r1) == [r1];
    assert Insert([r1], r2) == [r1] + Insert([r1][1..], r2);
  }

  lemma {:induction false} InsertCovers(xs: seq<Row>, r: Row, ty: Word, a: int)
    ensures Covered(Insert(xs, r), ty, a) <==> InRow(r, ty, a) || Covered(xs, ty, a)
  {
    if xs == [] || r.start < xs[0].start {
      CoveredSplit(r, xs, ty, a);
    } else {
      InsertCovers(xs[1..], r, ty, a);
      assert xs == [xs[0]] + xs[1..];
      CoveredSplit(xs[0], xs[1..], ty, a);
      CoveredSplit(xs[0], Insert(xs[1..], r), ty, a);
    }
  }

  lemma {:induction false} InsertAllCovers(rs: seq<Row>, ty: Word, a: int)
    ensures Covered(InsertAll(rs), ty, a) <==> Covered(rs, ty, a)
  {
    if rs != [] {
      var n := |rs| - 1;
      InsertAllCovers(rs[..n], ty, a);
      InsertCovers(InsertAll(rs[..n]), rs[n], ty, a);
      CoveredAppend(rs[..n], rs[n], ty, a);
      assert rs[..n] + [rs[n]] == rs;
    }
  }

  lemma CoveredAppend(xs: seq<Row>, x: Row, ty: Word, a: int)
    ensures Covered(xs + [x], ty, a) <==> Covered(xs, ty, a) || InRow(x, ty, a)
  {
    if Covered(xs + [x], ty, a) {
      var y :| y in xs + [x] && InRow(y, ty, a);
      assert y == x || y in xs;
    }
    if InRow(x, ty, a) {
      assert x in xs + [x];
    }
    if Covered(xs, ty, a) {
      var y :| y in xs && InRow(y, ty, a);
      assert y in xs + [x];
    }
  }

  /** The range an entry reports, in 64 bits. */
  function Base(e: E820): (a: int) { e.baseHigh * 0x1_0000_0000 + e.baseLow }

  function Length(e: E820): (n: int) { e.lenHigh * 0x1_0000_0000 + e.lenLow }

  /** The entry reports address `a`, below the last byte of 4 GB, as memory of type `ty`. */
  predicate Reports(e: E820, ty: Word, a: int) {
    e.ty == ty && Base(e) <= a < Base(e) + Length(e) && a < 0xFFFF_FFFF
  }

  ghost predicate CoveredByEntry(es: seq<E820>, ty: Word, a: int) {
    exists e :: e in es && Reports(e, ty, a)
  }

  /** A clipped row is the entry's own range below the last byte of 4 GB; entries above have none. */
  lemma ClipIs(e: E820, ty: Word, a: int)
    ensures Reports(e, ty, a) <==> e.baseHigh == 0 && InRow(Clip(e), ty, a)
  {
  }

  lemma {:induction false} KeptCovers(es: seq<E820>, ty: Word, a: int)
    ensures Covered(Kept(es), ty, a) <==> CoveredByEntry(es, ty, a)
  {
    if es != [] {
      var n := |es| - 1;
      KeptCovers(es[..n], ty, a);
      CoveredAppend(Kept(es[..n]), Clip(es[n]), ty, a);
      assert es == es[..n] + [es[n]];
      assert forall e :: e in es <==> e in es[..n] || e == es[n];
      ClipIs(es[n], ty, a);
    }
  }

  /** The finished map gives an address a type exactly when an input entry does. */
  lemma BuiltCovers(es: seq<E820>, ty: Word, a: int)
    ensures Covered(Built(es), ty, a) <==> CoveredByEntry(es, ty, a)
  {
    MergeCovers(InsertAll(Kept(es)), ty, a);
    InsertAllCovers(Kept(es), ty, a);
    KeptCovers(es, ty, a);
  }
}
