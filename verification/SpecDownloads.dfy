// Publishing the specifications: a row whose document cannot be downloaded is
// dropped. The rows left are those of the releases with the other documents, so
// everything proved of the picker holds of what is published.
module SpecDownloads {
  import opened Sorting
  import opened Versions
  import opened Manifests
  import opened SpecRows

  // ------------------------------------------------------------------ filtered lists

  lemma {:induction false} FilterSnoc<T>(p: T -> bool, xs: seq<T>, x: T)
    ensures Filter(p, xs + [x]) == Filter(p, xs) + (if p(x) then [x] else [])
  {
    if xs == [] {
      assert xs + [x] == [x] && [x][1..] == [];
    } else {
      assert (xs + [x])[1..] == xs[1..] + [x];
      FilterSnoc(p, xs[1..], x);
    }
  }

  lemma {:induction false} FilterAgrees<T>(p: T -> bool, q: T -> bool, xs: seq<T>)
    requires forall x :: x in xs ==> p(x) == q(x)
    ensures Filter(p, xs) == Filter(q, xs)
  {
    if xs != [] { FilterAgrees(p, q, xs[1..]); }
  }

  lemma {:induction false} FilterOrdered<T(!new)>(leq: (T, T) -> bool, p: T -> bool, xs: seq<T>)
    requires Ordered(leq, xs)
    ensures Ordered(leq, Filter(p, xs))
  {
    if xs != [] {
      FilterOrdered(leq, p, xs[1..]);
      var rest := Filter(p, xs[1..]);
      forall j | 0 <= j < |rest| ensures leq(xs[0], rest[j]) {
        assert rest[j] in rest;
        var k :| 0 <= k < |xs[1..]| && xs[1..][k] == rest[j];
        assert leq(xs[0], xs[k + 1]);
      }
    }
  }

  // ------------------------------------------------------ leaving out the hashes dropped

  function OfHash(keep: string -> bool): Shipped -> bool { (x: Shipped) => keep(x.hash) }

  function GroupOfHash(keep: string -> bool): Group -> bool { (g: Group) => keep(g.sha256) }

  function RowOfHash(keep: string -> bool): Row -> bool { (r: Row) => keep(r.sha256) }

  /** Adding a release extends the head group, or goes on to the rest. */
  lemma AddToHead(groups: seq<Group>, x: Shipped)
    requires groups != []
    ensures AddTo(groups, x)
         == if groups[0].sha256 == x.hash then [Extended(groups[0], x)] + groups[1..]
            else [groups[0]] + AddTo(groups[1..], x)
  {
    hide Extended, NewGroup;
    var i := GroupIndex(groups, x.hash);
    if groups[0].sha256 != x.hash {
      assert i == 1 + GroupIndex(groups[1..], x.hash);
      assert groups == [groups[0]] + groups[1..];
    }
  }

  lemma {:induction false} AddThenKeep(keep: string -> bool, groups: seq<Group>, x: Shipped)
    ensures Filter(GroupOfHash(keep), AddTo(groups, x))
         == if keep(x.hash) then AddTo(Filter(GroupOfHash(keep), groups), x) else Filter(GroupOfHash(keep), groups)
  {
    hide AddTo;
    var p := GroupOfHash(keep);
    if groups == [] {
      assert AddTo([], x) == [NewGroup(x)] by { AddToNothing(x); }
      assert [NewGroup(x)][1..] == [];
    } else {
      AddThenKeep(keep, groups[1..], x);
      AddToHead(groups, x);
      var head := if groups[0].sha256 == x.hash then Extended(groups[0], x) else groups[0];
      var tail := if groups[0].sha256 == x.hash then groups[1..] else AddTo(groups[1..], x);
      assert AddTo(groups, x) == [head] + tail && ([head] + tail)[1..] == tail;
      if keep(groups[0].sha256) {
        var kept := [groups[0]] + Filter(p, groups[1..]);
        assert kept[1..] == Filter(p, groups[1..]);
        AddToHead(kept, x);
      }
    }
  }

  lemma AddToNothing(x: Shipped)
    ensures AddTo([], x) == [NewGroup(x)]
  {
  }

  /** Dropping groups by hash is grouping without the releases of those hashes. */
  lemma {:induction false} KeptGroups(keep: string -> bool, xs: seq<Shipped>)
    ensures Filter(GroupOfHash(keep), Grouped(xs)) == Grouped(Filter(OfHash(keep), xs))
  {
    hide AddTo, Filter, Grouped;
    if xs == [] {
      GroupedEmpty();
      NothingKept(keep);
    } else {
      var front, x := xs[..|xs| - 1], xs[|xs| - 1];
      assert xs == front + [x];
      KeptGroups(keep, front);
      GroupedSnoc(front, x);
      AddThenKeep(keep, Grouped(front), x);
      FilterSnoc(OfHash(keep), front, x);
      var left := Filter(OfHash(keep), front);
      if keep(x.hash) { GroupedSnoc(left, x); } else { assert left + [] == left; }
    }
  }

  lemma NothingKept(keep: string -> bool)
    ensures Filter(GroupOfHash(keep), []) == [] && Filter(OfHash(keep), []) == []
  {
  }

  lemma {:induction false} KeptRows(keep: string -> bool, groups: seq<Group>)
    ensures Filter(RowOfHash(keep), RowsOf(groups)) == RowsOf(Filter(GroupOfHash(keep), groups))
  {
    hide RowOf;
    if groups != [] {
      KeptRows(keep, groups[1..]);
      RowHash(groups[0]);
      assert RowsOf(groups)[1..] == RowsOf(groups[1..]);
      if keep(groups[0].sha256) {
        var rest := Filter(GroupOfHash(keep), groups[1..]);
        assert RowsOf([groups[0]] + rest) == [RowOf(groups[0])] + RowsOf(rest);
      }
    }
  }

  // ------------------------------------------------------------------ what is published

  /** `writeOpenapiSpecs`: the rows whose document could be stored. */
  function Published(rows: seq<Row>, stored: Row -> bool): seq<Row> { Filter(stored, rows) }

  /** The hash has a row whose document could be stored. */
  predicate HashStored(rows: seq<Row>, stored: Row -> bool, hash: string) {
    exists i :: 0 <= i < |rows| && rows[i].sha256 == hash && stored(rows[i])
  }

  /** The releases left when the hashes of the dropped rows are left out. */
  function Remaining(xs: seq<Shipped>, stored: Row -> bool): seq<Shipped> {
    var rows := RowsOf(Grouped(xs));
    Filter(OfHash((hash: string) => HashStored(rows, stored, hash)), xs)
  }

  lemma {:induction false} RowsDistinct(xs: seq<Shipped>, i: nat, j: nat)
    requires i < |RowsOf(Grouped(xs))| && j < |RowsOf(Grouped(xs))|
    requires RowsOf(Grouped(xs))[i].sha256 == RowsOf(Grouped(xs))[j].sha256
    ensures i == j
  {
    hide Grouped, RowOf, Collects, FirstAt;
    GroupingPartitions(xs);
    RowHash(Grouped(xs)[i]);
    RowHash(Grouped(xs)[j]);
  }

  /** Whatever downloads fail, the published rows are the rows of the remaining releases, which are still sorted. */
  lemma {:induction false} DroppedRowsAreLeftOut(xs: seq<Shipped>, stored: Row -> bool)
    requires FromSortedReleases(xs)
    ensures Published(RowsOf(Grouped(xs)), stored) == RowsOf(Grouped(Remaining(xs, stored)))
    ensures FromSortedReleases(Remaining(xs, stored))
  {
    hide Grouped, RowOf, Parse, Compare, Filter;
    var rows := RowsOf(Grouped(xs));
    var keep := (hash: string) => HashStored(rows, stored, hash);
    forall r | r in rows ensures stored(r) == RowOfHash(keep)(r) {
      var i :| 0 <= i < |rows| && rows[i] == r;
      if HashStored(rows, stored, r.sha256) {
        var j :| 0 <= j < |rows| && rows[j].sha256 == r.sha256 && stored(rows[j]);
        RowsDistinct(xs, i, j);
      }
    }
    FilterAgrees(stored, RowOfHash(keep), rows);
    KeptRows(keep, Grouped(xs));
    KeptGroups(keep, xs);
    FilterOrdered(NEWEST_SHIPPED_FIRST, OfHash(keep), xs);
  }

  /** So the published picker is newest first exactly when the remaining specifications do not interleave. */
  lemma {:induction false} PublishedPickerNewestFirst(xs: seq<Shipped>, stored: Row -> bool)
    requires FromSortedReleases(xs)
    ensures Ordered(NEWER_CHOICE, ToChoices(Published(RowsOf(Grouped(xs)), stored)))
       <==> SpecsDoNotInterleave(Remaining(xs, stored))
  {
    hide Grouped, RowsOf, FromSortedReleases, Ordered, Remaining, Published, ToChoices, SpecsDoNotInterleave;
    DroppedRowsAreLeftOut(xs, stored);
    PickerNewestFirst(Remaining(xs, stored));
  }
}
