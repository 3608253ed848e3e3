// Whole histories of the statistics database: what a run of committed
// deliveries leaves behind, whatever their order and repetition, and why the
// two pruners cannot be noticed by a reader.
module DnsHistory {
  import opened Text
  import opened DnsStore

  // ---------------------------------------------------- runs of committed deliveries

  function Run(s: Store, items: seq<Item>): Store {
    if items == [] then s else Apply(Run(s, items[..|items| - 1]), items[|items| - 1])
  }

  /** The deliveries that get past the cursor, in order. */
  function Accepted(items: seq<Item>, cursor: int): seq<Item> {
    if items == [] then []
    else
      var acc, x := Accepted(items[..|items| - 1], cursor), items[|items| - 1];
      if x.id <= LastId(acc, cursor) then acc else acc + [x]
  }

  function LastId(items: seq<Item>, cursor: int): int {
    if items == [] then cursor else items[|items| - 1].id
  }

  function Tally(rows: seq<DailyStat>, items: seq<Item>): seq<DailyStat> {
    if items == [] then rows else Counted(Tally(rows, items[..|items| - 1]), items[|items| - 1])
  }

  lemma {:induction false} RunSnoc(s: Store, items: seq<Item>, x: Item)
    ensures Run(s, items + [x]) == Apply(Run(s, items), x)
  {
    assert (items + [x])[..|items + [x]| - 1] == items;
  }

  lemma {:induction false} TallyNothing(rows: seq<DailyStat>)
    ensures Tally(rows, []) == rows
  {
  }

  lemma {:induction false} TallySnoc(rows: seq<DailyStat>, items: seq<Item>, x: Item)
    ensures Tally(rows, items + [x]) == Counted(Tally(rows, items), x)
  {
    assert (items + [x])[..|items + [x]| - 1] == items;
  }

  /**
   * For any deliveries at all, the database holds exactly the effect of the
   * accepted ones: they are appended to the ring, tallied once each, and the
   * cursor is the last of them.
   */
  lemma {:induction false} RunIsFoldOfAccepted(s: Store, items: seq<Item>)
    requires Valid(s)
    ensures var acc := Accepted(items, s.cursor);
            Run(s, items) == Store(s.events + acc, Tally(s.daily, acc), LastId(acc, s.cursor))
    ensures Valid(Run(s, items))
  {
    hide Tally, Counted, PutEvent, KeyOrdered, IdOrdered, Valid;
    if items == [] {
      assert Tally(s.daily, []) == s.daily by { TallyNothing(s.daily); }
    } else {
      var front, x := items[..|items| - 1], items[|items| - 1];
      var acc := Accepted(front, s.cursor);
      RunIsFoldOfAccepted(s, front);
      ApplyKeepsValid(Run(s, front), x);
      TallySnoc(s.daily, acc, x);
      assert s.events + acc + [x] == s.events + (acc + [x]);
    }
  }

  /** Delivery `i` is a strict running maximum: above the cursor and every earlier delivery. */
  ghost predicate RunningMaximum(items: seq<Item>, cursor: int, i: int) {
    0 <= i < |items| && items[i].id > cursor && forall j :: 0 <= j < i ==> items[j].id < items[i].id
  }

  /** The cursor after a run is the highest id delivered in it. */
  lemma {:induction false} LastAcceptedIsHighest(items: seq<Item>, cursor: int)
    ensures LastId(Accepted(items, cursor), cursor) >= cursor
    ensures forall i :: 0 <= i < |items| ==> items[i].id <= LastId(Accepted(items, cursor), cursor)
    ensures Accepted(items, cursor) == [] || exists i :: 0 <= i < |items| && items[i].id == LastId(Accepted(items, cursor), cursor)
  {
    if items != [] { LastAcceptedIsHighest(items[..|items| - 1], cursor); }
  }

  lemma NewestMaximum(items: seq<Item>, cursor: int)
    requires items != []
    ensures RunningMaximum(items, cursor, |items| - 1)
       <==> items[|items| - 1].id > LastId(Accepted(items[..|items| - 1], cursor), cursor)
  {
    var front := items[..|items| - 1];
    LastAcceptedIsHighest(front, cursor);
    assert forall j :: 0 <= j < |front| ==> items[j] == front[j];
  }

  lemma {:induction false} MaximumAccepted(items: seq<Item>, cursor: int, i: int)
    requires RunningMaximum(items, cursor, i)
    ensures items[i] in Accepted(items, cursor)
  {
    if i < |items| - 1 {
      assert RunningMaximum(items[..|items| - 1], cursor, i);
      MaximumAccepted(items[..|items| - 1], cursor, i);
    } else {
      NewestMaximum(items, cursor);
    }
  }

  lemma {:induction false} AcceptedIsMaximum(items: seq<Item>, cursor: int, x: Item) returns (i: int)
    requires x in Accepted(items, cursor)
    ensures RunningMaximum(items, cursor, i) && items[i] == x
  {
    var front := items[..|items| - 1];
    if x in Accepted(front, cursor) {
      i := AcceptedIsMaximum(front, cursor, x);
    } else {
      NewestMaximum(items, cursor);
      i := |items| - 1;
    }
  }

  lemma {:induction false} AcceptedAscend(items: seq<Item>, cursor: int)
    ensures IdOrdered(Accepted(items, cursor))
    ensures forall x :: x in Accepted(items, cursor) ==> cursor < x.id <= LastId(Accepted(items, cursor), cursor)
  {
    if items != [] {
      AcceptedAscend(items[..|items| - 1], cursor);
      LastAcceptedIsHighest(items[..|items| - 1], cursor);
    }
  }

  /** The accepted deliveries are exactly the strict running maxima, in ascending order. */
  lemma {:induction false} AcceptedAreRunningMaxima(items: seq<Item>, cursor: int)
    ensures forall i :: RunningMaximum(items, cursor, i) ==> items[i] in Accepted(items, cursor)
    ensures forall x :: x in Accepted(items, cursor) ==> exists i :: RunningMaximum(items, cursor, i) && items[i] == x
    ensures IdOrdered(Accepted(items, cursor))
  {
    forall i | RunningMaximum(items, cursor, i) ensures items[i] in Accepted(items, cursor) {
      MaximumAccepted(items, cursor, i);
    }
    forall x | x in Accepted(items, cursor) ensures exists i :: RunningMaximum(items, cursor, i) && items[i] == x {
      var i := AcceptedIsMaximum(items, cursor, x);
    }
    AcceptedAscend(items, cursor);
  }

  /** Replaying deliveries the cursor has passed changes nothing. */
  lemma {:induction false} RedeliveryChangesNothing(s: Store, again: seq<Item>)
    requires forall x :: x in again ==> x.id <= s.cursor
    ensures Run(s, again) == s
  {
    if again != [] {
      assert again[|again| - 1] in again;
      RedeliveryChangesNothing(s, again[..|again| - 1]);
    }
  }

  /**
   * An event whose transaction aborted is counted when it is delivered again,
   * exactly as long as no equal or higher id has committed in between.
   */
  lemma {:induction false} AbortedRowRecoverable(a: seq<Item>, x: Item)
    requires x.id > 0
    ensures Run(EMPTY, a + [x])
         == if forall i :: 0 <= i < |a| ==> a[i].id < x.id
            then Store(Run(EMPTY, a).events + [x], Counted(Run(EMPTY, a).daily, x), x.id)
            else Run(EMPTY, a)
  {
    RunSnoc(EMPTY, a, x);
    RunIsFoldOfAccepted(EMPTY, a);
    ApplyKeepsValid(Run(EMPTY, a), x);
    LastAcceptedIsHighest(a, 0);
  }

  // --------------------------------------------------------------- what is counted

  predicate Matches(x: Item, date: string, domain: string, blocked: bool) {
    x.date == date && x.domain == domain && (x.status == "blocked") == blocked
  }

  /** How many of `items` carry this date, domain and verdict. */
  function CountOf(items: seq<Item>, date: string, domain: string, blocked: bool): nat {
    if items == [] then 0
    else
      var one := if Matches(items[|items| - 1], date, domain, blocked) then 1 else 0;
      CountOf(items[..|items| - 1], date, domain, blocked) + one
  }

  lemma {:induction false} TallyOrdered(rows: seq<DailyStat>, items: seq<Item>)
    requires KeyOrdered(rows)
    ensures KeyOrdered(Tally(rows, items))
  {
    if items != [] {
      var front, x := items[..|items| - 1], items[|items| - 1];
      TallyOrdered(rows, front);
      var t := Tally(rows, front);
      PutKeepsOrder(t, Bumped(Lookup(t, x.date, x.domain), x));
    }
  }

  /** Each counter equals the number of accepted events it stands for. */
  lemma {:induction false} TallyCounts(items: seq<Item>, date: string, domain: string)
    ensures Lookup(Tally([], items), date, domain)
         == DailyStat(date, domain, CountOf(items, date, domain, true), CountOf(items, date, domain, false))
  {
    if items != [] {
      var front, x := items[..|items| - 1], items[|items| - 1];
      var rows := Tally([], front);
      TallyOrdered([], front);
      TallyCounts(front, date, domain);
      LookupAfterPut(rows, Bumped(Lookup(rows, x.date, x.domain), x), date, domain);
    }
  }

  // ----------------------------------------------------------- pruning is invisible

  /** Everything that can happen to the database. */
  datatype Op =
    | Commit(item: Item)
    | Abort(item: Item)
    | TrimEvents
    | TrimDaily(cutoff: string)

  function Step(s: Store, op: Op): Store {
    match op
    case Commit(item) => Apply(s, item)
    case Abort(_) => s
    case TrimEvents => s.(events := TrimmedEvents(s.events))
    case TrimDaily(cutoff) => s.(daily := Kept(cutoff, s.daily))
  }

  function Steps(s: Store, ops: seq<Op>): Store {
    if ops == [] then s else Step(Steps(s, ops[..|ops| - 1]), ops[|ops| - 1])
  }

  /** The items committed in a run; replaying them is the same run with both pruners left out. */
  function Commits(ops: seq<Op>): seq<Item> {
    if ops == [] then []
    else
      var front := Commits(ops[..|ops| - 1]);
      match ops[|ops| - 1]
      case Commit(item) => front + [item]
      case _ => front
  }

  /** The clock never goes back, so no pruner has used a later cutoff than `from`. */
  ghost predicate CutoffsUpTo(ops: seq<Op>, from: string) {
    forall op :: op in ops && op.TrimDaily? ==> AtMost(op.cutoff, from)
  }

  /** `ring` is the newest part of `all`, at least the last EVENTS_RING_CAP of it. */
  predicate NewestOf(all: seq<Item>, ring: seq<Item>) {
    && |ring| <= |all|
    && ring == all[|all| - |ring|..]
    && (|ring| >= EVENTS_RING_CAP || |ring| == |all|)
  }

  /** `pruned` differs from `full` only in what the pruners may take. */
  predicate SameToReaders(full: Store, pruned: Store, from: string) {
    && pruned.cursor == full.cursor
    && Kept(from, pruned.daily) == Kept(from, full.daily)
    && NewestOf(full.events, pruned.events)
  }

  lemma NewestSnoc(all: seq<Item>, ring: seq<Item>, x: Item)
    requires NewestOf(all, ring)
    ensures NewestOf(all + [x], ring + [x])
  {
  }

  lemma NewestTrimmed(all: seq<Item>, ring: seq<Item>)
    requires NewestOf(all, ring)
    ensures NewestOf(all, TrimmedEvents(ring))
  {
  }

  lemma {:induction false} CountedSame(full: seq<DailyStat>, pruned: seq<DailyStat>, from: string, x: Item)
    requires KeyOrdered(full) && KeyOrdered(pruned) && Kept(from, pruned) == Kept(from, full)
    ensures Kept(from, Counted(pruned, x)) == Kept(from, Counted(full, x))
  {
    var rf := Bumped(Lookup(full, x.date, x.domain), x);
    var rp := Bumped(Lookup(pruned, x.date, x.domain), x);
    KeptAfterPut(from, full, rf);
    KeptAfterPut(from, pruned, rp);
    if !Less(x.date, from) {
      KeptLookup(from, full, x.date, x.domain);
      KeptLookup(from, pruned, x.date, x.domain);
    }
  }

  lemma CommitStep(full: Store, pruned: Store, from: string, x: Item)
    requires Valid(full) && Valid(pruned) && SameToReaders(full, pruned, from)
    ensures SameToReaders(Apply(full, x), Apply(pruned, x), from)
  {
    if x.id > full.cursor {
      ApplyKeepsValid(full, x);
      ApplyKeepsValid(pruned, x);
      NewestSnoc(full.events, pruned.events, x);
      CountedSame(full.daily, pruned.daily, from, x);
    }
  }

  /** Pruning anywhere in a run never changes what a reader at date `from` or later sees. */
  lemma {:induction false} PruningIsInvisible(ops: seq<Op>, from: string)
    requires CutoffsUpTo(ops, from)
    ensures SameToReaders(Run(EMPTY, Commits(ops)), Steps(EMPTY, ops), from)
    ensures Valid(Steps(EMPTY, ops)) && Valid(Run(EMPTY, Commits(ops)))
  {
    if ops != [] {
      var front, op := ops[..|ops| - 1], ops[|ops| - 1];
      assert op in ops;
      PruningIsInvisible(front, from);
      PruningStep(Run(EMPTY, Commits(front)), Steps(EMPTY, front), from, op);
      if op.Commit? { RunSnoc(EMPTY, Commits(front), op.item); }
    }
  }

  lemma PruningStep(full: Store, pruned: Store, from: string, op: Op)
    requires Valid(full) && Valid(pruned) && SameToReaders(full, pruned, from)
    requires op.TrimDaily? ==> AtMost(op.cutoff, from)
    ensures var full' := if op.Commit? then Apply(full, op.item) else full;
            SameToReaders(full', Step(pruned, op), from) && Valid(full') && Valid(Step(pruned, op))
  {
    match op
    case Commit(x) =>
      CommitStep(full, pruned, from, x);
      ApplyKeepsValid(full, x);
      ApplyKeepsValid(pruned, x);
    case Abort(_) =>
    case TrimEvents =>
      NewestTrimmed(full.events, pruned.events);
    case TrimDaily(cutoff) =>
      KeptTwice(cutoff, from, pruned.daily);
      KeptOrdered(cutoff, pruned.daily);
  }
}
