// What the Stats page reads back: the headline and trend of a day, its top
// domains and the recent activity, each tied to the events that were counted.
module DnsReads {
  import opened Text
  import opened Sorting
  import opened DnsStore
  import opened DnsHistory

  datatype DayHeadline = DayHeadline(total: nat, blocked: nat, allowed: nat)
  datatype TrendDay = TrendDay(date: string, blocked: nat, allowed: nat)
  datatype DomainCount = DomainCount(domain: string, count: nat)

  /** The highest code unit, which the range query uses as its upper domain bound. */
  const TOP: string := "\U{FFFF}"

  /** The key range [date, ""] .. [date, TOP], both ends included. */
  predicate InDay(row: DailyStat, date: string) {
    !KeyLess(row.date, row.domain, date, "") && !KeyLess(date, TOP, row.date, row.domain)
  }

  function RowsForDate(rows: seq<DailyStat>, date: string): (r: seq<DailyStat>)
    ensures forall x :: x in r ==> x in rows && InDay(x, date)
    ensures forall x :: x in rows && InDay(x, date) ==> x in r
  {
    if rows == [] then []
    else if InDay(rows[0], date) then [rows[0]] + RowsForDate(rows[1..], date)
    else RowsForDate(rows[1..], date)
  }

  /** The range is the one day, less any domain that sorts above TOP. */
  lemma InDayMeaning(row: DailyStat, date: string)
    ensures InDay(row, date) <==> row.date == date && AtMost(row.domain, TOP)
  {
    LessTotal(row.date, date);
    LessTotal(row.domain, TOP);
    LessIrreflexive(date);
    LessIrreflexive(TOP);
    if Less(row.date, date) { LessAsymmetric(row.date, date); }
    if Less(TOP, row.domain) { LessAsymmetric(TOP, row.domain); }
  }

  /** Only a domain that starts with the highest code unit, and is more than it, falls outside. */
  lemma InDayDomains(row: DailyStat, date: string)
    ensures InDay(row, date) <==>
            row.date == date && (row.domain == "" || row.domain[0] < '\U{FFFF}' || row.domain == "\U{FFFF}")
  {
    hide InDay;
    InDayMeaning(row, date);
    UpToTop(row.domain);
  }

  lemma UpToTop(domain: string)
    ensures AtMost(domain, TOP) <==> domain == "" || domain[0] < '\U{FFFF}' || domain == "\U{FFFF}"
  {
    assert TOP[0] == '\U{FFFF}' && TOP[1..] == "";
    if domain != "" {
      assert Less(domain, TOP) <==> domain[0] < '\U{FFFF}' || (domain[0] == '\U{FFFF}' && Less(domain[1..], TOP[1..]));
      assert !Less(domain[1..], TOP[1..]);
    }
  }

  function SumBy(pick: DailyStat -> nat, rows: seq<DailyStat>): nat {
    if rows == [] then 0 else pick(rows[0]) + SumBy(pick, rows[1..])
  }

  const BLOCKED: DailyStat -> nat := (r: DailyStat) => r.blocked
  const ALLOWED: DailyStat -> nat := (r: DailyStat) => r.allowed
  const QUERIED: DailyStat -> nat := (r: DailyStat) => r.blocked + r.allowed

  method DayTotals(rows: seq<DailyStat>) returns (blocked: nat, allowed: nat)
    ensures blocked == SumBy(BLOCKED, rows) && allowed == SumBy(ALLOWED, rows)
  {
    blocked, allowed := 0, 0;
    var i := 0;
    while i < |rows|
      invariant 0 <= i <= |rows|
      invariant blocked + SumBy(BLOCKED, rows[i..]) == SumBy(BLOCKED, rows)
      invariant allowed + SumBy(ALLOWED, rows[i..]) == SumBy(ALLOWED, rows)
    {
      blocked := blocked + rows[i].blocked;
      allowed := allowed + rows[i].allowed;
      i := i + 1;
    }
  }

  method ReadHeadline(rows: seq<DailyStat>, date: string) returns (h: DayHeadline)
    ensures h.blocked == SumBy(BLOCKED, RowsForDate(rows, date))
    ensures h.allowed == SumBy(ALLOWED, RowsForDate(rows, date))
    ensures h.total == h.blocked + h.allowed
  {
    var blocked, allowed := DayTotals(RowsForDate(rows, date));
    h := DayHeadline(blocked + allowed, blocked, allowed);
  }

  method ReadTrend(rows: seq<DailyStat>, dates: seq<string>) returns (trend: seq<TrendDay>)
    ensures |trend| == |dates|
    ensures forall i :: 0 <= i < |dates| ==>
              trend[i] == TrendDay(dates[i], SumBy(BLOCKED, RowsForDate(rows, dates[i])),
                                   SumBy(ALLOWED, RowsForDate(rows, dates[i])))
  {
    trend := [];
    while |trend| < |dates|
      invariant |trend| <= |dates|
      invariant forall i :: 0 <= i < |trend| ==>
                  trend[i] == TrendDay(dates[i], SumBy(BLOCKED, RowsForDate(rows, dates[i])),
                                       SumBy(ALLOWED, RowsForDate(rows, dates[i])))
      decreases |dates| - |trend|
    {
      var date := dates[|trend|];
      var blocked, allowed := DayTotals(RowsForDate(rows, date));
      trend := trend + [TrendDay(date, blocked, allowed)];
    }
  }

  // ---------------------------------------------------------- conservation of counts

  /** An item of this day and verdict. */
  predicate FallsOn(x: Item, date: string, blocked: bool) { x.date == date && (x.status == "blocked") == blocked }

  /** How many of `items` are dated `date` with this verdict, whatever their domain. */
  function CountOn(items: seq<Item>, date: string, blocked: bool): nat {
    if items == [] then 0
    else CountOn(items[..|items| - 1], date, blocked) + if FallsOn(items[|items| - 1], date, blocked) then 1 else 0
  }

  /** A domain the day range can see. */
  predicate Visible(x: Item) { AtMost(x.domain, TOP) }

  /** The same count over the domains the day range can see. */
  function CountShown(items: seq<Item>, date: string, blocked: bool): nat {
    if items == [] then 0
    else
      var x := items[|items| - 1];
      CountShown(items[..|items| - 1], date, blocked) + if FallsOn(x, date, blocked) && Visible(x) then 1 else 0
  }

  /** Nothing of the day is missing exactly when no domain of the day sorts above the range's upper bound. */
  lemma {:induction false} ShownIsAll(items: seq<Item>, date: string, blocked: bool)
    ensures CountShown(items, date, blocked) <= CountOn(items, date, blocked)
    ensures CountShown(items, date, blocked) == CountOn(items, date, blocked)
       <==> forall x :: x in items && FallsOn(x, date, blocked) ==> Visible(x)
  {
    if items != [] {
      var front, last := items[..|items| - 1], items[|items| - 1];
      ShownIsAll(front, date, blocked);
      assert forall x :: x in items <==> x in front || x == last;
    }
  }

  /** Writing one row moves a day's sum by the change in that row. */
  lemma {:induction false} SumAfterPut(pick: DailyStat -> nat, rows: seq<DailyStat>, row: DailyStat, date: string)
    requires KeyOrdered(rows)
    requires pick(DailyStat(row.date, row.domain, 0, 0)) == 0
    ensures SumBy(pick, RowsForDate(Put(rows, row), date))
         == SumBy(pick, RowsForDate(rows, date))
          + if InDay(row, date) then pick(row) - pick(Lookup(rows, row.date, row.domain)) else 0
  {
    if rows == [] || RowLess(row, rows[0]) {
      assert ([row] + rows)[1..] == rows;
      forall r | r in rows ensures RowLess(row, r) { FirstIsLeast(rows, row, r); }
      LookupBelow(rows, row.date, row.domain);
      SumCons(pick, row, rows, date);
    } else if SameKey(row, rows[0]) {
      SumCons(pick, row, rows[1..], date);
      assert rows == [rows[0]] + rows[1..];
      SumCons(pick, rows[0], rows[1..], date);
    } else {
      SumAfterPut(pick, rows[1..], row, date);
      assert rows == [rows[0]] + rows[1..];
      SumCons(pick, rows[0], rows[1..], date);
      SumCons(pick, rows[0], Put(rows[1..], row), date);
    }
  }

  lemma {:induction false} SumCons(pick: DailyStat -> nat, row: DailyStat, rows: seq<DailyStat>, date: string)
    ensures SumBy(pick, RowsForDate([row] + rows, date))
         == SumBy(pick, RowsForDate(rows, date)) + if InDay(row, date) then pick(row) else 0
  {
    assert ([row] + rows)[1..] == rows;
    assert ([row] + RowsForDate(rows, date))[1..] == RowsForDate(rows, date);
  }

  lemma FirstIsLeast(rows: seq<DailyStat>, row: DailyStat, r: DailyStat)
    requires KeyOrdered(rows) && rows != [] && RowLess(row, rows[0]) && r in rows
    ensures RowLess(row, r)
  {
    var j :| 0 <= j < |rows| && rows[j] == r;
    if j > 0 { RowLessTransitive(row, rows[0], r); }
  }

  /** A day's headline is the number of accepted events of that day. */
  lemma {:induction false} HeadlineConserved(items: seq<Item>, date: string)
    ensures SumBy(BLOCKED, RowsForDate(Tally([], items), date)) == CountShown(items, date, true)
    ensures SumBy(ALLOWED, RowsForDate(Tally([], items), date)) == CountShown(items, date, false)
  {
    if items != [] {
      var front, x := items[..|items| - 1], items[|items| - 1];
      HeadlineConserved(front, date);
      TallyOrdered([], front);
      var rows := Tally([], front);
      var row := Bumped(Lookup(rows, x.date, x.domain), x);
      SumAfterPut(BLOCKED, rows, row, date);
      SumAfterPut(ALLOWED, rows, row, date);
      InDayMeaning(row, date);
    }
  }

  /** Reads of a date at or after the retention cut do not see the pruned rows. */
  lemma {:induction false} DayUnaffectedByCut(from: string, rows: seq<DailyStat>, date: string)
    requires AtMost(from, date)
    ensures RowsForDate(Kept(from, rows), date) == RowsForDate(rows, date)
  {
    if rows != [] {
      DayUnaffectedByCut(from, rows[1..], date);
      assert ([rows[0]] + Kept(from, rows[1..]))[1..] == Kept(from, rows[1..]);
      InDayMeaning(rows[0], date);
      if Less(rows[0].date, from) && rows[0].date == date {
        LessIrreflexive(date);
        LessAsymmetric(date, from);
      }
    }
  }

  /** With pruning anywhere in the run, an in-window day still shows every counted event once. */
  lemma {:induction false} WindowShowsAllCounted(ops: seq<Op>, from: string, date: string)
    requires CutoffsUpTo(ops, from) && AtMost(from, date)
    ensures var rows := RowsForDate(Steps(EMPTY, ops).daily, date);
            && SumBy(BLOCKED, rows) == CountShown(Accepted(Commits(ops), 0), date, true)
            && SumBy(ALLOWED, rows) == CountShown(Accepted(Commits(ops), 0), date, false)
  {
    hide SameToReaders, RowsForDate, Steps, Run, Accepted, Commits, Tally, CutoffsUpTo, SumBy, CountShown;
    PruningIsInvisible(ops, from);
    RunIsFoldOfAccepted(EMPTY, Commits(ops));
    HeadlineConserved(Accepted(Commits(ops), 0), date);
    SameReads(Run(EMPTY, Commits(ops)), Steps(EMPTY, ops), from, date, 0);
  }

  // ------------------------------------------------------------------- top domains

  function Counts(pick: DailyStat -> nat, rows: seq<DailyStat>): (r: seq<DomainCount>)
    ensures |r| == |rows|
    ensures forall i :: 0 <= i < |rows| ==> r[i] == DomainCount(rows[i].domain, pick(rows[i]))
  {
    seq(|rows|, i requires 0 <= i < |rows| => DomainCount(rows[i].domain, pick(rows[i])))
  }

  const HIGHER: (DomainCount, DomainCount) -> bool := (a: DomainCount, b: DomainCount) => b.count <= a.count

  const NONZERO: DomainCount -> bool := (d: DomainCount) => d.count > 0

  function TopByDate(rows: seq<DailyStat>, date: string, pick: DailyStat -> nat, n: nat): seq<DomainCount> {
    var ranked := Sort(HIGHER, Nonzero(RowsForDate(rows, date), pick));
    if |ranked| <= n then ranked else ranked[..n]
  }

  lemma HigherIsPreorder()
    ensures TotalPreorder(HIGHER)
  {
  }

  /** A list of domains carries the nonzero counts of the day's rows. */
  ghost predicate CountsOf(top: seq<DomainCount>, day: seq<DailyStat>, pick: DailyStat -> nat) {
    forall d :: d in top ==> d.count > 0 && exists r :: r in day && d == DomainCount(r.domain, pick(r))
  }

  /** No nonzero row left off a full list has a higher count than one on it. */
  ghost predicate NoneMissed(top: seq<DomainCount>, n: nat, day: seq<DailyStat>, pick: DailyStat -> nat) {
    forall r :: r in day && pick(r) > 0 ==>
      DomainCount(r.domain, pick(r)) in top || (|top| == n && forall d :: d in top ==> pick(r) <= d.count)
  }

  function Nonzero(day: seq<DailyStat>, pick: DailyStat -> nat): seq<DomainCount> {
    Filter(NONZERO, Counts(pick, day))
  }

  lemma NonzeroMeaning(day: seq<DailyStat>, pick: DailyStat -> nat)
    ensures CountsOf(Nonzero(day, pick), day, pick)
    ensures forall r :: r in day && pick(r) > 0 ==> DomainCount(r.domain, pick(r)) in Nonzero(day, pick)
  {
    hide Filter;
    var counts := Counts(pick, day);
    forall d | d in Nonzero(day, pick) ensures d.count > 0 && exists r :: r in day && d == DomainCount(r.domain, pick(r)) {
      var i :| 0 <= i < |counts| && counts[i] == d;
      assert day[i] in day;
    }
    forall r | r in day && pick(r) > 0 ensures DomainCount(r.domain, pick(r)) in Nonzero(day, pick) {
      var i :| 0 <= i < |day| && day[i] == r;
      assert counts[i] in counts;
    }
  }

  predicate OncePerDomain(counts: seq<DomainCount>) {
    forall i, j :: 0 <= i < j < |counts| ==> counts[i].domain != counts[j].domain
  }

  predicate DistinctDomains(day: seq<DailyStat>) {
    forall i, j :: 0 <= i < j < |day| ==> day[i].domain != day[j].domain
  }

  /** A store in key order has one row of a day for each domain. */
  lemma {:induction false} DayDomains(rows: seq<DailyStat>, date: string)
    requires KeyOrdered(rows)
    ensures DistinctDomains(RowsForDate(rows, date))
  {
    if rows != [] {
      var rest := RowsForDate(rows[1..], date);
      DayDomains(rows[1..], date);
      forall j | 0 <= j < |rest| && InDay(rows[0], date) ensures rest[j].domain != rows[0].domain {
        assert rest[j] in rest;
        InDayMeaning(rows[0], date);
        InDayMeaning(rest[j], date);
        var k :| 0 <= k < |rows[1..]| && rows[1..][k] == rest[j];
        assert RowLess(rows[0], rows[k + 1]);
        RowTrichotomy(rows[0], rest[j]);
      }
    }
  }

  lemma {:induction false} FilteredOnce(counts: seq<DomainCount>)
    requires OncePerDomain(counts)
    ensures OncePerDomain(Filter(NONZERO, counts))
  {
    if counts != [] {
      assert forall i :: 0 <= i < |counts[1..]| ==> counts[1..][i] == counts[i + 1];
      FilteredOnce(counts[1..]);
      var rest := Filter(NONZERO, counts[1..]);
      forall j | 0 <= j < |rest| ensures rest[j].domain != counts[0].domain { assert rest[j] in rest; }
    }
  }

  lemma CountedOnce(day: seq<DailyStat>, pick: DailyStat -> nat)
    requires DistinctDomains(day)
    ensures OncePerDomain(Nonzero(day, pick))
  {
    FilteredOnce(Counts(pick, day));
  }

  lemma {:induction false} InsertedOnce(d: DomainCount, counts: seq<DomainCount>)
    requires OncePerDomain(counts) && forall e :: e in counts ==> e.domain != d.domain
    ensures OncePerDomain(Insert(HIGHER, d, counts))
  {
    if counts != [] && !HIGHER(d, counts[0]) {
      assert forall i :: 0 <= i < |counts[1..]| ==> counts[1..][i] == counts[i + 1];
      InsertedOnce(d, counts[1..]);
      var rest := Insert(HIGHER, d, counts[1..]);
      forall j | 0 <= j < |rest| ensures rest[j].domain != counts[0].domain {
        assert rest[j] in multiset(rest);
        assert rest[j] == d || rest[j] in counts[1..];
      }
    }
  }

  lemma {:induction false} RankedOnce(counts: seq<DomainCount>)
    requires OncePerDomain(counts)
    ensures OncePerDomain(Sort(HIGHER, counts))
  {
    if counts != [] {
      RankedOnce(counts[1..]);
      var rest := Sort(HIGHER, counts[1..]);
      forall e | e in rest ensures e.domain != counts[0].domain {
        assert e in multiset(rest) && e in multiset(counts[1..]);
      }
      InsertedOnce(counts[0], rest);
    }
  }

  lemma {:induction false} TopOnce(rows: seq<DailyStat>, date: string, pick: DailyStat -> nat, n: nat)
    requires KeyOrdered(rows)
    ensures OncePerDomain(TopByDate(rows, date, pick, n))
  {
    hide Sort, RowsForDate, Nonzero, KeyOrdered;
    var day := RowsForDate(rows, date);
    DayDomains(rows, date);
    CountedOnce(day, pick);
    RankedOnce(Nonzero(day, pick));
  }

  /** The first `n` of a ranked list: the rest ranks no higher. */
  lemma {:induction false} TopOfRanked(ranked: seq<DomainCount>, n: nat, d: DomainCount)
    requires Ordered(HIGHER, ranked) && d in ranked
    ensures var top := if |ranked| <= n then ranked else ranked[..n];
            d in top || (|top| == n && forall e :: e in top ==> d.count <= e.count)
  {
    var k :| 0 <= k < |ranked| && ranked[k] == d;
    if |ranked| > n {
      var top := ranked[..n];
      if k < n {
        assert top[k] == d;
      } else {
        forall e | e in top ensures d.count <= e.count {
          var j :| 0 <= j < |top| && top[j] == e;
          assert HIGHER(ranked[j], ranked[k]);
        }
      }
    }
  }

  /**
   * The listed domains carry their own nonzero counts, highest first, and no
   * domain of the day left off the list has a higher count than one on it; no
   * domain is listed twice.
   */
  lemma {:induction false} TopAreHighest(rows: seq<DailyStat>, date: string, pick: DailyStat -> nat, n: nat)
    ensures var top, day := TopByDate(rows, date, pick, n), RowsForDate(rows, date);
            |top| <= n && Ordered(HIGHER, top) && CountsOf(top, day, pick) && NoneMissed(top, n, day, pick)
    ensures KeyOrdered(rows) ==> OncePerDomain(TopByDate(rows, date, pick, n))
  {
    hide Sort, RowsForDate, Nonzero, KeyOrdered, OncePerDomain;
    if KeyOrdered(rows) { TopOnce(rows, date, pick, n); }
    var day := RowsForDate(rows, date);
    var ranked := Sort(HIGHER, Nonzero(day, pick));
    NonzeroMeaning(day, pick);
    RankedOrder(Nonzero(day, pick));
    forall r | r in day && pick(r) > 0
      ensures var top := TopByDate(rows, date, pick, n);
              DomainCount(r.domain, pick(r)) in top || (|top| == n && forall d :: d in top ==> pick(r) <= d.count)
    {
      TopOfRanked(ranked, n, DomainCount(r.domain, pick(r)));
    }
  }

  lemma {:induction false} RankedOrder(counts: seq<DomainCount>)
    ensures Ordered(HIGHER, Sort(HIGHER, counts))
    ensures forall d :: d in Sort(HIGHER, counts) <==> d in counts
  {
    hide Sort;
    HigherIsPreorder();
    SortIsStable(HIGHER, counts);
    forall d ensures d in Sort(HIGHER, counts) <==> d in counts {
      assert d in Sort(HIGHER, counts) <==> d in multiset(Sort(HIGHER, counts));
      assert d in counts <==> d in multiset(counts);
    }
  }

  /** A stored row is what a lookup of its key returns. */
  lemma {:induction false} RowIsLookup(rows: seq<DailyStat>, r: DailyStat)
    requires KeyOrdered(rows) && r in rows
    ensures Lookup(rows, r.date, r.domain) == r
  {
    if rows[0] != r {
      assert r in rows[1..];
      RowTrichotomy(rows[0], r);
      RowIsLookup(rows[1..], r);
    }
  }

  /** A listed count, whatever it picks, is picked from the event counts of its date and domain. */
  lemma {:induction false} TopRowCounts(items: seq<Item>, date: string, pick: DailyStat -> nat, n: nat, d: DomainCount)
    requires d in TopByDate(Tally([], items), date, pick, n)
    ensures d.count > 0
    ensures d.count == pick(DailyStat(date, d.domain, CountOf(items, date, d.domain, true), CountOf(items, date, d.domain, false)))
  {
    hide TopByDate, RowsForDate, Tally, Lookup;
    var rows := Tally([], items);
    TopAreHighest(rows, date, pick, n);
    var r :| r in RowsForDate(rows, date) && d == DomainCount(r.domain, pick(r));
    InDayMeaning(r, date);
    TallyOrdered([], items);
    RowIsLookup(rows, r);
    TallyCounts(items, date, r.domain);
  }

  /** The top domains are listed with the numbers of counted events of that day: blocked ones, or all of them. */
  lemma {:induction false} TopShowsEventCounts(items: seq<Item>, date: string, n: nat, d: DomainCount)
    ensures d in TopByDate(Tally([], items), date, BLOCKED, n) ==>
              d.count == CountOf(items, date, d.domain, true) > 0
    ensures d in TopByDate(Tally([], items), date, QUERIED, n) ==>
              d.count == CountOf(items, date, d.domain, true) + CountOf(items, date, d.domain, false) > 0
  {
    hide TopByDate, Tally;
    if d in TopByDate(Tally([], items), date, BLOCKED, n) { TopRowCounts(items, date, BLOCKED, n, d); }
    if d in TopByDate(Tally([], items), date, QUERIED, n) { TopRowCounts(items, date, QUERIED, n, d); }
  }

  // --------------------------------------------------------------- recent activity

  /** The newest `n` of `events`, newest first. */
  function Newest(events: seq<Item>, n: nat): seq<Item> {
    if events == [] || n == 0 then [] else [events[|events| - 1]] + Newest(events[..|events| - 1], n - 1)
  }

  /** Position `i` holds the event `i` places before the last. */
  lemma {:induction false} NewestAt(events: seq<Item>, n: nat)
    ensures |Newest(events, n)| == if n < |events| then n else |events|
    ensures forall i :: 0 <= i < |Newest(events, n)| ==> Newest(events, n)[i] == events[|events| - 1 - i]
  {
    if events != [] && n > 0 { NewestAt(events[..|events| - 1], n - 1); }
  }

  method RecentActivity(events: seq<Item>, n: nat) returns (out: seq<Item>)
    ensures out == Newest(events, n)
  {
    out := [];
    var k := |events|;
    assert events[..k] == events;
    while k > 0 && |out| < n
      invariant 0 <= k <= |events| && |out| <= n
      invariant out + Newest(events[..k], n - |out|) == Newest(events, n)
      decreases k
    {
      k := k - 1;
      assert events[..k + 1][..k] == events[..k];
      out := out + [events[k]];
    }
  }

  /** Trimming the ring is invisible to any read of at most EVENTS_RING_CAP events. */
  lemma {:induction false} RecentUnaffectedByTrim(all: seq<Item>, ring: seq<Item>, n: nat)
    requires |ring| <= |all| && ring == all[|all| - |ring|..]
    requires n <= |ring| || |ring| == |all|
    ensures Newest(ring, n) == Newest(all, n)
  {
    if all != [] && ring != [] && n > 0 {
      var r, a := ring[..|ring| - 1], all[..|all| - 1];
      assert r == a[|a| - |r|..];
      RecentUnaffectedByTrim(a, r, n - 1);
    }
  }

  /** Stores that differ only in what the pruners may take answer every read alike. */
  lemma {:induction false} SameReads(full: Store, pruned: Store, from: string, date: string, n: nat)
    requires SameToReaders(full, pruned, from) && AtMost(from, date) && n <= EVENTS_RING_CAP
    ensures Newest(pruned.events, n) == Newest(full.events, n)
    ensures RowsForDate(pruned.daily, date) == RowsForDate(full.daily, date)
  {
    hide Newest, RowsForDate, Kept;
    RecentUnaffectedByTrim(full.events, pruned.events, n);
    DayUnaffectedByCut(from, pruned.daily, date);
    DayUnaffectedByCut(from, full.daily, date);
  }

  /** Every read the page makes is the same with and without the pruners. */
  lemma {:induction false} ReadsIgnorePruning(ops: seq<Op>, from: string, date: string, n: nat)
    requires CutoffsUpTo(ops, from) && AtMost(from, date) && n <= EVENTS_RING_CAP
    ensures Newest(Steps(EMPTY, ops).events, n) == Newest(Accepted(Commits(ops), 0), n)
    ensures RowsForDate(Steps(EMPTY, ops).daily, date) == RowsForDate(Run(EMPTY, Commits(ops)).daily, date)
  {
    hide SameToReaders, Newest, RowsForDate, Steps, Run, Accepted, Commits, Tally, CutoffsUpTo;
    PruningIsInvisible(ops, from);
    SameReads(Run(EMPTY, Commits(ops)), Steps(EMPTY, ops), from, date, n);
    RunIsFoldOfAccepted(EMPTY, Commits(ops));
    assert EMPTY.events + Accepted(Commits(ops), 0) == Accepted(Commits(ops), 0);
  }
}
