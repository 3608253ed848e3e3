// The device-local DNS statistics database: the raw event ring, the per-day
// per-domain counters and the aggregation cursor. Object stores are modelled
// as the sequence of their records in key order, which is how IndexedDB
// cursors and range queries visit them.
module DnsStore {
  import opened Text

  const EVENTS_RING_CAP: nat := 500

  /** A captured event; `date` is `localDate(captured_at)`. */
  datatype Item = Item(id: int, domain: string, status: string, date: string)

  datatype DailyStat = DailyStat(date: string, domain: string, blocked: nat, allowed: nat)

  datatype Store = Store(events: seq<Item>, daily: seq<DailyStat>, cursor: int)

  const EMPTY: Store := Store([], [], 0)

  predicate IsBlocked(status: string) { status == "blocked" }

  // ------------------------------------------------------------- the daily store

  /** IndexedDB order of the composite keys [date, domain]. */
  predicate KeyLess(d: string, m: string, d': string, m': string) {
    Less(d, d') || (d == d' && Less(m, m'))
  }

  predicate RowLess(r: DailyStat, r': DailyStat) { KeyLess(r.date, r.domain, r'.date, r'.domain) }

  predicate SameKey(r: DailyStat, r': DailyStat) { r.date == r'.date && r.domain == r'.domain }

  ghost predicate KeyOrdered(rows: seq<DailyStat>) {
    forall i, j :: 0 <= i < j < |rows| ==> RowLess(rows[i], rows[j])
  }

  /** `daily.get([date, domain])`, or a zeroed row when there is none. */
  function Lookup(rows: seq<DailyStat>, date: string, domain: string): (r: DailyStat)
    ensures r.date == date && r.domain == domain
  {
    if rows == [] then DailyStat(date, domain, 0, 0)
    else if rows[0].date == date && rows[0].domain == domain then rows[0]
    else Lookup(rows[1..], date, domain)
  }

  /** `daily.put(row)`: replace the record with that key or add one in key order. */
  function Put(rows: seq<DailyStat>, row: DailyStat): seq<DailyStat> {
    if rows == [] || RowLess(row, rows[0]) then [row] + rows
    else if SameKey(row, rows[0]) then [row] + rows[1..]
    else [rows[0]] + Put(rows[1..], row)
  }

  function Bumped(row: DailyStat, item: Item): DailyStat {
    if IsBlocked(item.status) then row.(blocked := row.blocked + 1) else row.(allowed := row.allowed + 1)
  }

  /** Count `item` under its date and domain. */
  function Counted(rows: seq<DailyStat>, item: Item): seq<DailyStat> {
    Put(rows, Bumped(Lookup(rows, item.date, item.domain), item))
  }

  lemma RowTrichotomy(r: DailyStat, r': DailyStat)
    ensures RowLess(r, r') || SameKey(r, r') || RowLess(r', r)
    ensures !(RowLess(r, r') && SameKey(r, r'))
    ensures !(RowLess(r, r') && RowLess(r', r))
  {
    LessTotal(r.date, r'.date);
    LessTotal(r.domain, r'.domain);
    LessIrreflexive(r.date);
    LessIrreflexive(r.domain);
    if Less(r.date, r'.date) { LessAsymmetric(r.date, r'.date); }
    if Less(r.domain, r'.domain) { LessAsymmetric(r.domain, r'.domain); }
  }

  lemma RowLessTransitive(a: DailyStat, b: DailyStat, c: DailyStat)
    requires RowLess(a, b) && (RowLess(b, c) || SameKey(b, c))
    ensures RowLess(a, c)
  {
    if Less(a.date, b.date) && Less(b.date, c.date) { LessTransitive(a.date, b.date, c.date); }
    if Less(a.domain, b.domain) && Less(b.domain, c.domain) { LessTransitive(a.domain, b.domain, c.domain); }
  }

  lemma {:induction false} PutMembers(rows: seq<DailyStat>, row: DailyStat)
    ensures forall r :: r in Put(rows, row) ==> r == row || r in rows
  {
    if rows != [] && !RowLess(row, rows[0]) && !SameKey(row, rows[0]) { PutMembers(rows[1..], row); }
  }

  lemma {:induction false} PutKeepsOrder(rows: seq<DailyStat>, row: DailyStat)
    requires KeyOrdered(rows)
    ensures KeyOrdered(Put(rows, row))
  {
    if rows == [] {
    } else if RowLess(row, rows[0]) {
      forall j | 0 <= j < |rows| ensures RowLess(row, rows[j]) {
        if j > 0 { RowLessTransitive(row, rows[0], rows[j]); }
      }
    } else if SameKey(row, rows[0]) {
      assert forall j :: 0 < j < |rows| ==> RowLess(rows[0], rows[j]);
    } else {
      RowTrichotomy(row, rows[0]);
      PutKeepsOrder(rows[1..], row);
      PutMembers(rows[1..], row);
      var rest := Put(rows[1..], row);
      forall j | 0 <= j < |rest| ensures RowLess(rows[0], rest[j]) {
        assert rest[j] in rest;
      }
    }
  }

  /** A key that sorts before every row is absent. */
  lemma {:induction false} LookupBelow(rows: seq<DailyStat>, date: string, domain: string)
    requires forall r :: r in rows ==> KeyLess(date, domain, r.date, r.domain)
    ensures Lookup(rows, date, domain) == DailyStat(date, domain, 0, 0)
  {
    if rows != [] {
      assert rows[0] in rows;
      LessIrreflexive(date);
      LessIrreflexive(domain);
      LookupBelow(rows[1..], date, domain);
    }
  }

  /** `get` after `put`. */
  lemma {:induction false} LookupAfterPut(rows: seq<DailyStat>, row: DailyStat, date: string, domain: string)
    requires KeyOrdered(rows)
    ensures Lookup(Put(rows, row), date, domain)
         == if row.date == date && row.domain == domain then row else Lookup(rows, date, domain)
  {
    if rows == [] || RowLess(row, rows[0]) {
      assert ([row] + rows)[1..] == rows;
    } else if SameKey(row, rows[0]) {
      assert ([row] + rows[1..])[1..] == rows[1..];
    } else {
      LookupAfterPut(rows[1..], row, date, domain);
      assert ([rows[0]] + Put(rows[1..], row))[1..] == Put(rows[1..], row);
    }
  }

  // ------------------------------------------------------------ the retention cut

  /** The rows dated `from` or later. */
  function Kept(from: string, rows: seq<DailyStat>): (r: seq<DailyStat>)
    ensures forall x :: x in r ==> x in rows && !Less(x.date, from)
  {
    if rows == [] then []
    else if Less(rows[0].date, from) then Kept(from, rows[1..])
    else [rows[0]] + Kept(from, rows[1..])
  }

  /** `store.delete(range)` for the exclusive upper bound [date, domain]. */
  function DeleteBelow(rows: seq<DailyStat>, date: string, domain: string): seq<DailyStat> {
    if rows == [] then []
    else if KeyLess(rows[0].date, rows[0].domain, date, domain) then DeleteBelow(rows[1..], date, domain)
    else [rows[0]] + DeleteBelow(rows[1..], date, domain)
  }

  /** Deleting below [cutoff, ""] removes the rows of earlier dates and keeps the cutoff day whole. */
  lemma {:induction false} KeptExactly(from: string, rows: seq<DailyStat>)
    ensures forall r :: r in Kept(from, rows) <==> r in rows && !Less(r.date, from)
  {
    hide Less;
    if rows != [] { KeptExactly(from, rows[1..]); }
  }

  lemma {:induction false} DeleteBelowIsCut(rows: seq<DailyStat>, cutoff: string)
    ensures DeleteBelow(rows, cutoff, "") == Kept(cutoff, rows)
  {
    if rows != [] { DeleteBelowIsCut(rows[1..], cutoff); }
  }

  lemma {:induction false} KeptOrdered(from: string, rows: seq<DailyStat>)
    requires KeyOrdered(rows)
    ensures KeyOrdered(Kept(from, rows))
  {
    if rows != [] {
      KeptOrdered(from, rows[1..]);
      forall j | 0 <= j < |Kept(from, rows[1..])| ensures RowLess(rows[0], Kept(from, rows[1..])[j]) {
        assert Kept(from, rows[1..])[j] in rows[1..];
      }
    }
  }

  lemma {:induction false} KeptLookup(from: string, rows: seq<DailyStat>, date: string, domain: string)
    requires !Less(date, from)
    ensures Lookup(Kept(from, rows), date, domain) == Lookup(rows, date, domain)
  {
    if rows != [] {
      KeptLookup(from, rows[1..], date, domain);
      assert ([rows[0]] + Kept(from, rows[1..]))[1..] == Kept(from, rows[1..]);
    }
  }

  lemma {:induction false} KeptTwice(f1: string, f2: string, rows: seq<DailyStat>)
    requires AtMost(f1, f2)
    ensures Kept(f2, Kept(f1, rows)) == Kept(f2, rows)
  {
    if rows != [] {
      KeptTwice(f1, f2, rows[1..]);
      assert ([rows[0]] + Kept(f1, rows[1..]))[1..] == Kept(f1, rows[1..]);
      if Less(rows[0].date, f1) && f1 != f2 { LessTransitive(rows[0].date, f1, f2); }
    }
  }

  /** All rows that sort after a kept row are kept. */
  lemma {:induction false} KeptAll(from: string, rows: seq<DailyStat>)
    requires forall r :: r in rows ==> !Less(r.date, from)
    ensures Kept(from, rows) == rows
  {
    if rows != [] {
      assert rows[0] in rows;
      KeptAll(from, rows[1..]);
    }
  }

  /** Cutting off expired rows commutes with writing a row. */
  lemma {:induction false} KeptAfterPut(from: string, rows: seq<DailyStat>, row: DailyStat)
    requires KeyOrdered(rows)
    ensures Kept(from, Put(rows, row))
         == if Less(row.date, from) then Kept(from, rows) else Put(Kept(from, rows), row)
  {
    if rows == [] {
      assert ([row] + rows)[1..] == [];
    } else if RowLess(row, rows[0]) {
      assert ([row] + rows)[1..] == rows;
      if !Less(row.date, from) {
        forall r | r in rows ensures !Less(r.date, from) {
          NotExpiredAfter(from, row, rows, r);
        }
        KeptAll(from, rows);
      }
    } else if SameKey(row, rows[0]) {
      assert ([row] + rows[1..])[1..] == rows[1..];
      assert !Less(row.date, from) ==> ([rows[0]] + Kept(from, rows[1..]))[1..] == Kept(from, rows[1..]);
    } else {
      KeptAfterPut(from, rows[1..], row);
      assert ([rows[0]] + Put(rows[1..], row))[1..] == Put(rows[1..], row);
      RowTrichotomy(row, rows[0]);
      if Less(rows[0].date, from) {
      } else if Less(row.date, from) {
        LaterNotExpired(from, rows[0], row);
      } else {
        assert ([rows[0]] + Kept(from, rows[1..]))[1..] == Kept(from, rows[1..]);
      }
    }
  }

  lemma {:induction false} LaterNotExpired(from: string, a: DailyStat, b: DailyStat)
    requires RowLess(a, b) && !Less(a.date, from)
    ensures !Less(b.date, from)
  {
    if Less(a.date, b.date) && Less(b.date, from) { LessTransitive(a.date, b.date, from); }
  }

  lemma {:induction false} NotExpiredAfter(from: string, row: DailyStat, rows: seq<DailyStat>, r: DailyStat)
    requires KeyOrdered(rows) && rows != [] && RowLess(row, rows[0]) && !Less(row.date, from) && r in rows
    ensures !Less(r.date, from)
  {
    var j :| 0 <= j < |rows| && rows[j] == r;
    if j > 0 { RowLessTransitive(row, rows[0], r); }
    LaterNotExpired(from, row, r);
  }

  // ------------------------------------------------------------------ transactions

  ghost predicate IdOrdered(events: seq<Item>) {
    forall i, j :: 0 <= i < j < |events| ==> events[i].id < events[j].id
  }

  /** `events.put(item)`: keyed by id. */
  function PutEvent(events: seq<Item>, item: Item): seq<Item> {
    if events == [] || item.id < events[0].id then [item] + events
    else if item.id == events[0].id then [item] + events[1..]
    else [events[0]] + PutEvent(events[1..], item)
  }

  /** A new highest id goes to the end of the ring. */
  lemma {:induction false} PutNewest(events: seq<Item>, item: Item)
    requires forall e :: e in events ==> e.id < item.id
    ensures PutEvent(events, item) == events + [item]
  {
    if events != [] {
      assert events[0] in events;
      PutNewest(events[1..], item);
      assert events == [events[0]] + events[1..];
    }
  }

  /** Every id in the ring has been aggregated; stores are in key order. */
  ghost predicate Valid(s: Store) {
    && IdOrdered(s.events) && (forall e :: e in s.events ==> e.id <= s.cursor)
    && KeyOrdered(s.daily)
  }

  /** The effect of a committed `applyEvent` transaction. */
  function Apply(s: Store, item: Item): Store {
    if item.id <= s.cursor then s
    else Store(PutEvent(s.events, item), Counted(s.daily, item), item.id)
  }

  function TrimmedEvents(events: seq<Item>): seq<Item> {
    if |events| > EVENTS_RING_CAP then events[|events| - EVENTS_RING_CAP..] else events
  }

  /** The ring keeps at most its capacity, the newest events, and everything when they fit. */
  lemma RingBounded(events: seq<Item>)
    ensures |TrimmedEvents(events)| == if |events| < 500 then |events| else 500
    ensures TrimmedEvents(events) == events[|events| - |TrimmedEvents(events)|..]
  {
  }

  lemma ApplyKeepsValid(s: Store, item: Item)
    requires Valid(s)
    ensures Valid(Apply(s, item))
    ensures item.id > s.cursor ==> Apply(s, item).events == s.events + [item]
  {
    if item.id > s.cursor {
      PutNewest(s.events, item);
      PutKeepsOrder(s.daily, Bumped(Lookup(s.daily, item.date, item.domain), item));
    }
  }

  /**
   * The open database. Each method is one transaction; `commits` says whether
   * the engine commits it, and an aborted transaction leaves every store as it was.
   */
  class DnsDb {
    var events: seq<Item>
    var daily: seq<DailyStat>
    var cursor: int

    ghost function Contents(): Store
      reads this
    { Store(events, daily, cursor) }

    constructor ()
      ensures Contents() == EMPTY && Valid(Contents())
    {
      events, daily, cursor := [], [], 0;
    }

    method ApplyEvent(item: Item, commits: bool) returns (ok: bool)
      requires Valid(Contents())
      modifies this
      ensures ok == commits
      ensures Contents() == if commits then Apply(old(Contents()), item) else old(Contents())
      ensures Valid(Contents())
    {
      ok := commits;
      if !commits || item.id <= cursor { return; }
      ApplyKeepsValid(Contents(), item);
      events := PutEvent(events, item);
      var prev := Lookup(daily, item.date, item.domain);
      if IsBlocked(item.status) {
        prev := prev.(blocked := prev.blocked + 1);
      } else {
        prev := prev.(allowed := prev.allowed + 1);
      }
      daily := Put(daily, prev);
      cursor := item.id;
    }

    method PruneEvents(commits: bool)
      requires Valid(Contents())
      modifies this`events
      ensures events == if commits then TrimmedEvents(old(events)) else old(events)
      ensures Valid(Contents())
    {
      var excess := |events| - EVENTS_RING_CAP;
      if excess <= 0 { return; }
      var left, removed := events, 0;
      while removed < excess
        invariant 0 <= removed <= excess && left == events[removed..]
      {
        left := left[1..];
        removed := removed + 1;
      }
      if commits { events := left; }
    }

    method PruneDaily(cutoff: string, commits: bool)
      requires Valid(Contents())
      modifies this`daily
      ensures daily == if commits then Kept(cutoff, old(daily)) else old(daily)
      ensures Valid(Contents())
    {
      var left := DeleteBelow(daily, cutoff, "");
      DeleteBelowIsCut(daily, cutoff);
      KeptOrdered(cutoff, daily);
      KeptLength(cutoff, daily);
      if commits && |daily| - |left| > 0 { daily := left; }
    }
  }

  /** Nothing is expired exactly when the cut keeps as many rows as there are. */
  lemma {:induction false} KeptLength(from: string, rows: seq<DailyStat>)
    ensures |Kept(from, rows)| <= |rows|
    ensures |Kept(from, rows)| == |rows| ==> Kept(from, rows) == rows
  {
    if rows != [] { KeptLength(from, rows[1..]); }
  }
}
