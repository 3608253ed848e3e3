// One open page and the daemon task that feeds it. That task subscribes to the
// event bus, replays the stored rows above the page's Last-Event-ID in batches,
// then forwards live rows; the page queues a transaction for each row it gets.
module EventPump {
  import opened Text
  import opened DnsStore
  import opened DnsHistory
  import opened SyncHook

  const FETCH_LIMIT: nat := 200

  /** Where the daemon task stands. */
  datatype Pump =
    | Closed
    | Fetching(last: int)
    | Sending(batch: seq<Item>, max: int, full: bool)
    | Live(last: int)

  /**
   * One page. `lastEventId` is the id of the last message the browser received,
   * which it repeats when it reconnects; `bus` is what the stream task's subscription
   * has buffered, `channel` what is on its way to the page, `txq` the
   * transactions queued but not finished, `resolved` the committed ones whose
   * continuation has not run.
   */
  datatype Session = Session(
    mounted: bool, lastEventId: int, pump: Pump, bus: seq<Item>, channel: seq<Item>,
    txq: seq<Item>, resolved: seq<int>, ack: AckState)

  const FRESH: Session := Session(true, 0, Closed, [], [], [], [], NO_ACK)

  // -------------------------------------------------------------- the stored rows

  /** `WHERE id > after ORDER BY id ASC`. */
  function Above(rows: seq<Item>, after: int): (r: seq<Item>)
    ensures forall x :: x in r <==> x in rows && x.id > after
  {
    if rows == [] then []
    else if rows[0].id > after then [rows[0]] + Above(rows[1..], after)
    else Above(rows[1..], after)
  }

  /** `fetch_pending`: the first FETCH_LIMIT rows above `after`. */
  function FetchPending(rows: seq<Item>, after: int): seq<Item> {
    var r := Above(rows, after);
    if |r| <= FETCH_LIMIT then r else r[..FETCH_LIMIT]
  }

  lemma {:induction false} AboveOrdered(rows: seq<Item>, after: int)
    requires IdOrdered(rows)
    ensures IdOrdered(Above(rows, after))
  {
    if rows != [] {
      AboveOrdered(rows[1..], after);
      var r := Above(rows[1..], after);
      forall j | 0 <= j < |r| ensures rows[0].id < r[j].id { assert r[j] in rows[1..]; }
    }
  }

  /** A batch leaves out no row between `after` and its own last row, and none at all when it is short. */
  lemma FetchHasNoGap(rows: seq<Item>, after: int)
    requires IdOrdered(rows)
    ensures var batch := FetchPending(rows, after);
            && IdOrdered(batch) && |batch| <= 200
            && (forall x :: x in batch ==> x in rows && after < x.id <= LastId(batch, after))
            && (forall x :: x in rows && after < x.id <= LastId(batch, after) ==> x in batch)
            && (|batch| < 200 ==> forall x :: x in rows && x.id > after ==> x in batch)
  {
    AboveOrdered(rows, after);
    var r, batch := Above(rows, after), FetchPending(rows, after);
    if r != [] {
      PrefixOfOrdered(r, |batch|);
      assert batch == r[..|batch|];
    }
  }

  lemma PrefixOfOrdered(r: seq<Item>, k: int)
    requires IdOrdered(r) && 0 < k <= |r|
    ensures IdOrdered(r[..k])
    ensures forall x :: x in r[..k] ==> x in r && x.id <= r[k - 1].id
    ensures forall x :: x in r && x.id <= r[k - 1].id ==> x in r[..k]
  {
    forall x | x in r && x.id <= r[k - 1].id ensures x in r[..k] {
      var j :| 0 <= j < |r| && r[j] == x;
      assert r[..k][j] == x;
    }
  }

  // ------------------------------------------------------------ the page's steps

  function Pending(p: Pump): seq<Item> {
    if p.Sending? then p.batch else []
  }

  /** The highest id the stream task has taken charge of. */
  function Bound(s: Session): int {
    match s.pump
    case Closed => LastId(s.channel, s.lastEventId)
    case Fetching(last) => last
    case Sending(_, max, _) => max
    case Live(last) => last
  }

  /** Nothing above the bound needs fetching any more: it arrives over the bus. */
  predicate CaughtUp(p: Pump) { p.Live? || (p.Sending? && !p.full) }

  /** `x` is somewhere between the daemon task and the page's database. */
  predicate OnTheWay(s: Session, x: Item) {
    x in s.txq || x in s.channel || x in Pending(s.pump)
  }

  /** The highest id sent to the page. */
  function Sent(s: Session): int { LastId(s.channel, s.lastEventId) }

  function Connected(s: Session): Session {
    s.(pump := Fetching(s.lastEventId), bus := [], channel := [])
  }

  function Fetched(s: Session, rows: seq<Item>): Session
    requires s.pump.Fetching?
  {
    WithBatch(s, FetchPending(rows, s.pump.last))
  }

  function WithBatch(s: Session, batch: seq<Item>): Session
    requires s.pump.Fetching?
  {
    if batch == [] then s.(pump := Live(s.pump.last))
    else s.(pump := Sending(batch, LastId(batch, s.pump.last), |batch| == FETCH_LIMIT))
  }

  function SentOne(s: Session): Session
    requires s.pump.Sending? && s.pump.batch != []
  {
    var p := s.pump;
    var next :=
      if |p.batch| > 1 then p.(batch := p.batch[1..])
      else if p.full then Fetching(p.max) else Live(p.max);
    s.(pump := next, channel := s.channel + [p.batch[0]])
  }

  function Forwarded(s: Session): Session
    requires s.pump.Live? && s.bus != []
  {
    var y := s.bus[0];
    if y.id > s.pump.last
    then s.(pump := Live(y.id), channel := s.channel + [y], bus := s.bus[1..])
    else s.(bus := s.bus[1..])
  }

  function Disconnected(s: Session): Session { s.(pump := Closed, bus := []) }

  function Received(s: Session): Session
    requires s.channel != []
  {
    s.(txq := s.txq + [s.channel[0]], lastEventId := s.channel[0].id, channel := s.channel[1..])
  }

  /** A message that does not parse is dropped, but the browser still remembers its id. */
  function ReceivedGarbled(s: Session): Session
    requires s.channel != []
  {
    s.(lastEventId := s.channel[0].id, channel := s.channel[1..])
  }

  function Unmounted(s: Session): Session {
    s.(mounted := false, pump := Closed, bus := [], channel := [], ack := Flushed(s.ack))
  }

  // ---------------------------------------------------------------- the invariant

  /** Captured items with ascending ids above `lo` and up to `hi`. */
  ghost predicate Stretch(items: seq<Item>, captured: seq<Item>, lo: int, hi: int) {
    IdOrdered(items) && forall x :: x in items ==> x in captured && lo < x.id <= hi
  }

  /**
   * `open` holds the ids nothing has become of yet. The queues hold consecutive
   * stretches of ids; every open id up to the bound is in one of them, and once
   * the stream task has caught up every open id above it is on the bus or about to be
   * published.
   */
  ghost predicate InStep(s: Session, captured: seq<Item>, open: set<int>, unpublished: Option<Item>) {
    && 0 <= s.lastEventId && Sent(s) <= Bound(s) <= LastId(captured, 0)
    && Stretch(s.txq, captured, 0, s.lastEventId)
    && Stretch(s.channel, captured, s.lastEventId, Sent(s))
    && Stretch(Pending(s.pump), captured, Sent(s), Bound(s))
    && (s.pump.Sending? ==> s.pump.batch != [] && s.pump.max == LastId(s.pump.batch, 0))
    && Stretch(s.bus, captured, 0, LastId(captured, 0))
    && (unpublished.Some? ==> forall x :: x in s.bus ==> x.id < unpublished.value.id)
    && (forall x :: x in captured && x.id in open && x.id <= Bound(s) ==> OnTheWay(s, x))
    && (CaughtUp(s.pump) ==>
          forall x :: x in captured && x.id in open && x.id > Bound(s) ==> x in s.bus || unpublished == Some(x))
  }

  /** What the daemon guarantees: rows are stored in id order and no open row has been deleted. */
  ghost predicate RowsOk(rows: seq<Item>, captured: seq<Item>, open: set<int>) {
    && IdOrdered(rows) && IdOrdered(captured)
    && (forall x :: x in rows ==> x in captured)
    && (forall x :: x in captured ==> 0 < x.id <= LastId(captured, 0))
    && (forall x :: x in captured && x.id in open ==> x in rows)
  }

  lemma FreshInStep(captured: seq<Item>, open: set<int>, u: Option<Item>)
    requires forall x :: x in captured ==> 0 < x.id <= LastId(captured, 0)
    ensures InStep(FRESH, captured, open, u)
  {
    assert captured != [] ==> captured[|captured| - 1] in captured;
  }

  lemma FewerOpen(s: Session, captured: seq<Item>, open: set<int>, open': set<int>, u: Option<Item>)
    requires InStep(s, captured, open, u) && open' <= open
    ensures InStep(s, captured, open', u)
  {
  }

  lemma ConnectInStep(s: Session, captured: seq<Item>, open: set<int>, u: Option<Item>)
    requires InStep(s, captured, open, u)
    ensures InStep(Connected(s), captured, open, u)
  {
    SentAtLeast(s, captured, open, u);
  }

  lemma SentAtLeast(s: Session, captured: seq<Item>, open: set<int>, u: Option<Item>)
    requires InStep(s, captured, open, u)
    ensures s.lastEventId <= Sent(s)
  {
    assert s.channel != [] ==> s.channel[|s.channel| - 1] in s.channel;
  }

  lemma FetchInStep(s: Session, rows: seq<Item>, captured: seq<Item>, open: set<int>, u: Option<Item>)
    requires InStep(s, captured, open, u) && RowsOk(rows, captured, open) && s.pump.Fetching?
    ensures InStep(Fetched(s, rows), captured, open, u)
  {
    FetchHasNoGap(rows, s.pump.last);
    BatchInStep(s, FetchPending(rows, s.pump.last), rows, captured, open, u);
  }

  lemma BatchInStep(s: Session, batch: seq<Item>, rows: seq<Item>, captured: seq<Item>, open: set<int>, u: Option<Item>)
    requires InStep(s, captured, open, u) && RowsOk(rows, captured, open) && s.pump.Fetching?
    requires IdOrdered(batch)
    requires forall x :: x in batch ==> x in rows && s.pump.last < x.id <= LastId(batch, s.pump.last)
    requires forall x :: x in rows && s.pump.last < x.id <= LastId(batch, s.pump.last) ==> x in batch
    requires |batch| < FETCH_LIMIT ==> forall x :: x in rows && x.id > s.pump.last ==> x in batch
    requires |batch| <= FETCH_LIMIT
    ensures InStep(WithBatch(s, batch), captured, open, u)
  {
    if batch == [] {
      assert forall x :: x in rows ==> x.id <= s.pump.last;
    } else {
      assert batch[|batch| - 1] in batch;
    }
  }

  lemma SendInStep(s: Session, captured: seq<Item>, open: set<int>, u: Option<Item>)
    requires InStep(s, captured, open, u) && s.pump.Sending?
    ensures InStep(SentOne(s), captured, open, u)
  {
    var t, y := SentOne(s), s.pump.batch[0];
    HeadAndRest(s.pump.batch);
    assert Pending(t.pump) == s.pump.batch[1..];
    SentAtLeast(s, captured, open, u);
    ChannelGrows(s, captured, y);
    assert Sent(t) == y.id && Bound(t) == Bound(s);
    assert Stretch(Pending(t.pump), captured, y.id, Bound(s));
    assert forall x :: OnTheWay(s, x) ==> OnTheWay(t, x);
    assert CaughtUp(t.pump) ==> CaughtUp(s.pump);
    assert s.pump.batch[|s.pump.batch| - 1] in s.pump.batch;
  }

  /** An ordered sequence is its least element and an ordered rest above it. */
  lemma HeadAndRest(items: seq<Item>)
    requires IdOrdered(items) && items != []
    ensures IdOrdered(items[1..])
    ensures forall x :: x in items <==> x == items[0] || x in items[1..]
    ensures forall x :: x in items[1..] ==> items[0].id < x.id
  {
    assert items == [items[0]] + items[1..];
  }

  lemma ChannelGrows(s: Session, captured: seq<Item>, y: Item)
    requires Stretch(s.channel, captured, s.lastEventId, Sent(s))
    requires y in captured && Sent(s) < y.id && s.lastEventId <= Sent(s)
    ensures Stretch(s.channel + [y], captured, s.lastEventId, y.id)
  {
  }

  lemma ForwardInStep(s: Session, captured: seq<Item>, open: set<int>, u: Option<Item>)
    requires InStep(s, captured, open, u) && s.pump.Live? && s.bus != []
    ensures InStep(Forwarded(s), captured, open, u)
  {
    var t, y := Forwarded(s), s.bus[0];
    HeadAndRest(s.bus);
    SentAtLeast(s, captured, open, u);
    if y.id > s.pump.last {
      ChannelGrows(s, captured, y);
      assert Sent(t) == y.id == Bound(t);
      forall x | x in captured && x.id in open && x.id <= y.id ensures OnTheWay(t, x) {
        if x.id > s.pump.last {
          assert x in s.bus || u == Some(x);
          assert x == y;
        } else {
          assert OnTheWay(s, x);
        }
      }
    }
  }

  lemma DisconnectInStep(s: Session, captured: seq<Item>, open: set<int>, u: Option<Item>)
    requires InStep(s, captured, open, u)
    ensures InStep(Disconnected(s), captured, open, None)
    ensures InStep(Disconnected(s), captured, open, u)
  {
    SentAtLeast(s, captured, open, u);
  }

  lemma ReceiveInStep(s: Session, captured: seq<Item>, open: set<int>, u: Option<Item>)
    requires InStep(s, captured, open, u) && s.channel != []
    ensures InStep(Received(s), captured, open, u)
  {
    var t := Received(s);
    HeadAndRest(s.channel);
    assert Sent(t) == Sent(s) && Bound(t) == Bound(s);
    assert forall x :: OnTheWay(s, x) ==> OnTheWay(t, x);
  }

  lemma GarbleInStep(s: Session, captured: seq<Item>, open: set<int>, u: Option<Item>)
    requires InStep(s, captured, open, u) && s.channel != []
    ensures InStep(ReceivedGarbled(s), captured, open - {s.channel[0].id}, u)
  {
    var t := ReceivedGarbled(s);
    HeadAndRest(s.channel);
    assert Sent(t) == Sent(s) && Bound(t) == Bound(s);
    assert forall x :: OnTheWay(s, x) && x != s.channel[0] ==> OnTheWay(t, x);
  }

  /**
   * The head of the transaction queue is finished, one way or the other; when
   * that happens every lower open id has been dealt with.
   */
  lemma HeadDoneInStep(s: Session, captured: seq<Item>, open: set<int>, u: Option<Item>)
    requires InStep(s, captured, open, u) && s.txq != []
    ensures InStep(s.(txq := s.txq[1..]), captured, open - {s.txq[0].id}, u)
    ensures forall x :: x in captured && x.id in open ==> x.id >= s.txq[0].id
    ensures s.txq[0] in captured && s.txq[0].id > 0
  {
    var t, y := s.(txq := s.txq[1..]), s.txq[0];
    HeadAndRest(s.txq);
    SentAtLeast(s, captured, open, u);
    assert forall x :: OnTheWay(s, x) && x != y ==> OnTheWay(t, x);
    assert forall x :: OnTheWay(s, x) ==> x.id >= y.id;
  }

  lemma UnmountInStep(s: Session, captured: seq<Item>, open: set<int>, u: Option<Item>)
    requires InStep(s, captured, open, u)
    ensures InStep(Unmounted(s), captured, open, u)
  {
    SentAtLeast(s, captured, open, u);
  }

  /** A new row is above everything the page knows. */
  lemma CaptureInStep(s: Session, captured: seq<Item>, open: set<int>, x: Item)
    requires InStep(s, captured, open, None) && x.id > LastId(captured, 0)
    requires forall y :: y in captured ==> y.id <= LastId(captured, 0)
    ensures InStep(s, captured + [x], open + {x.id}, Some(x))
  {
  }

  function Notified(s: Session, x: Item): Session {
    if s.pump.Closed? then s else s.(bus := s.bus + [x])
  }

  lemma PublishInStep(s: Session, captured: seq<Item>, open: set<int>, x: Item)
    requires InStep(s, captured, open, Some(x)) && x in captured && 0 < x.id <= LastId(captured, 0)
    ensures InStep(Notified(s, x), captured, open, None)
  {
  }
}
