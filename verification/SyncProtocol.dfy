// The whole synchronisation protocol: the daemon's capture runner and row table,
// any number of open pages with their stream tasks, acks in flight, and the
// shared database on the device. A run is any sequence of actions; an action
// that is not possible in the current state does nothing. Acks may be lost,
// delayed, repeated and reordered, streams may break anywhere, transactions may
// abort, pages may disappear, and the daemon may restart or purge rows.
module SyncProtocol {
  import opened Text
  import opened Calendar
  import opened DnsStore
  import opened DnsHistory
  import Hook = SyncHook
  import opened EventPump

  /**
   * `captured` is every row ever stored, `rows` the ones the daemon still has,
   * `unpublished` a row stored but not yet announced on the bus. `accepted`,
   * `failed` and `purged` record what became of captured events: counted into
   * the database, given up by an aborted transaction or unreadable message, or
   * deleted by the daemon's own caps.
   */
  datatype State = State(
    captured: seq<Item>, rows: seq<Item>, unpublished: Option<Item>,
    sessions: map<nat, Session>, acks: set<int>, db: Store, today: Day,
    accepted: seq<Item>, failed: set<int>, purged: set<int>)

  const INIT: State := State([], [], None, map[], {}, EMPTY, 0, [], {}, {})

  datatype Action =
    | Capture(item: Item)
    | Publish
    | Restart
    | Purge(ids: set<int>)
    | AckArrives(id: int)
    | OpenPage(k: nat)
    | Connect(k: nat)
    | Fetch(k: nat)
    | Send(k: nat)
    | Forward(k: nat)
    | Disconnect(k: nat)
    | Receive(k: nat)
    | Garble(k: nat)
    | TxCommits(k: nat)
    | TxAborts(k: nat)
    | Resolve(k: nat)
    | TimerFires(k: nat)
    | Unmount(k: nat)
    | ClosePage(k: nat)
    | PruneEvents
    | PruneDaily
    | Tick(day: Day)

  function Ids(items: seq<Item>): set<int> { set x | x in items :: x.id }

  /** `DELETE ... WHERE id IN ids`. */
  function Without(rows: seq<Item>, ids: set<int>): (r: seq<Item>)
    ensures forall x :: x in r <==> x in rows && x.id !in ids
  {
    if rows == [] then []
    else if rows[0].id in ids then Without(rows[1..], ids)
    else [rows[0]] + Without(rows[1..], ids)
  }

  /** The first day of the retained window. */
  function WindowStart(today: Day): Day {
    YearsDoNotDecrease(if today >= TREND_DAYS - 1 then today - (TREND_DAYS - 1) else 0, today);
    if today >= TREND_DAYS - 1 then today - (TREND_DAYS - 1) else 0
  }

  function Cutoff(today: Day): string { DateKey(WindowStart(today)) }

  function With(st: State, k: nat, s: Session): State { st.(sessions := st.sessions[k := s]) }

  // -------------------------------------------------------------------- one action

  function Do(st: State, a: Action): State {
    match a
    case Capture(x) =>
      if st.unpublished.None? && x.id > LastId(st.captured, 0)
      then st.(captured := st.captured + [x], rows := st.rows + [x], unpublished := Some(x))
      else st
    case Publish =>
      if st.unpublished.Some?
      then st.(unpublished := None,
               sessions := map k | k in st.sessions :: Notified(st.sessions[k], st.unpublished.value))
      else st
    case Restart =>
      st.(unpublished := None, sessions := map k | k in st.sessions :: Disconnected(st.sessions[k]))
    case Purge(ids) =>
      st.(rows := Without(st.rows, ids), purged := st.purged + ids * Ids(st.rows))
    case AckArrives(id) =>
      if id in st.acks then st.(rows := Above(st.rows, id)) else st
    case OpenPage(k) =>
      if k !in st.sessions then With(st, k, FRESH) else st
    case PruneEvents => st.(db := st.db.(events := TrimmedEvents(st.db.events)))
    case PruneDaily => st.(db := st.db.(daily := Kept(Cutoff(st.today), st.db.daily)))
    case Tick(day) => if day >= st.today then st.(today := day) else st
    case _ => if a.k in st.sessions then DoPage(st, a, st.sessions[a.k]) else st
  }

  predicate OfPage(a: Action) {
    !(a.Capture? || a.Publish? || a.Restart? || a.Purge? || a.AckArrives? || a.OpenPage?
      || a.PruneEvents? || a.PruneDaily? || a.Tick?)
  }

  function DoPage(st: State, a: Action, s: Session): State
    requires OfPage(a)
  {
    match a
    case Connect(k) => if s.mounted && s.pump.Closed? then With(st, k, Connected(s)) else st
    case Fetch(k) => if s.pump.Fetching? then With(st, k, Fetched(s, st.rows)) else st
    case Send(k) => if s.pump.Sending? && s.pump.batch != [] then With(st, k, SentOne(s)) else st
    case Forward(k) => if s.pump.Live? && s.bus != [] then With(st, k, Forwarded(s)) else st
    case Disconnect(k) => With(st, k, Disconnected(s))
    case Receive(k) => if s.channel != [] then With(st, k, Received(s)) else st
    case Garble(k) =>
      if s.channel != []
      then With(st, k, ReceivedGarbled(s)).(failed := st.failed + {s.channel[0].id})
      else st
    case TxCommits(k) => if s.txq != [] then Committed(st, k, s) else st
    case TxAborts(k) =>
      if s.txq != []
      then With(st, k, s.(txq := s.txq[1..])).(failed := st.failed + {s.txq[0].id})
      else st
    case Resolve(k) =>
      if s.resolved != []
      then With(st, k, s.(resolved := s.resolved[1..], ack := Hook.Noted(s.ack, s.resolved[0])))
           .(acks := st.acks + Hook.PostedByNoting(s.ack, s.resolved[0]))
      else st
    case TimerFires(k) =>
      if s.ack.timerArmed
      then With(st, k, s.(ack := Hook.Flushed(s.ack))).(acks := st.acks + Hook.Posted(s.ack))
      else st
    case Unmount(k) => With(st, k, Unmounted(s)).(acks := st.acks + Hook.Posted(s.ack))
    case ClosePage(k) => st.(sessions := st.sessions - {k})
  }

  /** The transaction at the head of the page's queue commits. */
  function Committed(st: State, k: nat, s: Session): State
    requires s.txq != []
  {
    var x := s.txq[0];
    With(st, k, s.(txq := s.txq[1..], resolved := s.resolved + [x.id]))
      .(db := Apply(st.db, x), accepted := if x.id > st.db.cursor then st.accepted + [x] else st.accepted)
  }

  function Exec(st: State, run: seq<Action>): State
    decreases |run|
  {
    if run == [] then st else Exec(Do(st, run[0]), run[1..])
  }

  // --------------------------------------------------------------------- invariant

  /** The captured ids nothing has become of yet. */
  function Open(st: State): set<int> {
    Ids(st.captured) - Ids(st.accepted) - st.failed - st.purged
  }

  /** The database the accepted events would leave without any pruning. */
  function Full(accepted: seq<Item>): Store {
    Store(accepted, Tally([], accepted), LastId(accepted, 0))
  }

  ghost predicate DaemonOk(st: State) {
    && IdOrdered(st.captured) && IdOrdered(st.rows)
    && (forall x :: x in st.captured ==> 0 < x.id <= LastId(st.captured, 0))
    && (forall x :: x in st.rows ==> x in st.captured)
    && (forall x :: x in st.captured && x.id > st.db.cursor && x.id !in st.purged ==> x in st.rows)
    && (st.unpublished.Some? ==> st.unpublished.value in st.captured)
  }

  ghost predicate DatabaseOk(st: State) {
    && Valid(st.db) && IdOrdered(st.accepted)
    && (forall x :: x in st.accepted ==> x in st.captured && 0 < x.id <= LastId(st.accepted, 0))
    && SameToReaders(Full(st.accepted), st.db, Cutoff(st.today))
  }

  /** Nothing the cursor has passed is still open, and no ack has been sent beyond it. */
  ghost predicate CursorOk(st: State) {
    && (forall id :: id in Open(st) ==> id > st.db.cursor)
    && (forall id :: id in st.acks ==> id <= st.db.cursor)
  }

  ghost predicate AcksBelow(s: Session, cursor: int) {
    && Hook.Settled(s.ack)
    && (s.ack.pendingAckId.Some? ==> s.ack.pendingAckId.value <= cursor)
    && (forall i :: 0 <= i < |s.resolved| ==> s.resolved[i] <= cursor)
  }

  ghost predicate PageOk(s: Session, st: State) {
    InStep(s, st.captured, Open(st), st.unpublished) && AcksBelow(s, st.db.cursor)
  }

  ghost predicate PagesOk(st: State) {
    forall k :: k in st.sessions ==> PageOk(st.sessions[k], st)
  }

  ghost predicate Inv(st: State) {
    DaemonOk(st) && DatabaseOk(st) && CursorOk(st) && PagesOk(st)
  }

  // ------------------------------------------------- every action keeps the invariant

  lemma InitHolds()
    ensures Inv(INIT)
  {
  }

  lemma RowsAreOk(st: State)
    requires Inv(st)
    ensures RowsOk(st.rows, st.captured, Open(st))
  {
  }

  // What each part of the invariant depends on.

  lemma DaemonFrame(st: State, st': State)
    requires DaemonOk(st) && st'.captured == st.captured && st'.rows == st.rows && st'.purged == st.purged
    requires st'.db.cursor == st.db.cursor && (st'.unpublished == st.unpublished || st'.unpublished.None?)
    ensures DaemonOk(st')
  {
    hide IdOrdered;
  }

  lemma DatabaseFrame(st: State, st': State)
    requires DatabaseOk(st) && st'.captured == st.captured && st'.accepted == st.accepted
    requires st'.db == st.db && st'.today == st.today
    ensures DatabaseOk(st')
  {
    hide IdOrdered, SameToReaders, Valid;
  }

  lemma PagesFrame(st: State, st': State)
    requires PagesOk(st) && st'.sessions == st.sessions && st'.captured == st.captured
    requires st'.unpublished == st.unpublished && st'.db.cursor == st.db.cursor && Open(st') == Open(st)
    ensures PagesOk(st')
  {
    hide InStep, AcksBelow, Open;
  }

  /** Pages and acks play no part in the daemon's and the database's invariants. */
  lemma SharedSame(st: State, st': State)
    requires Inv(st) && st'.captured == st.captured && st'.rows == st.rows && st'.db == st.db
    requires st'.today == st.today && st'.accepted == st.accepted
    requires st'.failed == st.failed && st'.purged == st.purged
    requires st'.unpublished == st.unpublished || st'.unpublished.None?
    ensures DaemonOk(st') && DatabaseOk(st') && Open(st') == Open(st)
    ensures st'.acks == st.acks ==> CursorOk(st')
  {
    hide DaemonOk, DatabaseOk, PagesOk, Ids;
    DaemonFrame(st, st');
    DatabaseFrame(st, st');
  }

  /** A step of one page that posts acks the database has passed, or none. */
  lemma AckStep(st: State, k: nat, s: Session, posted: set<int>)
    requires Inv(st) && PageOk(s, st) && forall id :: id in posted ==> id <= st.db.cursor
    ensures Inv(With(st, k, s).(acks := st.acks + posted))
  {
    hide InStep, AcksBelow, DaemonOk, DatabaseOk, Open;
    var st' := With(st, k, s).(acks := st.acks + posted);
    SharedSame(st, st');
  }

  /** A step of one page that touches nothing shared. */
  lemma PageStep(st: State, k: nat, s: Session)
    requires Inv(st) && PageOk(s, st)
    ensures Inv(With(st, k, s))
  {
    hide Inv, PageOk;
    AckStep(st, k, s, {});
    assert With(st, k, s).(acks := st.acks + {}) == With(st, k, s);
  }

  lemma FailShared(st: State, st': State, id: int)
    requires Inv(st) && st' == st.(sessions := st'.sessions, failed := st.failed + {id})
    ensures DaemonOk(st') && DatabaseOk(st') && CursorOk(st') && Open(st') == Open(st) - {id}
  {
    hide DaemonOk, DatabaseOk, PagesOk, Ids;
    DaemonFrame(st, st');
    DatabaseFrame(st, st');
    assert Open(st') == Open(st) - {id};
  }

  /** A page step that gives up one delivery. */
  lemma FailStep(st: State, k: nat, s: Session, id: int)
    requires Inv(st) && AcksBelow(s, st.db.cursor)
    requires InStep(s, st.captured, Open(st) - {id}, st.unpublished)
    ensures Inv(With(st, k, s).(failed := st.failed + {id}))
  {
    hide InStep, AcksBelow, DaemonOk, DatabaseOk, CursorOk, Open;
    var st' := With(st, k, s).(failed := st.failed + {id});
    FailShared(st, st', id);
    forall j | j in st'.sessions ensures PageOk(st'.sessions[j], st') {
      if j != k { FewerOpen(st.sessions[j], st.captured, Open(st), Open(st'), st.unpublished); }
    }
  }

  lemma IdsSnoc(items: seq<Item>, x: Item)
    ensures Ids(items + [x]) == Ids(items) + {x.id}
  {
  }

  lemma FullSnoc(accepted: seq<Item>, x: Item)
    requires Valid(Full(accepted)) && x.id > LastId(accepted, 0)
    ensures Apply(Full(accepted), x) == Full(accepted + [x])
  {
    ApplyKeepsValid(Full(accepted), x);
    TallySnoc([], accepted, x);
  }

  lemma FullValid(accepted: seq<Item>)
    requires IdOrdered(accepted) && forall x :: x in accepted ==> x.id <= LastId(accepted, 0)
    ensures Valid(Full(accepted))
  {
    TallyOrdered([], accepted);
  }

  lemma CommitDatabase(st: State, x: Item)
    requires DatabaseOk(st) && x in st.captured && x.id > 0
    ensures var acc := if x.id > st.db.cursor then st.accepted + [x] else st.accepted;
            DatabaseOk(st.(db := Apply(st.db, x), accepted := acc))
  {
    hide Kept, NewestOf, Cutoff, Tally, Counted, PutEvent, KeyOrdered;
    FullValid(st.accepted);
    ApplyKeepsValid(st.db, x);
    CommitStep(Full(st.accepted), st.db, Cutoff(st.today), x);
    if x.id > st.db.cursor { FullSnoc(st.accepted, x); }
  }

  /** The committed id is no longer open; nothing else changes. */
  lemma CommitOpen(st: State, k: nat)
    requires Inv(st) && k in st.sessions && st.sessions[k].txq != []
    ensures Open(Committed(st, k, st.sessions[k])) == Open(st) - {st.sessions[k].txq[0].id}
  {
    hide PagesOk, DaemonOk, DatabaseOk, Ids;
    var s := st.sessions[k];
    var x, st' := s.txq[0], Committed(st, k, s);
    IdsSnoc(st.accepted, x);
    assert x.id <= st.db.cursor ==> x.id !in Open(st);
    assert Open(st') == Open(st) - {x.id};
  }

  lemma CommitCursor(st: State, k: nat)
    requires Inv(st) && k in st.sessions && st.sessions[k].txq != []
    ensures CursorOk(Committed(st, k, st.sessions[k]))
  {
    hide InStep, SameToReaders, Valid, IdOrdered, AcksBelow, DaemonOk, DatabaseOk;
    var s := st.sessions[k];
    var st' := Committed(st, k, s);
    CommitOpen(st, k);
    HeadDoneInStep(s, st.captured, Open(st), st.unpublished);
    forall id | id in Open(st') ensures id > st'.db.cursor {
      var y :| y in st.captured && y.id == id;
    }
  }

  lemma CommitPages(st: State, k: nat, j: nat)
    requires Inv(st) && k in st.sessions && st.sessions[k].txq != [] && j in st.sessions
    ensures var st' := Committed(st, k, st.sessions[k]); PageOk(st'.sessions[j], st')
  {
    hide SameToReaders, Valid, IdOrdered, Open, DaemonOk, DatabaseOk, InStep;
    var s, st' := st.sessions[k], Committed(st, k, st.sessions[k]);
    CommitOpen(st, k);
    if j != k {
      FewerOpen(st.sessions[j], st.captured, Open(st), Open(st'), st.unpublished);
    } else {
      HeadDoneInStep(s, st.captured, Open(st), st.unpublished);
      QueuesDecide(s.(txq := s.txq[1..]), st'.sessions[k], st.captured, Open(st'), st.unpublished);
    }
  }

  lemma CommitKeepsInv(st: State, k: nat)
    requires Inv(st) && k in st.sessions && st.sessions[k].txq != []
    ensures Inv(Committed(st, k, st.sessions[k]))
  {
    hide InStep, SameToReaders, Valid, IdOrdered, Open, PageOk, DatabaseOk, CursorOk;
    var s := st.sessions[k];
    var x, st' := s.txq[0], Committed(st, k, s);
    assert PageOk(s, st);
    CommitCursor(st, k);
    CommitOpen(st, k);
    QueuedIsCaptured(st, k);
    CommitDatabase(st, x);
    DatabaseFrame(st.(db := st'.db, accepted := st'.accepted), st');
    forall j | j in st'.sessions ensures PageOk(st'.sessions[j], st') { CommitPages(st, k, j); }
  }

  lemma QueuedIsCaptured(st: State, k: nat)
    requires Inv(st) && k in st.sessions && st.sessions[k].txq != []
    ensures st.sessions[k].txq[0] in st.captured && st.sessions[k].txq[0].id > 0
  {
    hide SameToReaders, Valid, Open, AcksBelow, DaemonOk, DatabaseOk;
    HeadDoneInStep(st.sessions[k], st.captured, Open(st), st.unpublished);
  }

  /** The resolved queue and the ack state play no part in `InStep`. */
  lemma QueuesDecide(s: Session, t: Session, captured: seq<Item>, open: set<int>, u: Option<Item>)
    requires InStep(s, captured, open, u)
    requires t == s.(resolved := t.resolved, ack := t.ack, mounted := t.mounted)
    ensures InStep(t, captured, open, u)
  {
    assert Sent(t) == Sent(s) && Bound(t) == Bound(s);
    assert forall x :: OnTheWay(s, x) ==> OnTheWay(t, x);
  }

  lemma ClosePageKeepsInv(st: State, k: nat)
    requires Inv(st)
    ensures Inv(st.(sessions := st.sessions - {k}))
  {
    hide InStep, AcksBelow, DaemonOk, DatabaseOk, Open;
    SharedSame(st, st.(sessions := st.sessions - {k}));
  }

  lemma PageActionKeepsInv(st: State, a: Action)
    requires Inv(st) && OfPage(a) && a.k in st.sessions
    ensures Inv(DoPage(st, a, st.sessions[a.k]))
  {
    hide InStep, IdOrdered, Open, DaemonOk, DatabaseOk, CursorOk;
    var s := st.sessions[a.k];
    var c, o, u := st.captured, Open(st), st.unpublished;
    match a
    case Connect(k) => ConnectInStep(s, c, o, u); PageStep(st, k, if s.mounted && s.pump.Closed? then Connected(s) else s);
    case Fetch(k) =>
      if s.pump.Fetching? {
        RowsAreOk(st);
        FetchInStep(s, st.rows, c, o, u);
        PageStep(st, k, Fetched(s, st.rows));
      }
    case Send(k) => if s.pump.Sending? && s.pump.batch != [] { SendInStep(s, c, o, u); PageStep(st, k, SentOne(s)); }
    case Forward(k) => if s.pump.Live? && s.bus != [] { ForwardInStep(s, c, o, u); PageStep(st, k, Forwarded(s)); }
    case Disconnect(k) => DisconnectInStep(s, c, o, u); PageStep(st, k, Disconnected(s));
    case Receive(k) => if s.channel != [] { ReceiveInStep(s, c, o, u); PageStep(st, k, Received(s)); }
    case Garble(k) =>
      if s.channel != [] { GarbleInStep(s, c, o, u); FailStep(st, k, ReceivedGarbled(s), s.channel[0].id); }
    case TxCommits(k) => if s.txq != [] { CommitKeepsInv(st, k); }
    case TxAborts(k) =>
      if s.txq != [] { HeadDoneInStep(s, c, o, u); FailStep(st, k, s.(txq := s.txq[1..]), s.txq[0].id); }
    case Resolve(k) =>
      if s.resolved != [] {
        var t := s.(resolved := s.resolved[1..], ack := Hook.Noted(s.ack, s.resolved[0]));
        QueuesDecide(s, t, c, o, u);
        AckStep(st, k, t, Hook.PostedByNoting(s.ack, s.resolved[0]));
      }
    case TimerFires(k) =>
      var t := s.(ack := Hook.Flushed(s.ack));
      QueuesDecide(s, t, c, o, u);
      AckStep(st, k, t, Hook.Posted(s.ack));
    case Unmount(k) => UnmountInStep(s, c, o, u); AckStep(st, k, Unmounted(s), Hook.Posted(s.ack));
    case ClosePage(k) => ClosePageKeepsInv(st, k);
  }

  lemma OrderedSnoc(items: seq<Item>, x: Item)
    requires IdOrdered(items) && forall y :: y in items ==> y.id < x.id
    ensures IdOrdered(items + [x])
  {
  }

  lemma CapturePages(st: State, st': State, x: Item)
    requires PagesOk(st) && st.unpublished.None? && x.id > LastId(st.captured, 0)
    requires forall y :: y in st.captured ==> y.id <= LastId(st.captured, 0)
    requires st' == st.(captured := st.captured + [x], rows := st'.rows, unpublished := Some(x))
    requires Open(st') <= Open(st) + {x.id}
    ensures PagesOk(st')
  {
    hide InStep, AcksBelow, Open;
    forall k | k in st'.sessions ensures PageOk(st'.sessions[k], st') {
      var s := st.sessions[k];
      CaptureInStep(s, st.captured, Open(st), x);
      FewerOpen(s, st'.captured, Open(st) + {x.id}, Open(st'), Some(x));
    }
  }

  lemma CursorBelowCaptured(st: State)
    requires DaemonOk(st) && DatabaseOk(st)
    ensures 0 <= st.db.cursor <= LastId(st.captured, 0)
  {
    hide Kept, NewestOf, Valid, IdOrdered;
    assert st.accepted != [] ==> st.accepted[|st.accepted| - 1] in st.accepted;
    assert st.captured != [] ==> st.captured[|st.captured| - 1] in st.captured;
  }

  lemma CaptureOpen(st: State, st': State, x: Item)
    requires Inv(st) && x.id > LastId(st.captured, 0)
    requires st' == st.(captured := st.captured + [x], rows := st'.rows, unpublished := st'.unpublished)
    ensures CursorOk(st') && Open(st') <= Open(st) + {x.id} && st.db.cursor < x.id
  {
    hide PagesOk, DaemonOk, DatabaseOk, Ids;
    IdsSnoc(st.captured, x);
    assert Open(st') <= Open(st) + {x.id};
    CursorBelowCaptured(st);
  }

  lemma LastOfSnoc(items: seq<Item>, x: Item)
    ensures LastId(items + [x], 0) == x.id
    ensures forall y :: y in items + [x] <==> y in items || y == x
  {
  }

  lemma CaptureDaemon(st: State, st': State, x: Item)
    requires DaemonOk(st) && 0 <= LastId(st.captured, 0) < x.id
    requires st' == st.(captured := st.captured + [x], rows := st.rows + [x], unpublished := Some(x))
    ensures DaemonOk(st')
  {
    hide IdOrdered, LastId;
    OrderedSnoc(st.captured, x);
    OrderedSnoc(st.rows, x);
    LastOfSnoc(st.captured, x);
    LastOfSnoc(st.rows, x);
  }

  lemma CaptureShared(st: State, st': State, x: Item)
    requires DaemonOk(st) && DatabaseOk(st) && x.id > LastId(st.captured, 0)
    requires st' == st.(captured := st.captured + [x], rows := st.rows + [x], unpublished := Some(x))
    ensures DaemonOk(st') && DatabaseOk(st')
  {
    hide SameToReaders, Valid, IdOrdered, DaemonOk, LastId, Full, Cutoff;
    CursorBelowCaptured(st);
    CaptureDaemon(st, st', x);
    LastOfSnoc(st.captured, x);
  }

  lemma CaptureKeepsInv(st: State, x: Item)
    requires Inv(st) && st.unpublished.None? && x.id > LastId(st.captured, 0)
    ensures Inv(Do(st, Capture(x)))
  {
    hide PagesOk, DatabaseOk, CursorOk, Open, IdOrdered;
    var st' := Do(st, Capture(x));
    assert st' == st.(captured := st.captured + [x], rows := st.rows + [x], unpublished := Some(x));
    CaptureShared(st, st', x);
    CaptureOpen(st, st', x);
    CapturePages(st, st', x);
  }

  lemma {:induction false} WithoutOrdered(rows: seq<Item>, ids: set<int>)
    requires IdOrdered(rows)
    ensures IdOrdered(Without(rows, ids))
  {
    if rows != [] {
      WithoutOrdered(rows[1..], ids);
      var r := Without(rows[1..], ids);
      forall j | 0 <= j < |r| ensures rows[0].id < r[j].id { assert r[j] in rows[1..]; }
    }
  }

  lemma FewerOpenPages(st: State, st': State)
    requires PagesOk(st) && Open(st') <= Open(st)
    requires st' == st.(rows := st'.rows, purged := st'.purged)
    ensures PagesOk(st')
  {
    hide InStep, AcksBelow, Open;
    forall k | k in st'.sessions ensures PageOk(st'.sessions[k], st') {
      FewerOpen(st.sessions[k], st.captured, Open(st), Open(st'), st.unpublished);
    }
  }

  lemma {:induction false} PurgeShared(st: State, st': State, ids: set<int>)
    requires Inv(st) && st' == st.(rows := Without(st.rows, ids), purged := st.purged + ids * Ids(st.rows))
    ensures DaemonOk(st') && DatabaseOk(st')
  {
    hide PagesOk, CursorOk, DatabaseOk, IdOrdered, Without;
    DatabaseFrame(st, st');
    WithoutOrdered(st.rows, ids);
  }

  lemma PurgeKeepsInv(st: State, ids: set<int>)
    requires Inv(st)
    ensures Inv(Do(st, Purge(ids)))
  {
    hide PagesOk, DaemonOk, DatabaseOk, Ids;
    var st' := Do(st, Purge(ids));
    PurgeShared(st, st', ids);
    assert Open(st') <= Open(st);
    FewerOpenPages(st, st');
  }

  lemma PublishPages(st: State, st': State)
    requires PagesOk(st) && DaemonOk(st) && st.unpublished.Some? && Open(st') == Open(st) && st' == Do(st, Publish)
    ensures PagesOk(st')
  {
    hide InStep, Open, IdOrdered;
    forall k | k in st'.sessions ensures PageOk(st'.sessions[k], st') {
      PublishInStep(st.sessions[k], st.captured, Open(st), st.unpublished.value);
    }
  }

  lemma PublishKeepsInv(st: State)
    requires Inv(st) && st.unpublished.Some?
    ensures Inv(Do(st, Publish))
  {
    hide DaemonOk, DatabaseOk, CursorOk, PagesOk, Open;
    SharedSame(st, Do(st, Publish));
    PublishPages(st, Do(st, Publish));
  }

  lemma RestartPages(st: State, st': State)
    requires PagesOk(st) && Open(st') == Open(st) && st' == Do(st, Restart)
    ensures PagesOk(st')
  {
    hide InStep, Open, IdOrdered;
    forall k | k in st'.sessions ensures PageOk(st'.sessions[k], st') {
      DisconnectInStep(st.sessions[k], st.captured, Open(st), st.unpublished);
    }
  }

  lemma RestartKeepsInv(st: State)
    requires Inv(st)
    ensures Inv(Do(st, Restart))
  {
    hide DaemonOk, DatabaseOk, CursorOk, PagesOk, Open;
    SharedSame(st, Do(st, Restart));
    RestartPages(st, Do(st, Restart));
  }

  lemma CutoffsAscend(t1: Day, t2: Day)
    requires t1 <= t2
    ensures AtMost(Cutoff(t1), Cutoff(t2))
  {
    if WindowStart(t1) < WindowStart(t2) { KeysInOrder(WindowStart(t1), WindowStart(t2)); }
  }

  lemma LaterWindow(full: Store, db: Store, f1: string, f2: string)
    requires SameToReaders(full, db, f1) && AtMost(f1, f2)
    ensures SameToReaders(full, db, f2)
  {
    KeptTwice(f1, f2, full.daily);
    KeptTwice(f1, f2, db.daily);
  }


  /** Actions on the database alone. */
  lemma DatabaseOnly(st: State, st': State)
    requires Inv(st) && st' == st.(db := st'.db, today := st'.today) && st'.db.cursor == st.db.cursor
    requires DatabaseOk(st')
    ensures Inv(st')
  {
    hide DaemonOk, DatabaseOk, PagesOk, Ids;
    DaemonFrame(st, st');
    assert Open(st') == Open(st);
    PagesFrame(st, st');
  }

  /** Pruning and the passing of days leave the database in order for its readers. */
  lemma TrimDatabase(st: State, a: Action)
    requires DatabaseOk(st) && (a.PruneEvents? || a.PruneDaily? || a.Tick?)
    ensures DatabaseOk(Do(st, a))
  {
    hide Kept, TrimmedEvents, Cutoff, Full, Valid, SameToReaders, IdOrdered;
    var full := Full(st.accepted);
    assert Valid(full) by { FullValid(st.accepted); }
    match a
    case PruneEvents => PruningStep(full, st.db, Cutoff(st.today), TrimEvents);
    case PruneDaily => PruningStep(full, st.db, Cutoff(st.today), TrimDaily(Cutoff(st.today)));
    case Tick(day) =>
      if day >= st.today {
        CutoffsAscend(st.today, day);
        LaterWindow(full, st.db, Cutoff(st.today), Cutoff(day));
      }
  }

  lemma TrimFrame(st: State, a: Action)
    requires a.PruneEvents? || a.PruneDaily? || a.Tick?
    ensures var st' := Do(st, a);
            st' == st.(db := st'.db, today := st'.today) && st'.db.cursor == st.db.cursor
  {
    hide Kept, TrimmedEvents, Cutoff;
  }

  lemma TrimKeepsInv(st: State, a: Action)
    requires Inv(st) && (a.PruneEvents? || a.PruneDaily? || a.Tick?)
    ensures Inv(Do(st, a))
  {
    hide Do, DaemonOk, DatabaseOk, CursorOk, PagesOk;
    TrimDatabase(st, a);
    TrimFrame(st, a);
    DatabaseOnly(st, Do(st, a));
  }

  lemma AckKeepsInv(st: State, id: int)
    requires Inv(st)
    ensures Inv(Do(st, AckArrives(id)))
  {
    hide DatabaseOk, PagesOk, IdOrdered, Ids;
    var st' := Do(st, AckArrives(id));
    AboveOrdered(st.rows, id);
    DatabaseFrame(st, st');
    assert Open(st') == Open(st);
    PagesFrame(st, st');
  }

  lemma OpenPageKeepsInv(st: State, k: nat)
    requires Inv(st)
    ensures Inv(With(st, k, FRESH))
  {
    FreshInStep(st.captured, Open(st), st.unpublished);
    PageStep(st, k, FRESH);
  }

  lemma ActionKeepsInv(st: State, a: Action)
    requires Inv(st)
    ensures Inv(Do(st, a))
  {
    hide InStep, AcksBelow, Open, DaemonOk, DatabaseOk, CursorOk;
    if OfPage(a) {
      if a.k in st.sessions { PageActionKeepsInv(st, a); }
    } else {
      match a
      case Capture(x) =>
        if st.unpublished.None? && x.id > LastId(st.captured, 0) { CaptureKeepsInv(st, x); }
      case Publish => if st.unpublished.Some? { PublishKeepsInv(st); }
      case Restart => RestartKeepsInv(st);
      case Purge(ids) => PurgeKeepsInv(st, ids);
      case AckArrives(id) => AckKeepsInv(st, id);
      case OpenPage(k) =>
        if k !in st.sessions { OpenPageKeepsInv(st, k); }
      case _ => TrimKeepsInv(st, a);
    }
  }

  lemma {:induction false} RunKeepsInv(st: State, run: seq<Action>)
    requires Inv(st)
    ensures Inv(Exec(st, run))
    decreases |run|
  {
    if run != [] {
      ActionKeepsInv(st, run[0]);
      RunKeepsInv(Do(st, run[0]), run[1..]);
    }
  }
}
