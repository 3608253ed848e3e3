// What holds after every run of the synchronisation protocol.
module SyncTheorems {
  import opened Text
  import opened Calendar
  import opened DnsStore
  import opened DnsHistory
  import opened DnsReads
  import Hook = SyncHook
  import opened EventPump
  import opened SyncProtocol

  lemma {:induction false} ReachableInv(run: seq<Action>)
    ensures Inv(Exec(INIT, run))
  {
    hide Exec, Inv;
    InitHolds();
    RunKeepsInv(INIT, run);
  }

  // -------------------------------------------------------------- safety of all runs

  /**
   * Nothing is counted twice and nothing vanishes silently. An event the cursor
   * has not reached is uncounted and still stored by the daemon unless the
   * daemon purged it; an event it has passed was counted, unless its delivery
   * failed or the daemon purged it.
   */
  ghost predicate Accounted(st: State) {
    && IdOrdered(st.accepted)
    && (forall x :: x in st.accepted ==> x in st.captured && x.id <= st.db.cursor)
    && (forall x :: x in st.captured && x.id > st.db.cursor ==> x in st.rows || x.id in st.purged)
    && (forall x :: x in st.captured && x.id <= st.db.cursor ==>
          x in st.accepted || x.id in st.failed || x.id in st.purged)
  }

  lemma SameIdSameItem(items: seq<Item>, x: Item, y: Item)
    requires IdOrdered(items) && x in items && y in items && x.id == y.id
    ensures x == y
  {
  }

  lemma SettledIsAccounted(st: State, x: Item)
    requires Inv(st) && x in st.captured && x.id !in Open(st)
    ensures x in st.accepted || x.id in st.failed || x.id in st.purged
  {
    hide PagesOk, SameToReaders, Valid;
    assert x.id in Ids(st.captured);
    if x.id in Ids(st.accepted) {
      var y :| y in st.accepted && y.id == x.id;
      SameIdSameItem(st.captured, x, y);
    }
  }

  lemma InvAccounts(st: State)
    requires Inv(st)
    ensures Accounted(st)
  {
    hide PagesOk, Kept, NewestOf, Valid, Open;
    forall x | x in st.captured && x.id <= st.db.cursor
      ensures x in st.accepted || x.id in st.failed || x.id in st.purged
    {
      SettledIsAccounted(st, x);
    }
  }

  lemma {:induction false} EveryEventAccounted(run: seq<Action>)
    ensures Accounted(Exec(INIT, run))
  {
    hide Exec, Inv, Accounted;
    ReachableInv(run);
    InvAccounts(Exec(INIT, run));
  }

  /**
   * Every ack ever posted is at or below the persisted cursor, so the daemon
   * only deletes rows the database has passed; and on every page a pending ack
   * has its timer running and a batch that is not full.
   */
  ghost predicate AcksBehind(st: State) {
    && (forall id :: id in st.acks ==> id <= st.db.cursor)
    && (forall k :: k in st.sessions && st.sessions[k].ack.pendingAckId.Some? ==>
          && st.sessions[k].ack.pendingAckId.value <= st.db.cursor
          && st.sessions[k].ack.timerArmed && st.sessions[k].ack.pendingCount < Hook.ACK_BATCH_SIZE)
  }

  lemma {:induction false} AcksNeverAhead(run: seq<Action>)
    ensures AcksBehind(Exec(INIT, run))
  {
    hide Exec, InStep, DaemonOk, DatabaseOk;
    ReachableInv(run);
    var st := Exec(INIT, run);
    assert forall k :: k in st.sessions ==> PageOk(st.sessions[k], st);
  }

  /** The reads of one day and of the activity feed show each counted event once. */
  ghost predicate Shows(st: State, date: string, n: nat) {
    var rows := RowsForDate(st.db.daily, date);
    && rows == RowsForDate(Tally([], st.accepted), date)
    && SumBy(BLOCKED, rows) == CountShown(st.accepted, date, true)
    && SumBy(ALLOWED, rows) == CountShown(st.accepted, date, false)
    && Newest(st.db.events, n) == Newest(st.accepted, n)
  }

  lemma InvShows(st: State, date: string, n: nat)
    requires Inv(st) && AtMost(Cutoff(st.today), date) && n <= EVENTS_RING_CAP
    ensures Shows(st, date, n)
  {
    hide DaemonOk, CursorOk, PageOk, SameToReaders, Valid, IdOrdered, Cutoff, SumBy, CountShown, Newest, RowsForDate, Tally;
    SameReads(Full(st.accepted), st.db, Cutoff(st.today), date, n);
    HeadlineConserved(st.accepted, date);
  }

  /**
   * For every day of the window the page shows, the headline sums are the
   * numbers of counted events of that day, and the recent-activity list is the
   * newest counted events.
   */
  lemma {:induction false} PageShowsCounted(run: seq<Action>, day: Day, n: nat)
    requires Exec(INIT, run).today < day + 7 && n <= 500
    ensures Shows(Exec(INIT, run), DateKey(day), n)
  {
    hide Exec, Inv, Shows, DateKey;
    ReachableInv(run);
    var st := Exec(INIT, run);
    var start := WindowStart(st.today);
    if start < day { KeysInOrder(start, day); }
    assert Cutoff(st.today) == DateKey(start);
    InvShows(st, DateKey(day), n);
  }

  /** The clock can reach any later day, changes nothing else and never goes back. */
  lemma ClockReachesDay(st: State, day: Day)
    ensures Do(st, Tick(day)) == st.(today := if day >= st.today then day else st.today)
  {
  }

  /** The pruner cuts at the oldest of the dates the trend reads. */
  lemma {:induction false} CutoffIsOldestTrendDate(today: Day)
    requires today >= TREND_DAYS - 1
    ensures Cutoff(today) == Listed(DateKey, today + 1 - TREND_DAYS, TREND_DAYS)[0]
  {
    hide DateKey, Listed;
  }

  /** After any run, every date of the seven-day trend shows all its counted events. */
  lemma {:induction false} TrendShowsCounted(run: seq<Action>, i: nat, n: nat)
    requires Exec(INIT, run).today >= 6 && i < 7 && n <= 500
    ensures Shows(Exec(INIT, run), Listed(DateKey, Exec(INIT, run).today - 6, 7)[i], n)
  {
    hide Exec, Shows, DateKey, Listed, CivilOfDay;
    var today := Exec(INIT, run).today;
    YearsDoNotDecrease(today - 6 + i, today);
    PageShowsCounted(run, today - 6 + i, n);
  }

  /** Pruning does its work: no row from before the trend remains, and the ring is within its capacity. */
  lemma PruningRemoves(st: State)
    requires st.today >= 6
    ensures forall r :: r in Do(st, PruneDaily).db.daily
              <==> r in st.db.daily && !Less(r.date, Listed(DateKey, st.today - 6, 7)[0])
    ensures |Do(st, PruneEvents).db.events| == if |st.db.events| < 500 then |st.db.events| else 500
  {
    hide Do, Cutoff, DateKey, Listed, Kept, Less, TrimmedEvents;
    PrunedStores(st);
    CutoffIsOldestTrendDate(st.today);
    RingBounded(st.db.events);
    KeptExactly(Cutoff(st.today), st.db.daily);
  }

  lemma PrunedStores(st: State)
    ensures Do(st, PruneDaily).db.daily == Kept(Cutoff(st.today), st.db.daily)
    ensures Do(st, PruneEvents).db.events == TrimmedEvents(st.db.events)
  {
    hide Cutoff, Kept, TrimmedEvents;
  }

  // ------------------------------------------------- an applied event is acknowledged

  /** The oldest finished write is acknowledged once its continuation has run and the timer fires or the page goes. */
  lemma AppliedIsAcknowledged(st: State, k: nat)
    requires k in st.sessions && st.sessions[k].resolved != []
    ensures var id := st.sessions[k].resolved[0];
            && id in Do(Do(st, Resolve(k)), TimerFires(k)).acks
            && id in Do(Do(st, Resolve(k)), Unmount(k)).acks
  {
    hide Hook.Noted, Hook.Posted, Hook.PostedByNoting, Hook.Flushed;
    var s, st1 := st.sessions[k], Do(st, Resolve(k));
    Hook.AppliedIsPostedNext(s.ack, s.resolved[0]);
    PendingHasTimer(s.ack, s.resolved[0]);
    assert st1.sessions[k].ack == Hook.Noted(s.ack, s.resolved[0]);
  }

  lemma PendingHasTimer(a: Hook.AckState, id: int)
    ensures Hook.Posted(Hook.Noted(a, id)) != {} ==> Hook.Noted(a, id).timerArmed
  {
  }

  /** A page that goes posts its pending ack once and keeps neither id, count nor timer. */
  lemma UnmountSettles(st: State, k: nat)
    requires k in st.sessions && Hook.Settled(st.sessions[k].ack)
    ensures var st' := Do(st, Unmount(k));
            && st'.acks == st.acks + Hook.Posted(st.sessions[k].ack)
            && !st'.sessions[k].mounted && st'.sessions[k].ack == Hook.AckState(None, 0, false)
            && Do(st', TimerFires(k)) == st' && Do(st', Connect(k)) == st'
  {
  }

  /** An ack that arrives deletes exactly the rows up to its id. */
  lemma AckDeletesRows(st: State, id: int, x: Item)
    requires id in st.acks
    ensures x in Do(st, AckArrives(id)).rows <==> x in st.rows && x.id > id
  {
  }

  /** The page's task is live and nothing is on its way to the database. */
  predicate Quiet(st: State, k: nat) {
    && k in st.sessions && st.unpublished.None?
    && var s := st.sessions[k];
       s.pump.Live? && s.bus == [] && s.channel == [] && s.txq == []
  }

  /** Once a connected page has gone quiet, every captured event has been counted, failed or purged. */
  lemma {:induction false} QuietPageHasEverything(run: seq<Action>, k: nat, x: Item)
    requires Quiet(Exec(INIT, run), k) && x in Exec(INIT, run).captured
    ensures var st := Exec(INIT, run); x in st.accepted || x.id in st.failed || x.id in st.purged
  {
    hide Exec, DatabaseOk, CursorOk, AcksBelow;
    ReachableInv(run);
    var st := Exec(INIT, run);
    assert PageOk(st.sessions[k], st);
    assert x.id !in Open(st);
    SettledIsAccounted(st, x);
  }

  // ---------------------------------------------------- losing and recovering an event

  /** `x` was captured, the cursor has passed it, and it was not counted. */
  ghost predicate Lost(st: State, x: Item) {
    x in st.captured && x.id <= st.db.cursor && x !in st.accepted
  }

  lemma ActionMonotone(st: State, a: Action)
    ensures Do(st, a).db.cursor >= st.db.cursor
    ensures forall x :: x in st.captured ==> x in Do(st, a).captured
    ensures forall x :: x in Do(st, a).accepted ==> x in st.accepted || x.id > st.db.cursor
  {
    hide Do;
    AcceptedAfter(st, a);
    CapturedGrows(st, a);
  }

  /** Once lost, always lost. */
  lemma {:induction false} LossIsPermanent(st: State, more: seq<Action>, x: Item)
    requires Lost(st, x)
    ensures Lost(Exec(st, more), x)
    decreases |more|
  {
    hide Do;
    if more != [] {
      ActionMonotone(st, more[0]);
      LossIsPermanent(Do(st, more[0]), more[1..], x);
    }
  }

  lemma {:induction false} ExecAppend(st: State, a: seq<Action>, b: seq<Action>)
    ensures Exec(st, a + b) == Exec(Exec(st, a), b)
    decreases |a|
  {
    hide Do;
    if a == [] {
      assert a + b == b;
    } else {
      assert (a + b)[1..] == a[1..] + b;
      ExecAppend(Do(st, a[0]), a[1..], b);
    }
  }

  // ------------------------------------------------- exactly once, and exactly when

  /** The action finishes the write at the head of a page's queue. */
  predicate Finishes(st: State, a: Action) { a.TxCommits? && a.k in st.sessions && st.sessions[a.k].txq != [] }

  /** The next write to commit on a page would pass over a captured event the cursor has not reached. */
  ghost predicate Overtakes(st: State, a: Action) {
    Finishes(st, a) && exists x :: x in st.captured && st.db.cursor < x.id < st.sessions[a.k].txq[0].id
  }

  ghost predicate NoOvertaking(st: State, run: seq<Action>)
    decreases |run|
  {
    run == [] || (!Overtakes(st, run[0]) && NoOvertaking(Do(st, run[0]), run[1..]))
  }

  /** The counted events are exactly the captured ones up to the cursor. */
  ghost predicate Complete(st: State) {
    forall x :: x in st.accepted <==> x in st.captured && x.id <= st.db.cursor
  }

  /** Only a commit above the cursor counts an event, and it moves the cursor there. */
  lemma AcceptedAfter(st: State, a: Action)
    ensures if Finishes(st, a) && st.sessions[a.k].txq[0].id > st.db.cursor
            then Do(st, a).accepted == st.accepted + [st.sessions[a.k].txq[0]]
                 && Do(st, a).db.cursor == st.sessions[a.k].txq[0].id
            else Do(st, a).accepted == st.accepted && Do(st, a).db.cursor == st.db.cursor
  {
    hide Kept, TrimmedEvents, Cutoff, PutEvent, Counted, Above, Without;
  }

  lemma CapturedGrows(st: State, a: Action)
    ensures Do(st, a).captured == st.captured
         || (a.Capture? && a.item.id > LastId(st.captured, 0) && Do(st, a).captured == st.captured + [a.item])
  {
    hide Kept, TrimmedEvents, Cutoff, Above, Without, Apply, FetchPending, LastId;
  }

  /** A new capture lies above the cursor. */
  lemma CapturedAfter(st: State, a: Action)
    requires Inv(st)
    ensures forall x :: x in Do(st, a).captured ==> x in st.captured || x.id > st.db.cursor
    ensures !a.Capture? ==> Do(st, a).captured == st.captured
  {
    hide Do, DaemonOk, DatabaseOk, CursorOk, PagesOk, LastId;
    CapturedGrows(st, a);
    CursorBelowCaptured(st);
  }

  /** An action keeps the count complete exactly when it does not overtake. */
  lemma CompleteStep(st: State, a: Action)
    requires Inv(st) && Complete(st)
    ensures Complete(Do(st, a)) <==> !Overtakes(st, a)
  {
    hide Do, Inv;
    var st' := Do(st, a);
    AcceptedAfter(st, a);
    CapturedAfter(st, a);
    ActionMonotone(st, a);
    if Finishes(st, a) {
      var y := st.sessions[a.k].txq[0];
      QueuedIsCaptured(st, a.k);
      CommitCompletes(st, st', y);
    }
  }

  lemma CommitCompletes(st: State, st': State, y: Item)
    requires Inv(st) && Complete(st) && y in st.captured && st'.captured == st.captured
    requires if y.id > st.db.cursor then st'.accepted == st.accepted + [y] && st'.db.cursor == y.id
             else st'.accepted == st.accepted && st'.db.cursor == st.db.cursor
    ensures Complete(st') <==> !exists x :: x in st.captured && st.db.cursor < x.id < y.id
  {
    hide PagesOk, SameToReaders, Valid, CursorOk, DatabaseOk;
    forall x | x in st.captured && x.id == y.id ensures x == y { SameIdSameItem(st.captured, x, y); }
    if y.id > st.db.cursor {
      assert forall x :: x in st'.accepted <==> x in st.accepted || x == y;
      if x :| x in st.captured && st.db.cursor < x.id < y.id {
        assert x !in st'.accepted;
      }
    }
  }

  /** An incomplete count shows an event lost for good. */
  lemma IncompleteLost(st: State) returns (x: Item)
    requires Inv(st) && !Complete(st)
    ensures Lost(st, x)
  {
    InvAccounts(st);
    x :| !(x in st.accepted <==> x in st.captured && x.id <= st.db.cursor);
  }

  lemma {:induction false} CompleteRun(st: State, run: seq<Action>)
    requires Inv(st) && Complete(st)
    ensures Complete(Exec(st, run)) <==> NoOvertaking(st, run)
    decreases |run|
  {
    hide Do, Inv, Complete, Overtakes;
    if run != [] {
      var next := Do(st, run[0]);
      ActionKeepsInv(st, run[0]);
      CompleteStep(st, run[0]);
      if Complete(next) {
        CompleteRun(next, run[1..]);
      } else {
        var x := IncompleteLost(next);
        LossIsPermanent(next, run[1..], x);
        LostIncomplete(Exec(next, run[1..]), x);
      }
    }
  }

  lemma LostIncomplete(st: State, x: Item)
    requires Lost(st, x)
    ensures !Complete(st)
  {
  }

  /**
   * Over all runs, with aborts, redeliveries and purges anywhere: every event up
   * to the cursor was counted, once, exactly when no commit overtook an event.
   */
  lemma {:induction false} ExactlyOnceIffNotOvertaken(run: seq<Action>)
    ensures IdOrdered(Exec(INIT, run).accepted)
    ensures Complete(Exec(INIT, run)) <==> NoOvertaking(INIT, run)
  {
    hide Exec, Do, Inv;
    InitHolds();
    CompleteRun(INIT, run);
    EveryEventAccounted(run);
  }

  /** What a commit overtakes had failed on its way, or its row was purged. */
  lemma {:induction false} OnlyFailuresOvertaken(run: seq<Action>, k: nat, x: Item)
    requires var st := Exec(INIT, run);
             k in st.sessions && st.sessions[k].txq != [] && x in st.captured && st.db.cursor < x.id < st.sessions[k].txq[0].id
    ensures x.id in Exec(INIT, run).failed || x.id in Exec(INIT, run).purged
  {
    hide Exec, SameToReaders, Valid, AcksBelow, InStep;
    ReachableInv(run);
    var st := Exec(INIT, run);
    assert PageOk(st.sessions[k], st);
    HeadDoneInStep(st.sessions[k], st.captured, Open(st), st.unpublished);
    assert x.id !in Open(st);
    SettledIsAccounted(st, x);
    InvAccounts(st);
  }

  // ------------------------------------- what a page has received it never gets again

  /** The page has received `x` and its write is no longer queued. */
  ghost predicate Spent(st: State, k: nat, x: Item) {
    k in st.sessions && x.id <= st.sessions[k].lastEventId && x !in st.sessions[k].txq
  }

  lemma ReceivedStaysSpent(s: Session, captured: seq<Item>, open: set<int>, u: Option<Item>, x: Item)
    requires InStep(s, captured, open, u) && s.channel != [] && x.id <= s.lastEventId && x !in s.txq
    ensures x.id <= s.channel[0].id && x !in Received(s).txq
  {
    assert s.channel[0] in s.channel;
  }

  /** A step of the page's task or acks, or none: what was received and what is queued stay. */
  predicate SameQueue(s: Session, s': Session) { s'.lastEventId == s.lastEventId && s'.txq == s.txq }

  lemma OtherActions(st: State, k: nat, a: Action)
    requires k in st.sessions && !(OfPage(a) && a.k == k)
    ensures k in Do(st, a).sessions && SameQueue(st.sessions[k], Do(st, a).sessions[k])
  {
    if OfPage(a) && a.k in st.sessions {
      PageActions(st, a);
      hide Do;
      OwnPageOnly(st, a, k);
    } else {
      hide DoPage, Kept, TrimmedEvents, Cutoff, Above, Without;
    }
  }

  lemma OwnPageOnly(st: State, a: Action, k: nat)
    requires OfPage(a) && a.k in st.sessions && k in st.sessions && a.k != k
    ensures var st' := DoPage(st, a, st.sessions[a.k]);
            k in st'.sessions && st'.sessions[k] == st.sessions[k]
  {
    hide Apply, Fetched, SentOne, Forwarded, Received, ReceivedGarbled;
  }

  /** What one action does to the received ids and the write queue of a page that stays open. */
  lemma QueueAfter(st: State, k: nat, a: Action)
    requires k in st.sessions && a != ClosePage(k)
    ensures k in Do(st, a).sessions
    ensures var s, s' := st.sessions[k], Do(st, a).sessions[k];
            || SameQueue(s, s')
            || (s'.lastEventId == s.lastEventId && s.txq != [] && s'.txq == s.txq[1..])
            || (s.channel != [] && s'.lastEventId == s.channel[0].id && s'.txq == s.txq)
            || (s.channel != [] && s'.lastEventId == s.channel[0].id && s'.txq == Received(s).txq)
  {
    if !(OfPage(a) && a.k == k) {
      hide Do;
      OtherActions(st, k, a);
    } else {
      assert Do(st, a) == DoPage(st, a, st.sessions[k]) by { PageActions(st, a); }
      hide Do, Kept, TrimmedEvents, Cutoff, Above, Without, Apply, FetchPending;
    }
  }

  lemma PageActions(st: State, a: Action)
    requires OfPage(a) && a.k in st.sessions
    ensures Do(st, a) == DoPage(st, a, st.sessions[a.k])
  {
    hide DoPage;
  }

  lemma SpentStep(st: State, k: nat, x: Item, a: Action)
    requires Inv(st) && Spent(st, k, x) && a != ClosePage(k)
    ensures Spent(Do(st, a), k, x)
  {
    hide Do, DaemonOk, DatabaseOk, CursorOk, InStep, AcksBelow, Open, Received;
    var s := st.sessions[k];
    assert PageOk(s, st);
    QueueAfter(st, k, a);
    if s.channel != [] { ReceivedStaysSpent(s, st.captured, Open(st), st.unpublished, x); }
  }

  /**
   * A reconnecting page asks for what follows the last id it received, so an
   * event whose write failed never reaches that page again while it stays open.
   */
  lemma {:induction false} NeverReceivedAgain(st: State, k: nat, x: Item, more: seq<Action>)
    requires Inv(st) && Spent(st, k, x) && ClosePage(k) !in more
    ensures Spent(Exec(st, more), k, x)
    decreases |more|
  {
    hide Do, Inv, Spent;
    if more != [] {
      SpentStep(st, k, x, more[0]);
      ActionKeepsInv(st, more[0]);
      NeverReceivedAgain(Do(st, more[0]), k, x, more[1..]);
    }
  }

  // -------------------------------------------- a write failure can lose an event

  const FIRST: Item := Item(1, "a", "blocked", "")
  const SECOND: Item := Item(2, "b", "blocked", "")

  /** A page that has received both rows and not yet finished either transaction. */
  const TWO_QUEUED: Session := FRESH.(lastEventId := 2, pump := Live(2), txq := [FIRST, SECOND])

  /** The state after two rows were captured, replayed to a page and received. */
  const BOTH_RECEIVED: State :=
    INIT.(captured := [FIRST, SECOND], rows := [FIRST, SECOND], unpublished := Some(SECOND),
          sessions := map[0 := TWO_QUEUED])

  const TO_THE_PAGE: seq<Action> :=
    [Capture(FIRST), Publish, Capture(SECOND), OpenPage(0), Connect(0), Fetch(0),
     Send(0), Send(0), Receive(0), Receive(0)]

  /** Both rows are stored, the second not yet announced. */
  const BOTH_STORED: State :=
    INIT.(captured := [FIRST, SECOND], rows := [FIRST, SECOND], unpublished := Some(SECOND))

  lemma BothStored()
    ensures Do(Do(Do(INIT, Capture(FIRST)), Publish), Capture(SECOND)) == BOTH_STORED
  {
    var s2 := Do(Do(INIT, Capture(FIRST)), Publish);
    assert s2 == INIT.(captured := [FIRST], rows := [FIRST]);
  }

  lemma BothReplayed()
    ensures Do(Do(Do(BOTH_STORED, OpenPage(0)), Connect(0)), Fetch(0))
         == With(BOTH_STORED, 0, FRESH.(pump := Sending([FIRST, SECOND], 2, false)))
  {
    hide FetchPending;
    BothFetched();
    var s2 := Do(Do(BOTH_STORED, OpenPage(0)), Connect(0));
    assert s2 == With(BOTH_STORED, 0, Connected(FRESH));
    assert Do(s2, Fetch(0)) == With(BOTH_STORED, 0, Fetched(Connected(FRESH), [FIRST, SECOND]));
  }

  const MID_SEND: Session := FRESH.(pump := Sending([SECOND], 2, false), channel := [FIRST])
  const ALL_SENT: Session := FRESH.(pump := Live(2), channel := [FIRST, SECOND])
  const ONE_IN: Session := FRESH.(pump := Live(2), lastEventId := 1, channel := [SECOND], txq := [FIRST])

  lemma PageSteps()
    ensures SentOne(FRESH.(pump := Sending([FIRST, SECOND], 2, false))) == MID_SEND
    ensures SentOne(MID_SEND) == ALL_SENT
    ensures Received(ALL_SENT) == ONE_IN
    ensures Received(ONE_IN) == TWO_QUEUED
  {
    assert [FIRST, SECOND][1..] == [SECOND] && [SECOND][1..] == [];
    assert FRESH.channel + [FIRST] == [FIRST] && FRESH.txq + [FIRST] == [FIRST];
    assert [FIRST] + [SECOND] == [FIRST, SECOND];
  }

  lemma BothSent()
    ensures Do(Do(Do(Do(With(BOTH_STORED, 0, FRESH.(pump := Sending([FIRST, SECOND], 2, false))),
                        Send(0)), Send(0)), Receive(0)), Receive(0)) == BOTH_RECEIVED
  {
    hide SentOne, Received;
    PageSteps();
    var s1 := Do(With(BOTH_STORED, 0, FRESH.(pump := Sending([FIRST, SECOND], 2, false))), Send(0));
    assert s1 == With(BOTH_STORED, 0, MID_SEND);
    var s2 := Do(s1, Send(0));
    assert s2 == With(BOTH_STORED, 0, ALL_SENT);
    var s3 := Do(s2, Receive(0));
    assert s3 == With(BOTH_STORED, 0, ONE_IN);
  }

  lemma BothReceived()
    ensures Exec(INIT, TO_THE_PAGE) == BOTH_RECEIVED
  {
    hide Do, Exec;
    BothStored();
    BothReplayed();
    BothSent();
    ExecTen(INIT, TO_THE_PAGE);
  }

  lemma BothFetched()
    ensures FetchPending([FIRST, SECOND], 0) == [FIRST, SECOND]
  {
    assert [FIRST, SECOND][1..] == [SECOND] && [SECOND][1..] == [];
    assert Above([SECOND], 0) == [SECOND];
    assert Above([FIRST, SECOND], 0) == [FIRST] + [SECOND];
  }

  lemma {:induction false} ExecFive(st: State, run: seq<Action>)
    requires |run| >= 5
    ensures Exec(st, run) == Exec(Do(Do(Do(Do(Do(st, run[0]), run[1]), run[2]), run[3]), run[4]), run[5..])
  {
    hide Do;
    assert run[1..][0] == run[1] && run[1..][1..] == run[2..];
    assert run[2..][0] == run[2] && run[2..][1..] == run[3..];
    assert run[3..][0] == run[3] && run[3..][1..] == run[4..];
    assert run[4..][0] == run[4] && run[4..][1..] == run[5..];
    var s1 := Do(st, run[0]);
    var s2 := Do(s1, run[1]);
    var s3 := Do(s2, run[2]);
    assert Exec(s2, run[2..]) == Exec(s3, run[3..]);
    assert Exec(s3, run[3..]) == Exec(Do(s3, run[3]), run[4..]);
  }

  lemma {:induction false} ExecTen(st: State, run: seq<Action>)
    requires |run| == 10
    ensures Exec(st, run)
         == Do(Do(Do(Do(Do(Do(Do(Do(Do(Do(st, run[0]), run[1]), run[2]), run[3]), run[4]),
                        run[5]), run[6]), run[7]), run[8]), run[9])
  {
    hide Do;
    ExecFive(st, run);
    var s5 := Do(Do(Do(Do(Do(st, run[0]), run[1]), run[2]), run[3]), run[4]);
    ExecFive(s5, run[5..]);
    assert run[5..][5..] == [];
  }

  /**
   * The first transaction aborts and the second commits: the first event is
   * lost for good, and so is any event whose aborted write is followed by a
   * later commit on the same page.
   */
  lemma AbortThenCommitLosesEvent()
    ensures Lost(Exec(INIT, TO_THE_PAGE + [TxAborts(0), TxCommits(0)]), FIRST)
  {
    BothReceived();
    ExecAppend(INIT, TO_THE_PAGE, [TxAborts(0), TxCommits(0)]);
    OvertakenIsLost(BOTH_RECEIVED, 0);
  }

  /** On any page, aborting the head of the queue and committing a higher id behind it loses the head. */
  lemma {:induction false} OvertakenIsLost(st: State, k: nat)
    requires k in st.sessions && |st.sessions[k].txq| >= 2
    requires var x, y := st.sessions[k].txq[0], st.sessions[k].txq[1];
             x in st.captured && x !in st.accepted && x.id < y.id
    ensures Lost(Exec(st, [TxAborts(k), TxCommits(k)]), st.sessions[k].txq[0])
  {
    hide PutEvent, Counted;
    var run := [TxAborts(k), TxCommits(k)];
    var s1 := Do(st, TxAborts(k));
    var s2 := Do(s1, TxCommits(k));
    assert s1.sessions[k].txq[0] == st.sessions[k].txq[1];
    assert s2 == Committed(s1, k, s1.sessions[k]);
    assert Exec(st, run) == s2 by {
      hide Do;
      assert run[1..] == [TxCommits(k)] && run[1..][1..] == [];
      assert Exec(s1, [TxCommits(k)]) == s2;
    }
  }
}
