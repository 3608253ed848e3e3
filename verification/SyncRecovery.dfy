// Which uncounted events can still be counted after a run of the
// synchronisation protocol, and the continuations that do it.
module SyncRecovery {
  import opened Text
  import opened DnsStore
  import opened DnsHistory
  import opened EventPump
  import opened SyncProtocol
  import opened SyncTheorems

  // ------------------------------------------------------- how a page counts an event

  /** A page with nothing under way whose task is replaying rows towards `x`. */
  ghost predicate Replaying(st: State, k: nat, x: Item) {
    && k in st.sessions
    && x in st.rows && x.id > st.db.cursor
    && TowardsTarget(st.sessions[k], x)
  }

  predicate TowardsTarget(s: Session, x: Item) {
    && s.txq == [] && s.channel == [] && s.lastEventId < x.id
    && (s.pump.Fetching? || s.pump.Sending?)
    && (s.pump.Fetching? ==> s.pump.last < x.id)
    && (s.pump.Sending? ==> s.pump.batch != [] && (x in s.pump.batch || (s.pump.full && s.pump.max < x.id)))
  }

  /** How far the page is from `x`, and whether a fetch is due. */
  function Distance(s: Session, x: Item): int { x.id - s.lastEventId }

  /** The stream task fetches its next batch. */
  lemma ReplayFetches(st: State, k: nat, x: Item)
    requires IdOrdered(st.rows) && Replaying(st, k, x) && st.sessions[k].pump.Fetching?
    ensures var st' := Do(st, Fetch(k));
            && Replaying(st', k, x) && st'.sessions[k].pump.Sending?
            && Distance(st'.sessions[k], x) == Distance(st.sessions[k], x)
  {
    hide FetchPending, IdOrdered;
    var s := st.sessions[k];
    FetchHasNoGap(st.rows, s.pump.last);
    assert Do(st, Fetch(k)) == With(st, k, Fetched(s, st.rows));
  }

  /** The page after the head of its task's batch has been sent, received and committed. */
  function DeliveredOne(s: Session): Session
    requires s.pump.Sending? && s.pump.batch != []
  {
    var y := s.pump.batch[0];
    SentOne(s).(channel := [], lastEventId := y.id, resolved := s.resolved + [y.id])
  }

  function AfterDelivery(st: State, k: nat): State
    requires k in st.sessions && st.sessions[k].pump.Sending? && st.sessions[k].pump.batch != []
  {
    var y := st.sessions[k].pump.batch[0];
    With(st, k, DeliveredOne(st.sessions[k]))
      .(db := Apply(st.db, y), accepted := if y.id > st.db.cursor then st.accepted + [y] else st.accepted)
  }

  function Delivery(k: nat): seq<Action> { [Send(k), Receive(k), TxCommits(k)] }

  /** One row travels all the way. */
  lemma {:induction false} DeliverySteps(st: State, k: nat)
    requires k in st.sessions
    requires var s := st.sessions[k]; s.txq == [] && s.channel == [] && s.pump.Sending? && s.pump.batch != []
    ensures Exec(st, Delivery(k)) == AfterDelivery(st, k)
  {
    hide Apply, Exec, Do;
    var s := st.sessions[k];
    SendThenReceive(st, k);
    var t := Received(SentOne(s));
    assert s.channel + [s.pump.batch[0]] == [s.pump.batch[0]];
    assert t.txq == [s.pump.batch[0]] && t.txq[1..] == [];
    CommitAlone(With(st, k, t), k);
    assert Committed(With(st, k, t), k, t) == AfterDelivery(st, k);
    ExecThree(st, k);
  }

  lemma SendThenReceive(st: State, k: nat)
    requires k in st.sessions
    requires var s := st.sessions[k]; s.pump.Sending? && s.pump.batch != []
    ensures Do(Do(st, Send(k)), Receive(k)) == With(st, k, Received(SentOne(st.sessions[k])))
  {
    var s := st.sessions[k];
    var s1 := Do(st, Send(k));
    assert s1 == With(st, k, SentOne(s));
    assert Do(s1, Receive(k)) == With(s1, k, Received(SentOne(s)));
  }

  lemma CommitAlone(st: State, k: nat)
    requires k in st.sessions && st.sessions[k].txq != []
    ensures Do(st, TxCommits(k)) == Committed(st, k, st.sessions[k])
  {
    hide Apply;
  }

  lemma {:induction false} ExecThree(st: State, k: nat)
    ensures Exec(st, Delivery(k)) == Do(Do(Do(st, Send(k)), Receive(k)), TxCommits(k))
  {
    hide Do;
    var run := Delivery(k);
    assert run[1..] == [Receive(k), TxCommits(k)];
    assert run[1..][1..] == [TxCommits(k)];
    assert run[1..][1..][1..] == [];
    var s2 := Do(Do(st, Send(k)), Receive(k));
    assert Exec(s2, [TxCommits(k)]) == Do(s2, TxCommits(k));
  }

  lemma BelowTarget(s: Session, st: State, x: Item)
    requires PageOk(s, st) && TowardsTarget(s, x) && s.pump.Sending? && s.pump.batch[0] != x
    requires IdOrdered(st.captured) && x in st.captured
    ensures s.lastEventId < s.pump.batch[0].id < x.id
    ensures if |s.pump.batch| == 1 then s.pump.full && s.pump.max < x.id
            else x in s.pump.batch[1..] || (s.pump.full && s.pump.max < x.id)
  {
    hide AcksBelow, Open;
    HeadAndRest(s.pump.batch);
    assert s.pump.batch[0] in Pending(s.pump);
    assert s.pump.batch[|s.pump.batch| - 1] in Pending(s.pump);
  }

  lemma {:induction false} ReplayDeliversOne(st: State, k: nat, x: Item)
    requires Inv(st) && Replaying(st, k, x) && st.sessions[k].pump.Sending?
    ensures var y := st.sessions[k].pump.batch[0];
            var st' := Exec(st, Delivery(k));
            && (y == x ==> x in st'.accepted)
            && (y != x ==> Replaying(st', k, x)
                           && 0 <= Distance(st'.sessions[k], x) < Distance(st.sessions[k], x))
  {
    hide Exec, Do, PageOk, DatabaseOk, CursorOk, IdOrdered, PutEvent, Counted;
    var s := st.sessions[k];
    DeliverySteps(st, k);
    if s.pump.batch[0] != x {
      assert PageOk(s, st);
      BelowTarget(s, st, x);
      assert TowardsTarget(DeliveredOne(s), x);
    }
  }

  /** Continuing the replay counts `x`. */
  lemma {:induction false} ReplayReaches(st: State, k: nat, x: Item) returns (more: seq<Action>)
    requires Inv(st) && Replaying(st, k, x)
    ensures x in Exec(st, more).accepted
    decreases Distance(st.sessions[k], x), st.sessions[k].pump.Fetching?
  {
    hide Inv, Do, TowardsTarget;
    if st.sessions[k].pump.Fetching? {
      RowsInOrder(st);
      ReplayFetches(st, k, x);
      ActionKeepsInv(st, Fetch(k));
      var rest := ReplayReaches(Do(st, Fetch(k)), k, x);
      more := [Fetch(k)] + rest;
      assert more[1..] == rest;
    } else {
      StillReplaying(st, k, x);
      ReplayDeliversOne(st, k, x);
      RunKeepsInv(st, Delivery(k));
      if st.sessions[k].pump.batch[0] == x {
        more := Delivery(k);
      } else {
        var rest := ReplayReaches(Exec(st, Delivery(k)), k, x);
        ExecAppend(st, Delivery(k), rest);
        more := Delivery(k) + rest;
      }
    }
  }

  lemma RowsInOrder(st: State)
    requires Inv(st)
    ensures IdOrdered(st.rows)
  {
    hide DatabaseOk, CursorOk, PageOk;
  }

  lemma StillReplaying(st: State, k: nat, x: Item)
    requires Replaying(st, k, x) && !st.sessions[k].pump.Fetching?
    ensures st.sessions[k].pump.Sending? && st.sessions[k].pump.batch != []
  {
  }

  /** A page opened now starts replaying from the beginning. */
  lemma {:induction false} FreshPageReplays(st: State, k: nat, x: Item)
    requires k !in st.sessions && x in st.rows && x.id > st.db.cursor && x.id > 0
    ensures Replaying(Exec(st, [OpenPage(k), Connect(k)]), k, x)
  {
    var run, s1 := [OpenPage(k), Connect(k)], Do(st, OpenPage(k));
    assert s1 == With(st, k, FRESH);
    assert Do(s1, Connect(k)) == With(s1, k, Connected(FRESH));
    assert Exec(st, run) == Do(s1, Connect(k)) by {
      hide Do;
      assert run[1..] == [Connect(k)] && run[1..][1..] == [];
      assert Exec(s1, [Connect(k)]) == Do(s1, Connect(k));
    }
  }

  lemma UnusedKey(keys: set<nat>) returns (k: nat)
    ensures k !in keys
  {
    k := 0;
    var rest := keys;
    while rest != {}
      invariant forall j :: j in keys && j !in rest ==> j < k
      decreases rest
    {
      var j :| j in rest;
      if j >= k { k := j + 1; }
      rest := rest - {j};
    }
  }

  lemma RecoverAbove(st: State, x: Item) returns (more: seq<Action>)
    requires Inv(st) && x in st.rows && x.id > st.db.cursor && x.id > 0
    ensures x in Exec(st, more).accepted
  {
    hide Inv, Replaying, Do, Exec;
    var k := UnusedKey(st.sessions.Keys);
    var start := [OpenPage(k), Connect(k)];
    FreshPageReplays(st, k, x);
    RunKeepsInv(st, start);
    var rest := ReplayReaches(Exec(st, start), k, x);
    ExecAppend(st, start, rest);
    more := start + rest;
  }

  // ------------------------------------------- an event that is already on its way

  /** A copy of `x` on this page that can still reach the database. */
  predicate InFlight(s: Session, x: Item) {
    OnTheWay(s, x) || (x in s.bus && !s.pump.Closed? && x.id > Bound(s))
  }

  /** Somewhere the daemon or a page still has `x`. */
  ghost predicate StillHeld(st: State, x: Item) {
    x in st.rows || st.unpublished == Some(x) || exists k :: k in st.sessions && InFlight(st.sessions[k], x)
  }

  lemma {:induction false} ExecCons(st: State, a: Action, rest: seq<Action>)
    ensures Exec(st, [a] + rest) == Exec(Do(st, a), rest)
  {
    hide Do;
    assert ([a] + rest)[1..] == rest;
  }

  /** Aborting what is queued before it lets the write of `x` commit. */
  lemma {:induction false} QueuedCommits(st: State, k: nat, x: Item) returns (more: seq<Action>)
    requires k in st.sessions && x in st.sessions[k].txq && x.id > st.db.cursor
    ensures x in Exec(st, more).accepted
    decreases |st.sessions[k].txq|
  {
    hide Apply, Exec;
    var s := st.sessions[k];
    if s.txq[0] == x {
      more := [TxCommits(k)] + [];
      ExecCons(st, TxCommits(k), []);
      CommitAlone(st, k);
      assert Exec(Do(st, TxCommits(k)), []) == Do(st, TxCommits(k)) by { ExecNothing(Do(st, TxCommits(k))); }
    } else {
      var rest := QueuedCommits(Do(st, TxAborts(k)), k, x);
      ExecCons(st, TxAborts(k), rest);
      more := [TxAborts(k)] + rest;
    }
  }

  lemma {:induction false} ExecNothing(st: State)
    ensures Exec(st, []) == st
  {
  }

  lemma {:induction false} ChannelCommits(st: State, k: nat, x: Item) returns (more: seq<Action>)
    requires k in st.sessions && x in st.sessions[k].channel && x.id > st.db.cursor
    ensures x in Exec(st, more).accepted
    decreases |st.sessions[k].channel|
  {
    hide Exec;
    var s := st.sessions[k];
    if s.channel[0] == x {
      assert Do(st, Receive(k)).sessions[k] == Received(s);
      var rest := QueuedCommits(Do(st, Receive(k)), k, x);
      ExecCons(st, Receive(k), rest);
      more := [Receive(k)] + rest;
    } else {
      assert Do(st, Garble(k)).sessions[k] == ReceivedGarbled(s);
      var rest := ChannelCommits(Do(st, Garble(k)), k, x);
      ExecCons(st, Garble(k), rest);
      more := [Garble(k)] + rest;
    }
  }

  lemma {:induction false} BatchCommits(st: State, k: nat, x: Item) returns (more: seq<Action>)
    requires k in st.sessions && x in Pending(st.sessions[k].pump) && x.id > st.db.cursor
    ensures x in Exec(st, more).accepted
    decreases |Pending(st.sessions[k].pump)|
  {
    hide Exec;
    var s := st.sessions[k];
    var next := Do(st, Send(k));
    assert next.sessions[k] == SentOne(s);
    var rest;
    if s.pump.batch[0] == x {
      assert x in SentOne(s).channel;
      rest := ChannelCommits(next, k, x);
    } else {
      assert x in s.pump.batch[1..];
      rest := BatchCommits(next, k, x);
    }
    ExecCons(st, Send(k), rest);
    more := [Send(k)] + rest;
  }

  lemma {:induction false} LiveCommits(st: State, k: nat, x: Item) returns (more: seq<Action>)
    requires k in st.sessions && st.sessions[k].pump.Live? && IdOrdered(st.sessions[k].bus)
    requires x in st.sessions[k].bus && st.sessions[k].pump.last < x.id && x.id > st.db.cursor
    ensures x in Exec(st, more).accepted
    decreases |st.sessions[k].bus|
  {
    hide Exec;
    var s := st.sessions[k];
    var next := Do(st, Forward(k));
    assert next.sessions[k] == Forwarded(s);
    var rest;
    HeadAndRest(s.bus);
    if s.bus[0] == x {
      assert x in Forwarded(s).channel;
      rest := ChannelCommits(next, k, x);
    } else {
      assert x in s.bus[1..];
      rest := LiveCommits(next, k, x);
    }
    ExecCons(st, Forward(k), rest);
    more := [Forward(k)] + rest;
  }

  /** How far a stream task is from going live once the daemon's rows are gone. */
  function StepsToLive(p: Pump): nat {
    match p
    case Live(_) => 0
    case Fetching(_) => 1
    case Sending(batch, _, _) => 2 + |batch|
    case Closed => 0
  }

  lemma FetchOfNothing(st: State, k: nat)
    requires k in st.sessions && st.sessions[k].pump.Fetching? && st.rows == []
    ensures Do(st, Fetch(k)) == With(st, k, st.sessions[k].(pump := Live(st.sessions[k].pump.last)))
  {
  }

  /** With the daemon's rows purged, a stream goes live and forwards what it buffered. */
  lemma {:induction false} BusCommits(st: State, k: nat, x: Item) returns (more: seq<Action>)
    requires k in st.sessions && st.rows == [] && IdOrdered(st.sessions[k].bus) && x.id > st.db.cursor
    requires var s := st.sessions[k];
             x in s.bus && !s.pump.Closed? && x.id > Bound(s) && (s.pump.Sending? ==> s.pump.batch != [])
    ensures x in Exec(st, more).accepted
    decreases StepsToLive(st.sessions[k].pump)
  {
    hide Exec, IdOrdered;
    var s := st.sessions[k];
    match s.pump
    case Live(_) => more := LiveCommits(st, k, x);
    case Fetching(_) =>
      FetchOfNothing(st, k);
      var rest := BusCommits(Do(st, Fetch(k)), k, x);
      ExecCons(st, Fetch(k), rest);
      more := [Fetch(k)] + rest;
    case Sending(_, _, _) =>
      assert Do(st, Send(k)).sessions[k] == SentOne(s);
      var rest := BusCommits(Do(st, Send(k)), k, x);
      ExecCons(st, Send(k), rest);
      more := [Send(k)] + rest;
  }

  lemma {:induction false} WithoutAll(rows: seq<Item>, ids: set<int>)
    requires forall x :: x in rows ==> x.id in ids
    ensures Without(rows, ids) == []
  {
    if rows != [] { WithoutAll(rows[1..], ids); }
  }

  lemma PurgeAll(st: State)
    ensures Do(st, Purge(Ids(st.rows))).rows == []
    ensures Do(st, Purge(Ids(st.rows))) == st.(rows := [], purged := st.purged + Ids(st.rows))
  {
    assert forall x :: x in st.rows ==> x.id in Ids(st.rows);
    WithoutAll(st.rows, Ids(st.rows));
    assert Ids(st.rows) * Ids(st.rows) == Ids(st.rows);
  }

  /** Purging the daemon's rows clears the way for a buffered event. */
  lemma BufferedCommits(st: State, k: nat, x: Item) returns (more: seq<Action>)
    requires k in st.sessions && IdOrdered(st.sessions[k].bus) && x.id > st.db.cursor
    requires var s := st.sessions[k];
             x in s.bus && !s.pump.Closed? && x.id > Bound(s) && (s.pump.Sending? ==> s.pump.batch != [])
    ensures x in Exec(st, more).accepted
  {
    hide Exec, Do, IdOrdered;
    PurgeAll(st);
    var rest := BusCommits(Do(st, Purge(Ids(st.rows))), k, x);
    ExecCons(st, Purge(Ids(st.rows)), rest);
    more := [Purge(Ids(st.rows))] + rest;
  }

  lemma AnnouncedToFresh(st: State, k: nat, x: Item)
    requires k !in st.sessions && st.unpublished == Some(x)
    ensures var st' := Do(Do(Do(st, OpenPage(k)), Connect(k)), Publish);
            && k in st'.sessions && st'.db == st.db
            && st'.sessions[k].bus == [x] && st'.sessions[k].pump == Fetching(0)
  {
    var s1 := Do(st, OpenPage(k));
    assert s1 == With(st, k, FRESH);
    var s2 := Do(s1, Connect(k));
    assert s2 == With(s1, k, Connected(FRESH));
  }

  /** An event stored but not announced reaches a page that connects in time. */
  lemma UnpublishedCommits(st: State, x: Item) returns (more: seq<Action>)
    requires st.unpublished == Some(x) && x.id > st.db.cursor && x.id > 0
    ensures x in Exec(st, more).accepted
  {
    hide Exec, Do;
    var k := UnusedKey(st.sessions.Keys);
    AnnouncedToFresh(st, k, x);
    var s1 := Do(st, OpenPage(k));
    var s2 := Do(s1, Connect(k));
    var rest := BufferedCommits(Do(s2, Publish), k, x);
    ExecCons(s2, Publish, rest);
    ExecCons(s1, Connect(k), [Publish] + rest);
    ExecCons(st, OpenPage(k), [Connect(k)] + ([Publish] + rest));
    more := [OpenPage(k)] + ([Connect(k)] + ([Publish] + rest));
  }

  lemma HeldCommits(st: State, x: Item) returns (more: seq<Action>)
    requires Inv(st) && x in st.captured && x.id > st.db.cursor && StillHeld(st, x)
    ensures x in Exec(st, more).accepted
  {
    hide Exec, DatabaseOk, CursorOk, AcksBelow, Open, IdOrdered;
    if x in st.rows {
      more := RecoverAbove(st, x);
    } else if st.unpublished == Some(x) {
      more := UnpublishedCommits(st, x);
    } else {
      var k :| k in st.sessions && InFlight(st.sessions[k], x);
      var s := st.sessions[k];
      assert PageOk(s, st);
      if x in s.txq {
        more := QueuedCommits(st, k, x);
      } else if x in s.channel {
        more := ChannelCommits(st, k, x);
      } else if x in Pending(s.pump) {
        more := BatchCommits(st, k, x);
      } else {
        more := BufferedCommits(st, k, x);
      }
    }
  }

  // ---------------------------------------------- an event nobody has stays uncounted

  /** No step of a page brings back an event it does not have. */
  lemma FetchStaysOut(s: Session, rows: seq<Item>, x: Item)
    requires IdOrdered(rows) && s.pump.Fetching? && x !in rows && !InFlight(s, x)
    ensures !InFlight(Fetched(s, rows), x)
  {
    hide FetchPending;
    FetchHasNoGap(rows, s.pump.last);
    var batch := FetchPending(rows, s.pump.last);
    assert x !in batch;
    assert batch != [] ==> batch[|batch| - 1] in batch;
  }

  lemma StepsStayOut(s: Session, x: Item)
    requires !InFlight(s, x)
    ensures !InFlight(Connected(s), x) && !InFlight(Disconnected(s), x) && !InFlight(Unmounted(s), x)
    ensures s.pump.Sending? && s.pump.batch != [] ==> !InFlight(SentOne(s), x)
    ensures s.pump.Live? && s.bus != [] ==> !InFlight(Forwarded(s), x)
    ensures s.channel != [] ==> !InFlight(Received(s), x) && !InFlight(ReceivedGarbled(s), x)
    ensures s.txq != [] ==> !InFlight(s.(txq := s.txq[1..]), x)
  {
  }

  lemma OtherNotified(s: Session, x: Item, y: Item)
    requires !InFlight(s, x) && y != x
    ensures !InFlight(Notified(s, y), x)
  {
  }

  /** Neither the queues nor the stream task of the page read what differs. */
  lemma AcksDoNotMatter(s: Session, t: Session, x: Item)
    requires !InFlight(s, x) && t == s.(resolved := t.resolved, ack := t.ack)
    ensures !InFlight(t, x)
  {
  }

  lemma PageStaysOut(st: State, a: Action, x: Item)
    requires OfPage(a) && a.k in st.sessions && a != ClosePage(a.k)
    requires IdOrdered(st.rows) && x !in st.rows && !InFlight(st.sessions[a.k], x)
    ensures var st' := DoPage(st, a, st.sessions[a.k]);
            && a.k in st'.sessions && !InFlight(st'.sessions[a.k], x)
            && (x in st'.accepted ==> x in st.accepted)
            && st'.rows == st.rows && st'.unpublished == st.unpublished
  {
    hide InFlight, Connected, Fetched, SentOne, Forwarded, Disconnected, Received, ReceivedGarbled, Unmounted, Apply, IdOrdered;
    var s := st.sessions[a.k];
    StepsStayOut(s, x);
    if a.Fetch? && s.pump.Fetching? { FetchStaysOut(s, st.rows, x); }
    var t := DoPage(st, a, s).sessions[a.k];
    if a.Resolve? || a.TimerFires? { AcksDoNotMatter(s, t, x); }
    if a.TxCommits? && s.txq != [] {
      AcksDoNotMatter(s.(txq := s.txq[1..]), t, x);
      assert s.txq[0] != x by { HeadInFlight(s, x); }
    }
  }

  lemma HeadInFlight(s: Session, x: Item)
    requires s.txq != [] && !InFlight(s, x)
    ensures s.txq[0] != x
  {
  }

  lemma GoneStep(st: State, x: Item, a: Action)
    requires Inv(st) && x in st.captured && x !in st.accepted && !StillHeld(st, x)
    ensures var st' := Do(st, a); x in st'.captured && x !in st'.accepted && !StillHeld(st', x)
  {
    hide Inv, InFlight, DoPage, Kept, TrimmedEvents, Cutoff, Apply, IdOrdered, Notified, FRESH, LastId;
    RowsInOrder(st);
    CapturedGrows(st, a);
    if OfPage(a) && a.k in st.sessions {
      PageActions(st, a);
      hide Do;
      var st' := Do(st, a);
      if a == ClosePage(a.k) {
        assert st' == st.(sessions := st.sessions - {a.k}) by { ClosedPage(st, a.k); }
      } else {
        PageStaysOut(st, a, x);
        forall k | k in st'.sessions ensures !InFlight(st'.sessions[k], x) {
          if k != a.k { OtherPagesSame(st, a, k); }
        }
      }
    } else if a.Publish? && st.unpublished.Some? {
      forall k | k in st.sessions ensures !InFlight(Notified(st.sessions[k], st.unpublished.value), x) {
        OtherNotified(st.sessions[k], x, st.unpublished.value);
      }
    } else if a.Restart? {
      forall k | k in st.sessions ensures !InFlight(Disconnected(st.sessions[k]), x) {
        StepsStayOut(st.sessions[k], x);
      }
    } else if a.Capture? {
      if a.item.id > LastId(st.captured, 0) { NewerItem(st, a.item, x); }
    } else if a.OpenPage? {
      FreshHasNothing(x);
    }
  }

  lemma ClosedPage(st: State, k: nat)
    requires k in st.sessions
    ensures Do(st, ClosePage(k)) == st.(sessions := st.sessions - {k})
  {
  }

  lemma OtherPagesSame(st: State, a: Action, k: nat)
    requires OfPage(a) && a.k in st.sessions && a.k != k && k in Do(st, a).sessions
    ensures k in st.sessions && Do(st, a).sessions[k] == st.sessions[k]
  {
    PageActions(st, a);
    hide Do, Apply, Fetched, SentOne, Forwarded, Received, ReceivedGarbled;
  }

  lemma NewerItem(st: State, y: Item, x: Item)
    requires Inv(st) && x in st.captured && y.id > LastId(st.captured, 0)
    ensures y != x
  {
    hide DatabaseOk, CursorOk, PagesOk;
  }

  lemma FreshHasNothing(x: Item)
    ensures !InFlight(FRESH, x)
  {
  }

  lemma {:induction false} GoneForGood(st: State, x: Item, more: seq<Action>)
    requires Inv(st) && x in st.captured && x !in st.accepted && !StillHeld(st, x)
    ensures x !in Exec(st, more).accepted
    decreases |more|
  {
    hide Inv, Do, StillHeld;
    if more != [] {
      GoneStep(st, x, more[0]);
      ActionKeepsInv(st, more[0]);
      GoneForGood(Do(st, more[0]), x, more[1..]);
    }
  }

  /**
   * After any run, an uncounted event can still be counted by some continuation
   * exactly when the cursor has not passed it and the daemon or a page still has it.
   */
  lemma {:induction false} RecoverableExactly(run: seq<Action>, x: Item)
    requires x in Exec(INIT, run).captured && x !in Exec(INIT, run).accepted
    ensures (exists more :: x in Exec(Exec(INIT, run), more).accepted)
       <==> x.id > Exec(INIT, run).db.cursor && StillHeld(Exec(INIT, run), x)
  {
    hide Exec, Inv, StillHeld;
    var st := Exec(INIT, run);
    ReachableInv(run);
    if x.id > st.db.cursor && StillHeld(st, x) {
      var more := HeldCommits(st, x);
    } else {
      forall more ensures x !in Exec(st, more).accepted {
        if x.id <= st.db.cursor { LossIsPermanent(st, more, x); } else { GoneForGood(st, x, more); }
      }
    }
  }

  /** An event the daemon has not purged is still held, so there the cursor alone decides. */
  lemma {:induction false} RecoverableExactlyAboveCursor(run: seq<Action>, x: Item)
    requires x in Exec(INIT, run).captured && x !in Exec(INIT, run).accepted && x.id !in Exec(INIT, run).purged
    ensures (exists more :: x in Exec(Exec(INIT, run), more).accepted) <==> x.id > Exec(INIT, run).db.cursor
  {
    hide Exec, PageOk, DatabaseOk, CursorOk, IdOrdered, InFlight;
    ReachableInv(run);
    RecoverableExactly(run, x);
  }
}
