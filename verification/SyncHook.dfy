// The acknowledgement half of the events hook: applied ids are batched, and the
// latest one is posted after fifty of them or when the five-second timer fires.
module SyncHook {
  import opened Text

  const ACK_BATCH_SIZE: nat := 50

  datatype AckState = AckState(pendingAckId: Option<int>, pendingCount: nat, timerArmed: bool)

  const NO_ACK: AckState := AckState(None, 0, false)

  /** Between callbacks a pending ack has a timer running and the batch is not full. */
  predicate Settled(a: AckState) {
    && (a.pendingAckId.Some? ==> a.timerArmed && 0 < a.pendingCount < ACK_BATCH_SIZE)
    && (a.pendingAckId.None? ==> a.pendingCount == 0)
  }

  /** `flushAck`: stop the timer, forget the batch; `Posted` is the ack it sends. */
  function Flushed(a: AckState): AckState {
    if a.pendingAckId.Some? then NO_ACK else a.(timerArmed := false)
  }

  function Posted(a: AckState): set<int> {
    if a.pendingAckId.Some? then {a.pendingAckId.value} else {}
  }

  /** The batch with `id` added, before the size test. */
  function Batched(a: AckState, id: int): AckState {
    a.(pendingAckId := Some(id), pendingCount := a.pendingCount + 1)
  }

  /** The continuation of a committed `applyEvent`. */
  function Noted(a: AckState, id: int): AckState {
    var b := Batched(a, id);
    if b.pendingCount >= ACK_BATCH_SIZE then Flushed(b) else b.(timerArmed := true)
  }

  function PostedByNoting(a: AckState, id: int): set<int> {
    if a.pendingCount + 1 >= ACK_BATCH_SIZE then {id} else {}
  }

  // ------------------------------------------------------------- which ids are posted

  /** Whatever was pending, an applied id is the one posted next: at once, or by the next flush. */
  lemma AppliedIsPostedNext(a: AckState, id: int)
    ensures Posted(Noted(a, id)) + PostedByNoting(a, id) == {id}
    ensures Posted(Noted(a, id)) * PostedByNoting(a, id) == {}
  {
  }

  /** The batches after noting `ids` one by one with no timer in between, and what was posted. */
  function NotedAll(ids: seq<int>): (AckState, seq<int>) {
    if ids == [] then (NO_ACK, [])
    else
      var last, (a, posts) := ids[|ids| - 1], NotedAll(ids[..|ids| - 1]);
      (Noted(a, last), posts + if PostedByNoting(a, last) == {} then [] else [last])
  }

  /**
   * Exactly every fiftieth applied id is posted, and what stays pending is the
   * last id with the number applied since.
   */
  lemma {:induction false} EveryFiftiethPosted(ids: seq<int>)
    ensures var (a, posts) := NotedAll(ids);
            && |posts| == |ids| / 50
            && (forall i :: 0 <= i < |posts| ==> posts[i] == ids[50 * i + 49])
            && a.pendingCount == |ids| % 50
            && a.pendingAckId == (if |ids| % 50 == 0 then None else Some(ids[|ids| - 1]))
  {
    if ids != [] { EveryFiftiethPosted(ids[..|ids| - 1]); }
  }

  /**
   * The hook's mutable state; `posted` collects the ids sent to the ack endpoint
   * and `prunes` counts the prunings of both stores started with them.
   */
  class DnsEventsSync {
    var pendingAckId: Option<int>
    var pendingCount: nat
    var ackTimer: bool
    var posted: seq<int>
    var prunes: nat

    ghost function State(): AckState
      reads this
    { AckState(pendingAckId, pendingCount, ackTimer) }

    constructor ()
      ensures State() == NO_ACK && Settled(State()) && posted == [] && prunes == 0
    {
      pendingAckId, pendingCount, ackTimer, posted, prunes := None, 0, false, [], 0;
    }

    method FlushAck()
      modifies this
      ensures State() == Flushed(old(State()))
      ensures posted == old(posted) + (if old(pendingAckId).Some? then [old(pendingAckId).value] else [])
      ensures prunes == old(prunes) + if old(pendingAckId).Some? then 1 else 0
      ensures old(Settled(State())) ==> Settled(State())
      ensures pendingAckId.None?
    {
      ackTimer := false;
      if pendingAckId.Some? {
        var id := pendingAckId.value;
        pendingAckId := None;
        pendingCount := 0;
        posted := posted + [id];
        prunes := prunes + 1;
      }
    }

    method ScheduleAck()
      modifies this`ackTimer
      ensures ackTimer
    {
      if !ackTimer { ackTimer := true; }
    }

    method OnApplied(id: int)
      requires Settled(State())
      modifies this
      ensures State() == Noted(old(State()), id)
      ensures posted == old(posted) + (if old(pendingCount) + 1 >= ACK_BATCH_SIZE then [id] else [])
      ensures prunes == old(prunes) + if old(pendingCount) + 1 >= ACK_BATCH_SIZE then 1 else 0
      ensures Settled(State())
    {
      pendingAckId := Some(id);
      pendingCount := pendingCount + 1;
      if pendingCount >= ACK_BATCH_SIZE {
        FlushAck();
      } else {
        ScheduleAck();
      }
    }

    method Teardown()
      modifies this
      ensures State() == Flushed(old(State())) && pendingAckId.None? && !ackTimer
      ensures posted == old(posted) + (if old(pendingAckId).Some? then [old(pendingAckId).value] else [])
      ensures prunes == old(prunes) + if old(pendingAckId).Some? then 1 else 0
    {
      if ackTimer { ackTimer := false; }
      FlushAck();
    }
  }
}
