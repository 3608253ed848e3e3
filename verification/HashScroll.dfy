// Holding a deep-linked element in view. The hook arms a hold (resize observer,
// settle timer, gesture listeners), re-arms it when its effect re-runs, and lets
// go on a gesture, a timeout, a fragment that moves away, or a cleanup.
module HashScroll {
  import opened Text

  /**
   * `released` and `armedFragment` survive effect runs. `live` are the holds
   * whose observer, timer and listeners exist; `stop` is the hold the current
   * effect's stop function would disarm. `scrolls` counts the scrolls issued.
   */
  datatype Hook = Hook(
    released: bool, armedFragment: Option<string>, mounted: bool, target: string, hasElement: bool,
    live: set<nat>, stop: Option<nat>, nextHold: nat, scrolls: nat)

  const FRESH: Hook := Hook(false, None, false, "", false, {}, None, 0, 0)

  datatype Event =
    | Attach(present: bool)
    | RunEffect(target: string, windowHash: string, routerHash: string)
    | Cleanup
    | HashChange(fragment: string)
    | Resize(hold: nat)
    | Timeout(hold: nat)
    | Gesture

  // ------------------------------------------------------------ the hook's functions

  /** `disarm` of one hold: its observer, timer and listeners go, and `stop` becomes a no-op. */
  function Disarmed(h: Hook, hold: nat): Hook { h.(live := h.live - {hold}, stop := None) }

  /** Calling the current `stop`. */
  function Stopped(h: Hook): Hook { if h.stop.Some? then Disarmed(h, h.stop.value) else h }

  function Armed(h: Hook): Hook {
    if h.released || !h.hasElement then h
    else
      var s := Stopped(h);
      s.(live := s.live + {s.nextHold}, stop := Some(s.nextHold), nextHold := s.nextHold + 1, scrolls := s.scrolls + 1)
  }

  function Retargeted(h: Hook, fragment: string): Hook {
    var seen := if h.armedFragment != Some(fragment) then h.(armedFragment := Some(fragment), released := false) else h;
    if fragment == h.target then Armed(seen) else Stopped(seen)
  }

  /** The live fragment outranks the router's. */
  function Effective(windowHash: string, routerHash: string): string {
    if windowHash != "" then windowHash else routerHash
  }

  /** A gesture reaches every live hold's listener. */
  function Released(h: Hook): Hook {
    if h.live == {} then h else h.(released := true, live := {}, stop := None)
  }

  /** One event; an event that cannot occur in this state changes nothing. */
  function Step(h: Hook, e: Event): Hook {
    match e
    case Attach(present) => h.(hasElement := present)
    case RunEffect(target, windowHash, routerHash) =>
      if h.mounted then h
      else Retargeted(h.(mounted := true, target := target, stop := None), Effective(windowHash, routerHash))
    case Cleanup => if h.mounted then Stopped(h).(mounted := false) else h
    case HashChange(fragment) => if h.mounted then Retargeted(h, fragment) else h
    case Resize(hold) => if hold in h.live then h.(scrolls := h.scrolls + 1) else h
    case Timeout(hold) => if hold in h.live then Disarmed(h, hold) else h
    case Gesture => Released(h)
  }

  function Trace(h: Hook, events: seq<Event>): Hook
    decreases |events|
  {
    if events == [] then h else Trace(Step(h, events[0]), events[1..])
  }

  // -------------------------------------------------------------------- every trace

  /**
   * At most one hold is live and it is the one `stop` would disarm; while it is,
   * the user has not taken over and the last fragment seen is the target.
   */
  predicate Inv(h: Hook) {
    && h.live == (if h.stop.Some? then {h.stop.value} else {})
    && (h.live != {} ==> h.mounted && !h.released && h.armedFragment == Some(h.target))
    && (forall hold :: hold in h.live ==> hold < h.nextHold)
  }

  lemma StepKeepsInv(h: Hook, e: Event)
    requires Inv(h)
    ensures Inv(Step(h, e))
  {
  }

  lemma {:induction false} TraceKeepsInv(h: Hook, events: seq<Event>)
    requires Inv(h)
    ensures Inv(Trace(h, events))
    decreases |events|
  {
    hide Step, Inv;
    if events != [] {
      StepKeepsInv(h, events[0]);
      TraceKeepsInv(Step(h, events[0]), events[1..]);
    }
  }

  /** In every trace at most one hold is live, and a live hold means the target is what the URL last named. */
  lemma {:induction false} AtMostOneHold(events: seq<Event>)
    ensures var h := Trace(FRESH, events);
            && |h.live| <= 1
            && (h.live != {} ==> !h.released && h.armedFragment == Some(h.target))
  {
    hide Trace;
    TraceKeepsInv(FRESH, events);
  }

  /** The fragment an event shows the hook, if any. */
  function Shown(e: Event): Option<string> {
    match e
    case RunEffect(_, windowHash, routerHash) => Some(Effective(windowHash, routerHash))
    case HashChange(fragment) => Some(fragment)
    case _ => None
  }

  /** Once released, nothing scrolls until a different fragment is seen, however often the effect re-runs. */
  lemma {:induction false} QuietUntilNewFragment(h: Hook, events: seq<Event>)
    requires Inv(h) && h.released
    requires forall i :: 0 <= i < |events| && Shown(events[i]).Some? ==> Shown(events[i]) == h.armedFragment
    ensures var t := Trace(h, events);
            t.scrolls == h.scrolls && t.released && t.live == {} && t.armedFragment == h.armedFragment
    decreases |events|
  {
    if events != [] {
      var n := Step(h, events[0]);
      assert Shown(events[0]).Some? ==> Shown(events[0]) == h.armedFragment;
      StepKeepsInv(h, events[0]);
      assert n.scrolls == h.scrolls && n.released && n.armedFragment == h.armedFragment;
      forall i | 0 <= i < |events[1..]| && Shown(events[1..][i]).Some? ensures Shown(events[1..][i]) == n.armedFragment {
        assert events[1..][i] == events[i + 1];
      }
      QuietUntilNewFragment(n, events[1..]);
    }
  }

  function HashChanges(fragments: seq<string>): seq<Event> {
    if fragments == [] then [] else [HashChange(fragments[0])] + HashChanges(fragments[1..])
  }

  /** A mounted hook with its element: after these fragments it holds, or would not. */
  lemma {:induction false} HoldsAfter(h: Hook, fragments: seq<string>)
    requires Inv(h) && h.mounted && h.hasElement && fragments != []
    ensures var t := Trace(h, HashChanges(fragments));
            t.live != {} <==> && fragments[|fragments| - 1] == h.target
                              && !(h.released && forall f :: f in fragments ==> h.armedFragment == Some(f))
    decreases |fragments|
  {
    var n := Step(h, HashChange(fragments[0]));
    StepKeepsInv(h, HashChange(fragments[0]));
    assert HashChanges(fragments)[1..] == HashChanges(fragments[1..]);
    assert Trace(h, HashChanges(fragments)) == Trace(n, HashChanges(fragments[1..]));
    assert forall f :: f in fragments <==> f == fragments[0] || f in fragments[1..];
    if |fragments| > 1 {
      HoldsAfter(n, fragments[1..]);
    } else {
      assert fragments[1..] == [];
    }
  }

  /**
   * Whatever happened before, after any fragments the URL shows next the hook
   * holds exactly when the last one is the target, unless the user had let go
   * and every one of them is the fragment that was dismissed.
   */
  lemma {:induction false} HoldsExactlyAfterFragments(before: seq<Event>, fragments: seq<string>)
    requires fragments != []
    requires var h := Trace(FRESH, before); h.mounted && h.hasElement
    ensures var h := Trace(FRESH, before);
            var t := Trace(h, HashChanges(fragments));
            t.live != {} <==> && fragments[|fragments| - 1] == h.target
                              && !(h.released && forall f :: f in fragments ==> h.armedFragment == Some(f))
  {
    hide Trace, HashChanges;
    TraceKeepsInv(FRESH, before);
    HoldsAfter(Trace(FRESH, before), fragments);
  }

  /** While a hold lives every resize it observes scrolls once; no other resize does. */
  lemma {:induction false} ResizeScrollsDuringHold(before: seq<Event>, hold: nat)
    ensures var h := Trace(FRESH, before);
            Step(h, Resize(hold)).scrolls == h.scrolls + if hold in h.live then 1 else 0
    ensures var h := Trace(FRESH, before); h.live == {} || h.live == {h.nextHold - 1}
  {
    hide Trace;
    TraceKeepsNewest(FRESH, before);
  }

  /** A live hold is the newest one. */
  predicate NewestLives(h: Hook) { h.stop.Some? ==> h.stop.value + 1 == h.nextHold }

  lemma {:induction false} TraceKeepsNewest(h: Hook, events: seq<Event>)
    requires Inv(h) && NewestLives(h)
    ensures Inv(Trace(h, events)) && NewestLives(Trace(h, events))
    decreases |events|
  {
    if events != [] {
      StepKeepsInv(h, events[0]);
      NewestStays(h, events[0]);
      TraceKeepsNewest(Step(h, events[0]), events[1..]);
    }
  }

  lemma NewestStays(h: Hook, e: Event)
    requires Inv(h) && NewestLives(h)
    ensures NewestLives(Step(h, e))
  {
  }

  /** The live fragment decides alone; the router's stands in only when there is none. */
  lemma LiveFragmentOutranksRouter(h: Hook, target: string, live: string, router: string, other: string)
    requires live != ""
    ensures Step(h, RunEffect(target, live, router)) == Step(h, RunEffect(target, live, other))
    ensures Step(h, RunEffect(target, "", live)) == Step(h, RunEffect(target, live, other))
  {
  }

  /** A gesture during a hold silences the rest of that navigation. */
  lemma {:induction false} GestureEndsNavigation(before: seq<Event>, after: seq<Event>)
    requires Trace(FRESH, before).live != {}
    requires var h := Trace(FRESH, before);
             forall i :: 0 <= i < |after| && Shown(after[i]).Some? ==> Shown(after[i]) == Some(h.target)
    ensures Trace(Step(Trace(FRESH, before), Gesture), after).scrolls == Trace(FRESH, before).scrolls
  {
    hide Trace;
    var h := Trace(FRESH, before);
    TraceKeepsInv(FRESH, before);
    StepKeepsInv(h, Gesture);
    QuietUntilNewFragment(Step(h, Gesture), after);
  }

  /**
   * A gesture is remembered exactly when a hold is live: if the settle window
   * has already expired, the next re-run of the effect scrolls again.
   */
  lemma {:induction false} GestureCountsOnlyDuringHold(before: seq<Event>, routerHash: string)
    requires var h := Trace(FRESH, before);
             h.mounted && h.hasElement && h.armedFragment == Some(h.target) && h.target != ""
    ensures var h := Trace(FRESH, before);
            var rerun := [Gesture, Cleanup, RunEffect(h.target, h.target, routerHash)];
            Trace(h, rerun).scrolls > h.scrolls <==> h.live == {} && !h.released
  {
    hide Trace;
    var h := Trace(FRESH, before);
    TraceKeepsInv(FRESH, before);
    ThreeEvents(h, Gesture, Cleanup, RunEffect(h.target, h.target, routerHash));
  }

  lemma {:induction false} ThreeEvents(h: Hook, a: Event, b: Event, c: Event)
    ensures Trace(h, [a, b, c]) == Step(Step(Step(h, a), b), c)
  {
    hide Step;
    assert [a, b, c][1..] == [b, c] && [b, c][1..] == [c] && [c][1..] == [];
    assert Trace(Step(Step(h, a), b), [c]) == Step(Step(Step(h, a), b), c);
  }

  /** The reader scrolled after the window expired, and the late query still pulls them back. */
  lemma LateGestureIsForgotten()
    ensures var events := [Attach(true), RunEffect("#x", "#x", ""), Timeout(0)];
            var h := Trace(FRESH, events);
            h.scrolls == 1 && h.live == {} && Trace(h, [Gesture, Cleanup, RunEffect("#x", "#x", "")]).scrolls == 2
  {
    hide Trace;
    ThreeEvents(FRESH, Attach(true), RunEffect("#x", "#x", ""), Timeout(0));
    var h := Trace(FRESH, [Attach(true), RunEffect("#x", "#x", ""), Timeout(0)]);
    ThreeEvents(h, Gesture, Cleanup, RunEffect("#x", "#x", ""));
  }

  // ---------------------------------------------------------- the hook as an object

  class HashScrollTarget {
    var released: bool
    var armedFragment: Option<string>
    var mounted: bool
    var target: string
    var hasElement: bool
    var live: set<nat>
    var stop: Option<nat>
    var nextHold: nat
    var scrolls: nat

    ghost function Value(): Hook
      reads this
    { Hook(released, armedFragment, mounted, target, hasElement, live, stop, nextHold, scrolls) }

    constructor ()
      ensures Value() == FRESH && Inv(Value())
    {
      released, armedFragment, mounted, target, hasElement := false, None, false, "", false;
      live, stop, nextHold, scrolls := {}, None, 0, 0;
    }

    method Disarm(hold: nat)
      modifies this
      ensures Value() == Disarmed(old(Value()), hold)
    {
      live := live - {hold};
      stop := None;
    }

    method CallStop()
      modifies this
      ensures Value() == Stopped(old(Value()))
    {
      if stop.Some? { Disarm(stop.value); }
    }

    method Arm()
      modifies this
      ensures Value() == Armed(old(Value()))
    {
      if released { return; }
      if !hasElement { return; }
      CallStop();
      scrolls := scrolls + 1;
      live := live + {nextHold};
      stop := Some(nextHold);
      nextHold := nextHold + 1;
    }

    method Retarget(fragment: string)
      modifies this
      ensures Value() == Retargeted(old(Value()), fragment)
    {
      if armedFragment != Some(fragment) {
        armedFragment := Some(fragment);
        released := false;
      }
      if fragment == target { Arm(); } else { CallStop(); }
    }

    method OnEvent(e: Event)
      requires Inv(Value())
      modifies this
      ensures Value() == Step(old(Value()), e) && Inv(Value())
    {
      StepKeepsInv(Value(), e);
      match e
      case Attach(present) => hasElement := present;
      case RunEffect(t, windowHash, routerHash) =>
        if !mounted {
          mounted, target, stop := true, t, None;
          Retarget(if windowHash != "" then windowHash else routerHash);
        }
      case Cleanup =>
        if mounted {
          CallStop();
          mounted := false;
        }
      case HashChange(fragment) => if mounted { Retarget(fragment); }
      case Resize(hold) => if hold in live { scrolls := scrolls + 1; }
      case Timeout(hold) => if hold in live { Disarm(hold); }
      case Gesture =>
        if live != {} {
          released := true;
          live, stop := {}, None;
        }
    }
  }
}
