// Enrolling one shared daemon from any number of test runners: a lock directory
// made atomically, a status check inside the lock, then code, enroll, register.
// Each request takes effect on the daemon before the call returns or throws.
module EnrollmentLock {
  import opened Text

  /** Where a runner stands; the states from `Checking` to `Releasing` hold the lock. */
  datatype Runner =
    | Outside
    | Waiting
    | Checking
    | NeedsCode
    | NeedsEnroll
    | Enrolled(identity: nat)
    | Releasing
    | Dead(holding: bool)

  predicate Holding(r: Runner) {
    r.Checking? || r.NeedsCode? || r.NeedsEnroll? || r.Enrolled? || r.Releasing?
  }

  /** `mintedBy[i]` is the runner whose enroll minted identity `i`; `registered` logs runner and identity. */
  datatype World = World(
    lockDir: bool, runners: seq<Runner>, wardnet: bool, identity: Option<nat>,
    mintedBy: seq<nat>, enrolledWhenDone: bool, registered: seq<(nat, nat)>)

  function Start(n: nat): World {
    World(false, seq(n, _ => Outside), false, None, [], false, [])
  }

  datatype Action =
    | Enter(r: nat)
    | TryLock(r: nat)
    | GiveUp(r: nat)
    | Status(r: nat)
    | Code(r: nat)
    | Enroll(r: nat, ok: bool)
    | Register(r: nat)
    | Throw(r: nat)
    | RemoveLock(r: nat)
    | Kill(r: nat)

  function At(w: World, r: nat, s: Runner): World
    requires r < |w.runners|
  { w.(runners := w.runners[r := s]) }

  /** One step; a step that is not possible changes nothing. */
  function Do(w: World, a: Action): World {
    if a.r >= |w.runners| then w
    else
      var s := w.runners[a.r];
      match a
      case Enter(r) => if s.Outside? then At(w, r, Waiting) else w
      case TryLock(r) => if s.Waiting? && !w.lockDir then At(w, r, Checking).(lockDir := true) else w
      case GiveUp(r) => if s.Waiting? then At(w, r, Outside) else w
      case Status(r) => if s.Checking? then At(w, r, if w.wardnet then Releasing else NeedsCode) else w
      case Code(r) => if s.NeedsCode? then At(w, r, NeedsEnroll) else w
      case Enroll(r, ok) =>
        if s.NeedsEnroll?
        then At(w, r, if ok then Enrolled(|w.mintedBy|) else Releasing)
             .(identity := Some(|w.mintedBy|), mintedBy := w.mintedBy + [r],
               enrolledWhenDone := w.enrolledWhenDone || w.wardnet)
        else w
      case Register(r) =>
        if s.Enrolled? && w.identity.Some?
        then At(w, r, Releasing).(registered := w.registered + [(r, w.identity.value)], wardnet := true)
        else w
      case Throw(r) => if Holding(s) then At(w, r, Releasing) else w
      case RemoveLock(r) => if s.Releasing? then At(w, r, Outside).(lockDir := false) else w
      case Kill(r) => if s.Dead? then w else At(w, r, Dead(Holding(s)))
  }

  function Run(w: World, actions: seq<Action>): World
    decreases |actions|
  {
    if actions == [] then w else Run(Do(w, actions[0]), actions[1..])
  }

  // ------------------------------------------------------------------- the invariant

  /** Holds the lock, alive or killed while holding it. */
  predicate Owns(r: Runner) { Holding(r) || (r.Dead? && r.holding) }

  /** At most one owner, and the directory exists exactly while there is one. */
  ghost predicate LockOk(w: World) {
    && (forall i, j :: 0 <= i < j < |w.runners| ==> !(Owns(w.runners[i]) && Owns(w.runners[j])))
    && (w.lockDir <==> exists i :: 0 <= i < |w.runners| && Owns(w.runners[i]))
  }

  /** A runner that found enrollment missing still finds it missing, and its identity is the current one. */
  ghost predicate EnrollmentOk(w: World) {
    forall i :: 0 <= i < |w.runners| ==>
      match w.runners[i]
      case NeedsCode => !w.wardnet
      case NeedsEnroll => !w.wardnet
      case Enrolled(id) => !w.wardnet && w.identity == Some(id) && id < |w.mintedBy| && w.mintedBy[id] == i
      case _ => true
  }

  ghost predicate LogOk(w: World) {
    && (forall k :: 0 <= k < |w.registered| ==>
          w.registered[k].1 < |w.mintedBy| && w.mintedBy[w.registered[k].1] == w.registered[k].0)
    && !w.enrolledWhenDone
  }

  ghost predicate Inv(w: World) { LockOk(w) && EnrollmentOk(w) && LogOk(w) }

  lemma StartHolds(n: nat)
    ensures Inv(Start(n))
  {
  }

  lemma OneOwner(w: World, i: nat, j: nat)
    requires LockOk(w) && i < |w.runners| && j < |w.runners| && Owns(w.runners[i]) && Owns(w.runners[j])
    ensures i == j
  {
  }

  /** A step changes one runner; ownership moves only by taking and removing the directory. */
  lemma Ownership(w: World, a: Action)
    requires LockOk(w)
    ensures |Do(w, a).runners| == |w.runners|
    ensures forall i :: 0 <= i < |w.runners| && i != a.r ==> Do(w, a).runners[i] == w.runners[i]
    ensures a.r < |w.runners| ==>
              var before, after := Owns(w.runners[a.r]), Owns(Do(w, a).runners[a.r]);
              && (after && !before ==> !w.lockDir && Do(w, a).lockDir)
              && (before && !after ==> w.lockDir && !Do(w, a).lockDir)
              && (before == after ==> Do(w, a).lockDir == w.lockDir)
  {
    hide LockOk;
    if a.r < |w.runners| && Owns(w.runners[a.r]) { OwnerHasLock(w, a.r); }
  }

  lemma OwnerHasLock(w: World, r: nat)
    requires LockOk(w) && r < |w.runners| && Owns(w.runners[r])
    ensures w.lockDir
  {
  }

  lemma LockKept(w: World, a: Action)
    requires LockOk(w)
    ensures LockOk(Do(w, a))
  {
    hide Do, Owns;
    var w' := Do(w, a);
    Ownership(w, a);
    if a.r < |w.runners| {
      var before, after := Owns(w.runners[a.r]), Owns(w'.runners[a.r]);
      forall i, j | 0 <= i < j < |w'.runners| ensures !(Owns(w'.runners[i]) && Owns(w'.runners[j])) {
        assert !(Owns(w.runners[i]) && Owns(w.runners[j]));
      }
      if w.lockDir {
        var i :| 0 <= i < |w.runners| && Owns(w.runners[i]);
        if before { OneOwner(w, i, a.r); }
        assert i != a.r ==> Owns(w'.runners[i]);
      }
      if !w.lockDir && after { assert Owns(w'.runners[a.r]); }
    } else {
      assert w' == w by { OutOfRange(w, a); }
    }
  }

  lemma OutOfRange(w: World, a: Action)
    requires a.r >= |w.runners|
    ensures Do(w, a) == w
  {
  }

  lemma EnrollmentKept(w: World, a: Action)
    requires Inv(w)
    ensures EnrollmentOk(Do(w, a)) && LogOk(Do(w, a))
  {
    hide LockOk;
    if a.r < |w.runners| && Holding(w.runners[a.r]) {
      forall i | 0 <= i < |w.runners| && i != a.r ensures !Holding(w.runners[i]) {
        if Holding(w.runners[i]) { OneOwner(w, i, a.r); }
      }
    }
  }

  lemma ActionKeepsInv(w: World, a: Action)
    requires Inv(w)
    ensures Inv(Do(w, a))
  {
    hide LockOk, EnrollmentOk, LogOk, Do;
    LockKept(w, a);
    EnrollmentKept(w, a);
  }

  lemma {:induction false} RunKeepsInv(w: World, actions: seq<Action>)
    requires Inv(w)
    ensures Inv(Run(w, actions))
    decreases |actions|
  {
    hide Do, Inv;
    if actions != [] {
      ActionKeepsInv(w, actions[0]);
      RunKeepsInv(Do(w, actions[0]), actions[1..]);
    }
  }

  // ------------------------------------------------------------------ every schedule

  /** Whatever the schedule, at most one runner is inside the lock. */
  lemma {:induction false} MutualExclusion(n: nat, actions: seq<Action>, i: nat, j: nat)
    requires var w := Run(Start(n), actions); i < |w.runners| && j < |w.runners|
    requires var w := Run(Start(n), actions); Holding(w.runners[i]) && Holding(w.runners[j])
    ensures i == j
  {
    hide Run, LockOk;
    StartHolds(n);
    RunKeepsInv(Start(n), actions);
    OneOwner(Run(Start(n), actions), i, j);
  }

  /** Every registration was signed with the identity the same runner's enroll minted, and no enroll followed a finished one. */
  lemma {:induction false} RegistrationsConsistent(n: nat, actions: seq<Action>)
    ensures var w := Run(Start(n), actions);
            && (forall k :: 0 <= k < |w.registered| ==>
                  w.registered[k].1 < |w.mintedBy| && w.mintedBy[w.registered[k].1] == w.registered[k].0)
            && !w.enrolledWhenDone
  {
    hide Run;
    StartHolds(n);
    RunKeepsInv(Start(n), actions);
  }

  /** Only the runner holding the lock ever removes it. */
  lemma {:induction false} OnlyHolderRemoves(n: nat, actions: seq<Action>, a: Action)
    requires var w := Run(Start(n), actions); w.lockDir && !Do(w, a).lockDir
    ensures var w := Run(Start(n), actions);
            && a.r < |w.runners| && Holding(w.runners[a.r])
            && forall i :: 0 <= i < |w.runners| && Owns(w.runners[i]) ==> i == a.r
  {
    hide Run, LockOk;
    StartHolds(n);
    RunKeepsInv(Start(n), actions);
    var w := Run(Start(n), actions);
    assert Owns(w.runners[a.r]);
    forall i | 0 <= i < |w.runners| && Owns(w.runners[i]) ensures i == a.r { OneOwner(w, i, a.r); }
  }

  /** A runner killed inside the lock leaves it taken for good: nobody gets in afterwards. */
  ghost predicate Jammed(w: World, dead: nat) {
    && dead < |w.runners| && w.runners[dead] == Dead(true)
    && w.lockDir && forall i :: 0 <= i < |w.runners| ==> !Holding(w.runners[i])
  }

  lemma {:induction false} KilledHolderJamsLock(w: World, dead: nat, actions: seq<Action>)
    requires Jammed(w, dead)
    ensures Jammed(Run(w, actions), dead)
    decreases |actions|
  {
    if actions != [] {
      assert Jammed(Do(w, actions[0]), dead) by { StillJammed(w, dead, actions[0]); }
      KilledHolderJamsLock(Do(w, actions[0]), dead, actions[1..]);
    }
  }

  lemma StillJammed(w: World, dead: nat, a: Action)
    requires Jammed(w, dead)
    ensures Jammed(Do(w, a), dead)
  {
  }

  lemma {:induction false} KillingHolderJams(n: nat, actions: seq<Action>, r: nat)
    requires var w := Run(Start(n), actions); r < |w.runners| && Holding(w.runners[r])
    ensures Jammed(Do(Run(Start(n), actions), Kill(r)), r)
  {
    hide Run, LockOk;
    StartHolds(n);
    RunKeepsInv(Start(n), actions);
    var w := Run(Start(n), actions);
    OwnerHasLock(w, r);
    forall i | 0 <= i < |w.runners| && i != r ensures !Holding(w.runners[i]) {
      if Holding(w.runners[i]) { OneOwner(w, i, r); }
    }
  }

  // ------------------------------------------------------- when a waiting runner can enter

  lemma {:induction false} RunAppend(w: World, a: seq<Action>, b: seq<Action>)
    ensures Run(w, a + b) == Run(Run(w, a), b)
    decreases |a|
  {
    hide Do;
    if a == [] {
      assert a + b == b;
    } else {
      assert (a + b)[1..] == a[1..] + b;
      RunAppend(Do(w, a[0]), a[1..], b);
    }
  }

  /** A live holder can always leave, which frees the lock and moves nobody else. */
  lemma {:induction false} HolderLeaves(w: World, h: nat)
    requires h < |w.runners| && Holding(w.runners[h])
    ensures var w' := Run(w, [Throw(h), RemoveLock(h)]);
            !w'.lockDir && |w'.runners| == |w.runners|
            && forall i :: 0 <= i < |w.runners| && i != h ==> w'.runners[i] == w.runners[i]
  {
    var run := [Throw(h), RemoveLock(h)];
    assert run[1..] == [RemoveLock(h)] && run[1..][1..] == [];
    var w1 := Do(w, Throw(h));
    assert Run(w, run) == Run(w1, [RemoveLock(h)]) == Do(w1, RemoveLock(h));
  }

  lemma {:induction false} EntersWhenFree(w: World, r: nat)
    requires r < |w.runners| && w.runners[r].Waiting? && !w.lockDir
    ensures r < |Run(w, [TryLock(r)]).runners| && Holding(Run(w, [TryLock(r)]).runners[r])
  {
    assert [TryLock(r)][1..] == [];
    assert Run(w, [TryLock(r)]) == Do(w, TryLock(r));
  }

  /** Some continuation brings runner `r` inside the lock. */
  ghost predicate CanEnter(w: World, r: nat) {
    exists more :: r < |Run(w, more).runners| && Holding(Run(w, more).runners[r])
  }

  lemma WaiterEnters(w: World, r: nat)
    requires LockOk(w) && r < |w.runners| && w.runners[r].Waiting?
    requires forall i :: 0 <= i < |w.runners| ==> w.runners[i] != Dead(true)
    ensures CanEnter(w, r)
  {
    hide Run;
    var leave := LockFreed(w, r);
    EntersWhenFree(Run(w, leave), r);
    RunAppend(w, leave, [TryLock(r)]);
  }

  lemma {:induction false} NoSteps(w: World)
    ensures Run(w, []) == w
  {
  }

  lemma DeadHolderJams(w: World, dead: nat)
    requires LockOk(w) && dead < |w.runners| && w.runners[dead] == Dead(true)
    ensures Jammed(w, dead)
  {
    hide LockOk;
    OwnerHasLock(w, dead);
    forall i | 0 <= i < |w.runners| ensures !Holding(w.runners[i]) {
      if Holding(w.runners[i]) { OneOwner(w, i, dead); }
    }
  }

  /**
   * After any schedule, a waiting runner can still get inside the lock exactly
   * when no runner has been killed inside it.
   */
  lemma {:induction false} UsableUnlessKilledInside(n: nat, actions: seq<Action>, r: nat)
    requires var w := Run(Start(n), actions); r < |w.runners| && w.runners[r].Waiting?
    ensures var w := Run(Start(n), actions);
            CanEnter(w, r) <==> forall i :: 0 <= i < |w.runners| ==> w.runners[i] != Dead(true)
  {
    hide Run, LockOk, Jammed;
    StartHolds(n);
    RunKeepsInv(Start(n), actions);
    var w := Run(Start(n), actions);
    if dead :| 0 <= dead < |w.runners| && w.runners[dead] == Dead(true) {
      DeadHolderJams(w, dead);
      forall more ensures !(r < |Run(w, more).runners| && Holding(Run(w, more).runners[r])) {
        KilledHolderJamsLock(w, dead, more);
        JammedKeepsOut(Run(w, more), dead, r);
      }
    } else {
      WaiterEnters(w, r);
    }
  }

  lemma JammedKeepsOut(w: World, dead: nat, r: nat)
    requires Jammed(w, dead)
    ensures !(r < |w.runners| && Holding(w.runners[r]))
  {
  }

  // ------------------------------------------------------------- enrolled at most once

  /** The daemon is enrolled exactly when a registration went through, and at most one ever did. */
  ghost predicate EnrolledOnce(w: World) {
    (w.registered != [] <==> w.wardnet) && |w.registered| <= 1
  }

  lemma EnrolledStep(w: World, a: Action)
    requires Inv(w) && EnrolledOnce(w)
    ensures EnrolledOnce(Do(w, a))
    ensures w.wardnet ==> Do(w, a).wardnet && Do(w, a).mintedBy == w.mintedBy && Do(w, a).registered == w.registered
  {
    hide LockOk, LogOk;
  }

  lemma {:induction false} EnrolledRun(w: World, actions: seq<Action>)
    requires Inv(w) && EnrolledOnce(w)
    ensures EnrolledOnce(Run(w, actions))
    ensures w.wardnet ==> Run(w, actions).wardnet && Run(w, actions).mintedBy == w.mintedBy
    decreases |actions|
  {
    hide Do, Inv, EnrolledOnce;
    if actions != [] {
      ActionKeepsInv(w, actions[0]);
      EnrolledStep(w, actions[0]);
      EnrolledRun(Do(w, actions[0]), actions[1..]);
    }
  }

  /**
   * Over all schedules: at most one registration happens, the daemon counts as
   * enrolled exactly when it has, and from then on no identity is minted.
   */
  lemma {:induction false} RegisteredAtMostOnce(n: nat, actions: seq<Action>, more: seq<Action>)
    ensures var w := Run(Start(n), actions);
            && |w.registered| <= 1 && (w.registered != [] <==> w.wardnet)
            && (w.wardnet ==> Run(w, more).mintedBy == w.mintedBy && Run(w, more).wardnet)
  {
    hide Run, Inv;
    StartHolds(n);
    RunKeepsInv(Start(n), actions);
    EnrolledRun(Start(n), actions);
    EnrolledRun(Run(Start(n), actions), more);
  }

  /** Everything one runner does inside the lock. */
  function Inside(r: nat): seq<Action> { [TryLock(r), Status(r), Code(r), Enroll(r, true), Register(r)] }

  lemma {:induction false} InsideEnrolls(w: World, r: nat)
    requires r < |w.runners| && w.runners[r].Waiting? && !w.lockDir && !w.wardnet
    ensures Run(w, Inside(r)).wardnet
  {
    var run := Inside(r);
    assert run[1..][1..][1..][1..][1..] == [];
    var w1 := Do(w, run[0]);
    var w2 := Do(w1, run[1..][0]);
    var w3 := Do(w2, run[1..][1..][0]);
    var w4 := Do(w3, run[1..][1..][1..][0]);
    var w5 := Do(w4, run[1..][1..][1..][1..][0]);
    assert w1.runners[r] == Checking && w2.runners[r] == NeedsCode && w3.runners[r] == NeedsEnroll;
    assert w4.runners[r].Enrolled? && w4.identity.Some? && w5.wardnet;
    FiveSteps(w, run);
  }

  lemma {:induction false} FiveSteps(w: World, run: seq<Action>)
    requires |run| == 5
    ensures Run(w, run) == Do(Do(Do(Do(Do(w, run[0]), run[1]), run[2]), run[3]), run[4])
  {
    hide Do;
    assert run[1..][0] == run[1] && run[1..][1..] == run[2..];
    assert run[2..][0] == run[2] && run[2..][1..] == run[3..];
    assert run[3..][0] == run[3] && run[3..][1..] == run[4..];
    assert run[4..][0] == run[4] && run[4..][1..] == [];
    var w1 := Do(w, run[0]);
    var w2 := Do(w1, run[1]);
    assert Run(w1, run[1..]) == Run(w2, run[2..]);
    var w3 := Do(w2, run[2]);
    assert Run(w2, run[2..]) == Run(w3, run[3..]);
    assert Run(w3, run[3..]) == Run(Do(w3, run[3]), run[4..]);
  }

  /** As long as nobody was killed inside, a waiting runner can bring the enrolment to its end. */
  lemma {:induction false} EnrolmentCanFinish(n: nat, actions: seq<Action>, r: nat)
    requires var w := Run(Start(n), actions); r < |w.runners| && w.runners[r].Waiting?
    requires var w := Run(Start(n), actions); forall i :: 0 <= i < |w.runners| ==> w.runners[i] != Dead(true)
    ensures exists more :: Run(Run(Start(n), actions), more).wardnet
  {
    hide Run, Inside;
    StartHolds(n);
    RunKeepsInv(Start(n), actions);
    var w := Run(Start(n), actions);
    var leave := LockFreed(w, r);
    var free := Run(w, leave);
    if free.wardnet {
      assert Run(w, leave).wardnet;
    } else {
      InsideEnrolls(free, r);
      RunAppend(w, leave, Inside(r));
      assert Run(w, leave + Inside(r)).wardnet;
    }
  }

  lemma LockFreed(w: World, r: nat) returns (leave: seq<Action>)
    requires LockOk(w) && r < |w.runners| && w.runners[r].Waiting?
    requires forall i :: 0 <= i < |w.runners| ==> w.runners[i] != Dead(true)
    ensures var w' := Run(w, leave); !w'.lockDir && r < |w'.runners| && w'.runners[r].Waiting?
  {
    hide Run;
    leave := [];
    NoSteps(w);
    if w.lockDir {
      var h :| 0 <= h < |w.runners| && Owns(w.runners[h]);
      leave := [Throw(h), RemoveLock(h)];
      HolderLeaves(w, h);
    }
  }
}
