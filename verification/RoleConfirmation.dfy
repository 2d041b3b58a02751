/** Deferred role confirmations (Payload/Loadout/LoadoutStatePolicy.h:22-29, 102-165). */
module RoleConfirmation {
  import opened Basics

  datatype Decision = Ready | Deferred | Fallback

  /** A pending confirmation; times are milliseconds of the steady clock. */
  datatype Pending = Pending(active: bool, replaying: bool, roleId: string, deadline: int, replayDecision: Decision)

  const IDLE := Pending(false, false, "", 0, Fallback)

  function Begun(p: Pending, roleId: string, hasBaseline: bool, fetchSettled: bool, now: int, grace: int)
    : (Pending, Decision)
  {
    if p.replaying && p.roleId == roleId then (p, p.replayDecision)
    else if hasBaseline then (p, Ready)
    else if fetchSettled then (p, Fallback)
    else if p.active && p.roleId == roleId then (p, Deferred)
    else (Pending(true, false, roleId, now + grace, p.replayDecision), Deferred)
  }

  function Polled(p: Pending, hasBaseline: bool, fetchSettled: bool, now: int): (Pending, Option<Decision>) {
    if !p.active || p.replaying then (p, None)
    else if hasBaseline then (p.(replaying := true, replayDecision := Ready), Some(Ready))
    else if fetchSettled || now >= p.deadline then (p.(replaying := true, replayDecision := Fallback), Some(Fallback))
    else (p, None)
  }

  function Completed(p: Pending): Pending {
    p.(active := false, replaying := false)
  }

  /** A replayed confirmation is active and carries a decision other than to wait. */
  predicate Sound(p: Pending) {
    p.replaying ==> p.active && p.replayDecision != Deferred
  }

  /** The role waits for its decision. */
  predicate Waits(p: Pending, roleId: string) {
    p.active && !p.replaying && p.roleId == roleId
  }

  /** The role is being replayed. */
  predicate Replays(p: Pending, roleId: string) {
    p.replaying && p.roleId == roleId
  }

  /** The record the three operations update in place. */
  class PendingRoleConfirmation {
    var active: bool
    var replaying: bool
    var roleId: string
    var deadline: int
    var replayDecision: Decision

    constructor (p: Pending)
      ensures Snapshot() == p
    {
      active, replaying, roleId := p.active, p.replaying, p.roleId;
      deadline, replayDecision := p.deadline, p.replayDecision;
    }

    function Snapshot(): Pending
      reads this
    {
      Pending(active, replaying, roleId, deadline, replayDecision)
    }

    predicate Valid()
      reads this
    {
      Sound(Snapshot())
    }

    /** Only a role that has neither an answer nor the replay's decision is put off; it then waits, and if it waited
        already its deadline stays. A decision changes nothing. */
    method BeginRoleConfirmation(role: string, hasBaseline: bool, fetchSettled: bool, now: int, grace: int)
      returns (decision: Decision)
      requires Valid()
      modifies this
      ensures Valid()
      ensures decision == Deferred <==> !Replays(old(Snapshot()), role) && !hasBaseline && !fetchSettled
      ensures decision == Deferred ==>
                Waits(Snapshot(), role) &&
                deadline == if Waits(old(Snapshot()), role) then old(deadline) else now + grace
      ensures decision != Deferred ==>
                Snapshot() == old(Snapshot()) &&
                decision ==
                  if Replays(Snapshot(), role) then replayDecision else if hasBaseline then Ready else Fallback
      ensures (Snapshot(), decision) == Begun(old(Snapshot()), role, hasBaseline, fetchSettled, now, grace)
    {
      if replaying && roleId == role {
        return replayDecision;
      }
      if hasBaseline {
        return Ready;
      }
      if fetchSettled {
        return Fallback;
      }
      if active && roleId == role {
        return Deferred;
      }
      active, replaying, roleId, deadline := true, false, role, now + grace;
      decision := Deferred;
    }

    /** A decision comes exactly for a waiting role that has an answer or whose time is up; it is then what a
        retransmission of the role is answered with. No decision changes nothing. */
    method PollRoleConfirmation(hasBaseline: bool, fetchSettled: bool, now: int) returns (decision: Option<Decision>)
      requires Valid()
      modifies this
      ensures Valid()
      ensures decision.Some? <==>
              Waits(old(Snapshot()), roleId) && (hasBaseline || fetchSettled || now >= old(deadline))
      ensures decision.Some? ==> decision.value != Deferred && (decision.value == Ready <==> hasBaseline)
      ensures decision.Some? ==>
                Replays(Snapshot(), old(roleId)) &&
                forall b, s, t, g :: Begun(Snapshot(), old(roleId), b, s, t, g) == (Snapshot(), decision.value)
      ensures decision.None? ==> Snapshot() == old(Snapshot())
      ensures (Snapshot(), decision) == Polled(old(Snapshot()), hasBaseline, fetchSettled, now)
    {
      if !active || replaying {
        return None;
      }
      var outcome := Deferred;
      if hasBaseline {
        outcome := Ready;
      } else if fetchSettled || now >= deadline {
        outcome := Fallback;
      }
      if outcome == Deferred {
        return None;
      }
      replaying, replayDecision := true, outcome;
      decision := Some(outcome);
    }

    /** Nothing waits and nothing is replayed any more. */
    method CompleteRoleConfirmation()
      modifies this
      ensures Valid() && !active && !replaying
      ensures Snapshot() == Completed(old(Snapshot()))
    {
      active, replaying := false, false;
    }
  }

  // ---- Runs ----

  datatype Event =
    | Begin(roleId: string, hasBaseline: bool, fetchSettled: bool, now: int, grace: int)
    | Poll(hasBaseline: bool, fetchSettled: bool, now: int)
    | Complete

  function Step(p: Pending, e: Event): Pending {
    match e
    case Begin(roleId, hasBaseline, fetchSettled, now, grace) =>
      Begun(p, roleId, hasBaseline, fetchSettled, now, grace).0
    case Poll(hasBaseline, fetchSettled, now) => Polled(p, hasBaseline, fetchSettled, now).0
    case Complete => Completed(p)
  }

  /** The event starts a new deferral: a new deadline is set. */
  predicate Activates(p: Pending, e: Event) {
    e.Begin? && !(p.replaying && p.roleId == e.roleId) && !e.hasBaseline && !e.fetchSettled &&
    !(p.active && p.roleId == e.roleId)
  }

  /** The event is a poll that lets the confirmation go. */
  predicate Releases(p: Pending, e: Event) {
    e.Poll? && Polled(p, e.hasBaseline, e.fetchSettled, e.now).1.Some?
  }

  datatype Run = Run(states: seq<Pending>, events: seq<Event>) {
    predicate StepsAt(k: nat) {
      k < |events| && k + 1 < |states| && states[k + 1] == Step(states[k], events[k])
    }

    predicate Valid() {
      |states| == |events| + 1 && forall k :: 0 <= k < |events| ==> StepsAt(k)
    }

    /** From event i up to but excluding event j nothing completes and every request is for this role. */
    predicate OnlyRetransmits(roleId: string, i: nat, j: nat) {
      forall k :: i <= k < j && k < |events| ==>
        events[k] != Complete && (events[k].Begin? ==> events[k].roleId == roleId)
    }
  }

  lemma StepKeepsSound(p: Pending, e: Event)
    requires Sound(p)
    ensures Sound(Step(p, e))
  {
  }

  lemma {:induction false} RunKeepsSound(run: Run, n: nat)
    requires run.Valid() && n < |run.states| && Sound(run.states[0])
    ensures Sound(run.states[n])
  {
    if n > 0 {
      RunKeepsSound(run, n - 1);
      assert run.StepsAt(n - 1);
      StepKeepsSound(run.states[n - 1], run.events[n - 1]);
    }
  }

  /** A confirmation being replayed is never deferred again, at any point of any run. */
  lemma ReplayIsNeverDeferred(run: Run, n: nat, hasBaseline: bool, fetchSettled: bool, now: int, grace: int)
    requires run.Valid() && n < |run.states| && run.states[0] == IDLE && run.states[n].replaying
    ensures Begun(run.states[n], run.states[n].roleId, hasBaseline, fetchSettled, now, grace).1 ==
            run.states[n].replayDecision != Deferred
  {
    RunKeepsSound(run, n);
  }

  /** What a poll decided is what every later retransmission is answered with, whatever has been fetched since. */
  lemma RetransmissionGetsReleasedDecision(run: Run, i: nat, j: nat, hasBaseline: bool, fetchSettled: bool, now: int,
                                           grace: int)
    requires run.Valid() && i < j < |run.states| && Releases(run.states[i], run.events[i])
    requires run.OnlyRetransmits(run.states[i].roleId, i + 1, j)
    ensures var p, e := run.states[i], run.events[i];
            Begun(run.states[j], p.roleId, hasBaseline, fetchSettled, now, grace).1 ==
            Polled(p, e.hasBaseline, e.fetchSettled, e.now).1.value ==
            if e.hasBaseline then Ready else Fallback
  {
    assert run.StepsAt(i);
    ReplayIsFixed(run, i + 1, j);
  }

  lemma {:induction false} ReplayIsFixed(run: Run, i: nat, j: nat)
    requires run.Valid() && i <= j < |run.states| && run.states[i].replaying && run.states[i].active
    requires run.OnlyRetransmits(run.states[i].roleId, i, j)
    ensures run.states[j] == run.states[i]
  {
    if i < j {
      ReplayIsFixed(run, i, j - 1);
      assert run.StepsAt(j - 1);
    }
  }

  /** Retransmitting a role never moves its deadline, however polls and retransmissions interleave. */
  lemma {:induction false} DeadlineIsFixed(run: Run, i: nat, j: nat)
    requires run.Valid() && i <= j < |run.states| && run.states[i].active
    requires run.OnlyRetransmits(run.states[i].roleId, i, j)
    ensures run.states[j].active && run.states[j].roleId == run.states[i].roleId
    ensures run.states[j].deadline == run.states[i].deadline
    ensures run.states[i].replaying ==> run.states[j].replaying
  {
    if i < j {
      DeadlineIsFixed(run, i, j - 1);
      assert run.StepsAt(j - 1);
    }
  }

  /** A poll at or after the deadline that an activation set always decides, unless an earlier poll already did. */
  lemma PollAfterDeadlineDecides(run: Run, i: nat, j: nat)
    requires run.Valid() && i < j < |run.events| && Activates(run.states[i], run.events[i])
    requires run.OnlyRetransmits(run.events[i].roleId, i + 1, j)
    requires run.events[j].Poll? && run.events[j].now >= run.events[i].now + run.events[i].grace
    ensures Releases(run.states[j], run.events[j]) || exists k :: i < k < j && Releases(run.states[k], run.events[k])
  {
    assert run.StepsAt(i);
    DeadlineIsFixed(run, i + 1, j);
    if run.states[j].replaying {
      var k := ReplayWasReleased(run, i + 1, j);
    }
  }

  lemma {:induction false} ReplayWasReleased(run: Run, i: nat, j: nat) returns (k: nat)
    requires run.Valid() && i <= j < |run.states| && !run.states[i].replaying && run.states[j].replaying
    ensures i <= k < j && Releases(run.states[k], run.events[k])
  {
    assert run.StepsAt(j - 1);
    if run.states[j - 1].replaying {
      k := ReplayWasReleased(run, i, j - 1);
    } else {
      k := j - 1;
    }
  }

  lemma {:induction false} StaysReleased(run: Run, i: nat, j: nat)
    requires run.Valid() && i <= j < |run.states| && (run.states[i].active ==> run.states[i].replaying)
    requires forall k :: i <= k < j ==> !Activates(run.states[k], run.events[k])
    ensures run.states[j].active ==> run.states[j].replaying
  {
    if i < j {
      StaysReleased(run, i, j - 1);
      assert run.StepsAt(j - 1);
    }
  }

  /** One activation is released at most once: between two releases there is a new activation. */
  lemma ReleasedOnce(run: Run, i: nat, j: nat)
    requires run.Valid() && i < j < |run.events|
    requires Releases(run.states[i], run.events[i]) && Releases(run.states[j], run.events[j])
    ensures exists k :: i < k < j && Activates(run.states[k], run.events[k])
  {
    assert run.StepsAt(i);
    if forall k :: i < k < j ==> !Activates(run.states[k], run.events[k]) {
      StaysReleased(run, i + 1, j);
      assert false;
    }
  }

  function Activations(run: Run, n: nat): nat
    requires run.Valid() && n <= |run.events|
  {
    if n == 0 then 0 else
    Activations(run, n - 1) + if Activates(run.states[n - 1], run.events[n - 1]) then 1 else 0
  }

  function Releasings(run: Run, n: nat): nat
    requires run.Valid() && n <= |run.events|
  {
    if n == 0 then 0 else
    Releasings(run, n - 1) + if Releases(run.states[n - 1], run.events[n - 1]) then 1 else 0
  }

  /** There are never more releases than activations; an activation still waiting has not been released. */
  lemma {:induction false} ReleasesNeverExceedActivations(run: Run, n: nat)
    requires run.Valid() && n <= |run.events| && run.states[0] == IDLE
    ensures var waiting := if run.states[n].active && !run.states[n].replaying then 1 else 0;
            Releasings(run, n) + waiting <= Activations(run, n)
  {
    if n > 0 {
      ReleasesNeverExceedActivations(run, n - 1);
      RunKeepsSound(run, n - 1);
      assert run.StepsAt(n - 1);
    }
  }
}
