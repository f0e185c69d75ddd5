/**
 The decision aggregate: its lifecycle, its commands and the domain events they leave.
*/
module DecisionEngine {
  import opened Wrappers
  import Ids

  // ----- lifecycle

  datatype Status = Draft | Proposed | Approved | Executing | Completed | Invalidated

  predicate CanTransitionTo(from: Status, to: Status) {
    match (from, to)
    case (Draft, Proposed) => true
    case (Proposed, Approved) => true
    case (Proposed, Invalidated) => true
    case (Approved, Executing) => true
    case (Executing, Completed) => true
    case (Executing, Invalidated) => true
    case _ => false
  }

  /** How many transitions can still follow at most. */
  function Height(s: Status): nat {
    match s
    case Draft => 4
    case Proposed => 3
    case Approved => 2
    case Executing => 1
    case Completed => 0
    case Invalidated => 0
  }

  /** A terminal status is one that nothing follows. */
  lemma TerminalIff(s: Status)
    ensures Height(s) == 0 <==> forall to :: !CanTransitionTo(s, to)
  {
    match s {
      case Draft => assert CanTransitionTo(s, Proposed);
      case Proposed => assert CanTransitionTo(s, Approved);
      case Approved => assert CanTransitionTo(s, Executing);
      case Executing => assert CanTransitionTo(s, Completed);
      case _ =>
    }
  }

  // ----- values

  datatype ExpectedOutcome = ExpectedOutcome(metric: string, expectedValue: string, measurementMethod: string)

  datatype Verdict = Achieved | Missed | Inconclusive

  datatype ObservedOutcome = ObservedOutcome(
    metric: string,
    actualValue: string,
    verdict: Verdict,
    evidenceUrl: Option<string>,
    observedAt: int)

  datatype Event =
    | DecisionProposed(decisionId: string, title: string, confidence: real, decisionType: string)
    | DecisionApproved(decisionId: string, approvedBy: string)
    | StatusChanged(decisionId: string, from: Status, to: Status)
    | OutcomeAttached(decisionId: string, metric: string, verdict: Verdict)
    | DecisionCompleted(decisionId: string, outcomeCount: nat)
    | DecisionInvalidated(decisionId: string, reason: string)

  datatype Error =
    | InvalidConfidence(confidence: real)
    | EmptyTitle
    | InvalidTransition(from: Status, to: Status)
    | MissingOutcome
    | NotFound(id: string)
    | Conflict(reason: string)
    | Infrastructure(reason: string)

  /** What a proposal says and no command changes. */
  datatype Particulars = Particulars(
    title: string,
    hypothesis: Option<string>,
    confidence: real,
    rationale: Option<string>,
    decisionType: string,
    priority: string,
    signalThreadId: Option<int>,
    actorId: Option<int>,
    expectedOutcomes: seq<ExpectedOutcome>)

  datatype Aggregate = Aggregate(
    id: string,
    info: Particulars,
    status: Status,
    observed: seq<ObservedOutcome>,
    createdAt: int,
    updatedAt: int,
    events: seq<Event>)

  datatype Command =
    | Approve(approvedBy: string)
    | Execute
    | Attach(outcome: ObservedOutcome)
    | Complete
    | Invalidate(reason: string)
    | Drain

  // ----- what each command does

  function Target(c: Command): Option<Status> {
    match c
    case Approve(_) => Some(Approved)
    case Execute => Some(Executing)
    case Complete => Some(Completed)
    case Invalidate(_) => Some(Invalidated)
    case Attach(_) => None
    case Drain => None
  }

  /** The answer to a command: a refused command names its error. */
  function Answer(a: Aggregate, c: Command): Result<(), Error> {
    match Target(c)
    case None => Success(())
    case Some(to) =>
      if c.Complete? && a.observed == [] then Failure(MissingOutcome)
      else if !CanTransitionTo(a.status, to) then Failure(InvalidTransition(a.status, to))
      else Success(())
  }

  /** The event an accepted command leaves. */
  function Emitted(a: Aggregate, c: Command): seq<Event> {
    if Answer(a, c).Failure? then []
    else
      match c
      case Approve(who) => [DecisionApproved(a.id, who)]
      case Execute => [StatusChanged(a.id, a.status, Executing)]
      case Attach(o) => [OutcomeAttached(a.id, o.metric, o.verdict)]
      case Complete => [DecisionCompleted(a.id, |a.observed|)]
      case Invalidate(reason) => [DecisionInvalidated(a.id, reason)]
      case Drain => []
  }

  function After(a: Aggregate, c: Command, now: int): Aggregate {
    if Answer(a, c).Failure? then a
    else
      match c
      case Drain => a.(events := [])
      case Attach(o) => a.(observed := a.observed + [o], updatedAt := now, events := a.events + Emitted(a, c))
      case _ => a.(status := Target(c).value, updatedAt := now, events := a.events + Emitted(a, c))
  }

  predicate ValidProposal(info: Particulars) {
    info.title != "" && 0.0 <= info.confidence <= 1.0
  }

  function ProposalError(info: Particulars): Error
    requires !ValidProposal(info)
  {
    if info.title == "" then EmptyTitle else InvalidConfidence(info.confidence)
  }

  function ProposedAggregate(id: int, info: Particulars, now: int): Aggregate {
    var name := Ids.DecisionId(id);
    Aggregate(name, info, Proposed, [], now, now,
              [DecisionProposed(name, info.title, info.confidence, info.decisionType)])
  }

  /** Invalidation is accepted from two statuses and no other; an approved decision refuses it. */
  lemma InvalidateAcceptedIff(a: Aggregate, reason: string)
    ensures Answer(a, Invalidate(reason)).Success? <==> a.status == Proposed || a.status == Executing
    ensures a.status == Approved ==> Answer(a, Invalidate(reason)) == Failure(InvalidTransition(Approved, Invalidated))
  {}

  /** From the one status that allows it the command moves on and leaves its event; else nothing changes. */
  ghost predicate Moves(
    before: Aggregate, after: Aggregate, r: Result<(), Error>, from: Status, to: Status, now: int, event: Event)
  {
    if before.status == from then
      r == Success(()) && after == before.(status := to, updatedAt := now, events := before.events + [event])
    else
      r == Failure(InvalidTransition(before.status, to)) && after == before
  }

  // ----- the aggregate itself

  class DecisionAggregate {
    const id: string
    const info: Particulars
    const createdAt: int
    var status: Status
    var observedOutcomes: seq<ObservedOutcome>
    var updatedAt: int
    var events: seq<Event>

    function View(): Aggregate
      reads this
    {
      Aggregate(id, info, status, observedOutcomes, createdAt, updatedAt, events)
    }

    /** Hydration from a persisted state: nothing is checked and no event is pending. */
    constructor Reconstruct(a: Aggregate)
      ensures View() == a.(events := [])
    {
      id, info, createdAt := a.id, a.info, a.createdAt;
      status, observedOutcomes, updatedAt := a.status, a.observed, a.updatedAt;
      events := [];
    }

    static method Propose(newId: int, info: Particulars, now: int) returns (r: Result<DecisionAggregate, Error>)
      ensures r.Success? <==> ValidProposal(info)
      ensures r.Success? ==> fresh(r.value) && r.value.View() == ProposedAggregate(newId, info, now)
      ensures r.Success? ==>
                var name := Ids.DecisionId(newId);
                r.value.View() == Aggregate(name, info, Proposed, [], now, now,
                                            [DecisionProposed(name, info.title, info.confidence, info.decisionType)])
      ensures r.Failure? ==> r.error == if info.title == "" then EmptyTitle else InvalidConfidence(info.confidence)
      ensures r.Failure? ==> !ValidProposal(info) && r.error == ProposalError(info)
      ensures r.Success? <==> info.title != "" && 0.0 <= info.confidence <= 1.0
    {
      if info.title == "" {
        return Failure(EmptyTitle);
      }
      if !(0.0 <= info.confidence <= 1.0) {
        return Failure(InvalidConfidence(info.confidence));
      }
      var d := new DecisionAggregate.Reconstruct(ProposedAggregate(newId, info, now));
      d.events := [DecisionProposed(Ids.DecisionId(newId), info.title, info.confidence, info.decisionType)];
      return Success(d);
    }

    method TransitionWithEvent(target: Status, event: Event, now: int) returns (r: Result<(), Error>)
      modifies this
      ensures CanTransitionTo(old(status), target) ==>
                r == Success(()) && View() == old(View()).(status := target, updatedAt := now, events := old(events) + [event])
      ensures !CanTransitionTo(old(status), target) ==>
                r == Failure(InvalidTransition(old(status), target)) && View() == old(View())
    {
      if !CanTransitionTo(status, target) {
        return Failure(InvalidTransition(status, target));
      }
      status := target;
      updatedAt := now;
      events := events + [event];
      return Success(());
    }

    method Approve(approvedBy: string, now: int) returns (r: Result<(), Error>)
      modifies this
      ensures View() == After(old(View()), Command.Approve(approvedBy), now)
      ensures r == Answer(old(View()), Command.Approve(approvedBy))
      ensures Moves(old(View()), View(), r, Proposed, Approved, now, DecisionApproved(id, approvedBy))
    {
      r := TransitionWithEvent(Approved, DecisionApproved(id, approvedBy), now);
    }

    method Execute(now: int) returns (r: Result<(), Error>)
      modifies this
      ensures View() == After(old(View()), Command.Execute, now)
      ensures r == Answer(old(View()), Command.Execute)
      ensures Moves(old(View()), View(), r, Approved, Executing, now, StatusChanged(id, Approved, Executing))
    {
      r := TransitionWithEvent(Executing, StatusChanged(id, status, Executing), now);
    }

    method AttachOutcome(outcome: ObservedOutcome, now: int)
      modifies this
      ensures View() == After(old(View()), Attach(outcome), now)
      ensures View() == old(View()).(observed := old(observedOutcomes) + [outcome], updatedAt := now,
                                     events := old(events) + [OutcomeAttached(id, outcome.metric, outcome.verdict)])
    {
      observedOutcomes := observedOutcomes + [outcome];
      updatedAt := now;
      events := events + [OutcomeAttached(id, outcome.metric, outcome.verdict)];
    }

    method Complete(now: int) returns (r: Result<(), Error>)
      modifies this
      ensures View() == After(old(View()), Command.Complete, now)
      ensures r == Answer(old(View()), Command.Complete)
      ensures old(observedOutcomes) == [] ==> r == Failure(MissingOutcome) && View() == old(View())
      ensures old(observedOutcomes) != [] ==>
                Moves(old(View()), View(), r, Executing, Completed, now, DecisionCompleted(id, |old(observedOutcomes)|))
    {
      if observedOutcomes == [] {
        return Failure(MissingOutcome);
      }
      r := TransitionWithEvent(Completed, DecisionCompleted(id, |observedOutcomes|), now);
    }

    method Invalidate(reason: string, now: int) returns (r: Result<(), Error>)
      modifies this
      ensures View() == After(old(View()), Command.Invalidate(reason), now)
      ensures r == Answer(old(View()), Command.Invalidate(reason))
      ensures Moves(old(View()), View(), r, if old(status) == Proposed then Proposed else Executing, Invalidated, now,
                    DecisionInvalidated(id, reason))
    {
      r := TransitionWithEvent(Invalidated, DecisionInvalidated(id, reason), now);
    }

    method DrainEvents() returns (drained: seq<Event>)
      modifies this
      ensures drained == old(events) && View() == After(old(View()), Drain, old(updatedAt)) == old(View()).(events := [])
    {
      drained := events;
      events := [];
    }
  }

  // ----- runs

  /** A command with the clock reading at which it is given. */
  type Step = (Command, int)

  function Run(a: Aggregate, steps: seq<Step>): Aggregate
    decreases |steps|
  {
    if steps == [] then a else Run(After(a, steps[0].0, steps[0].1), steps[1..])
  }

  /** The events handed out by the drains of a run, piece after piece. */
  function Drained(a: Aggregate, steps: seq<Step>): seq<Event>
    decreases |steps|
  {
    if steps == [] then []
    else (if steps[0].0.Drain? then a.events else [])
         + Drained(After(a, steps[0].0, steps[0].1), steps[1..])
  }

  /** Every event of a run, in the order of emission. */
  function History(a: Aggregate, steps: seq<Step>): seq<Event>
    decreases |steps|
  {
    if steps == [] then [] else Emitted(a, steps[0].0) + History(After(a, steps[0].0, steps[0].1), steps[1..])
  }

  /** Each event comes out once: what was drained and what is pending is the whole history. */
  lemma {:induction false} EventsAreConserved(a: Aggregate, steps: seq<Step>)
    ensures Drained(a, steps) + Run(a, steps).events == a.events + History(a, steps)
    decreases |steps|
  {
    if steps != [] {
      var c, now := steps[0].0, steps[0].1;
      var b := After(a, c, now);
      EventsAreConserved(b, steps[1..]);
      var d, e, h := Drained(b, steps[1..]), Run(b, steps[1..]).events, History(b, steps[1..]);
      if c.Drain? {
        assert Drained(a, steps) + Run(a, steps).events == a.events + (d + e);
        assert History(a, steps) == [] + h == h && b.events + h == h;
      } else {
        assert Drained(a, steps) == [] + d == d;
        assert b.events == a.events + Emitted(a, c);
        assert a.events + Emitted(a, c) + h == a.events + (Emitted(a, c) + h);
      }
    } else {
      assert [] + a.events == a.events + [];
    }
  }

  // ----- replay

  /** What a consumer of the event log knows of a decision. */
  datatype Replica = Replica(status: Status, outcomes: nat)

  function ReplayOne(r: Replica, e: Event): Replica {
    match e
    case DecisionProposed(_, _, _, _) => Replica(Proposed, 0)
    case DecisionApproved(_, _) => r.(status := Approved)
    case StatusChanged(_, _, to) => r.(status := to)
    case OutcomeAttached(_, _, _) => r.(outcomes := r.outcomes + 1)
    case DecisionCompleted(_, _) => r.(status := Completed)
    case DecisionInvalidated(_, _) => r.(status := Invalidated)
  }

  function Replay(r: Replica, log: seq<Event>): Replica
    decreases |log|
  {
    if log == [] then r else Replay(ReplayOne(r, log[0]), log[1..])
  }

  /** An event that tells the truth about a decision in this state and follows the lifecycle. */
  predicate Honest(r: Replica, e: Event) {
    match e
    case DecisionProposed(_, _, _, _) => false
    case DecisionApproved(_, _) => CanTransitionTo(r.status, Approved)
    case StatusChanged(_, from, to) => from == r.status && CanTransitionTo(from, to)
    case OutcomeAttached(_, _, _) => true
    case DecisionCompleted(_, n) => CanTransitionTo(r.status, Completed) && n == r.outcomes && n > 0
    case DecisionInvalidated(_, _) => CanTransitionTo(r.status, Invalidated)
  }

  predicate HonestLog(r: Replica, log: seq<Event>)
    decreases |log|
  {
    log != [] ==> Honest(r, log[0]) && HonestLog(ReplayOne(r, log[0]), log[1..])
  }

  function ReplicaOf(a: Aggregate): Replica {
    Replica(a.status, |a.observed|)
  }

  lemma {:induction false} HistoryReplays(a: Aggregate, steps: seq<Step>)
    ensures HonestLog(ReplicaOf(a), History(a, steps))
    ensures Replay(ReplicaOf(a), History(a, steps)) == ReplicaOf(Run(a, steps))
    decreases |steps|
  {
    if steps != [] {
      var c, now := steps[0].0, steps[0].1;
      var b := After(a, c, now);
      HistoryReplays(b, steps[1..]);
      var h := History(b, steps[1..]);
      if Emitted(a, c) == [] {
        assert History(a, steps) == [] + h == h;
      } else {
        var e := Emitted(a, c)[0];
        assert History(a, steps) == [e] + h && History(a, steps)[1..] == h;
        assert ReplayOne(ReplicaOf(a), e) == ReplicaOf(b);
      }
    }
  }

  predicate IsStatusEvent(e: Event) {
    !e.OutcomeAttached?
  }

  function StatusEvents(log: seq<Event>): nat {
    if log == [] then 0 else (if IsStatusEvent(log[0]) then 1 else 0) + StatusEvents(log[1..])
  }

  /** Every status event of an honest log costs height, so it holds no more of them than that. */
  lemma {:induction false} StatusEventsDescend(r: Replica, log: seq<Event>)
    requires HonestLog(r, log)
    ensures StatusEvents(log) + Height(Replay(r, log).status) <= Height(r.status)
    ensures r.outcomes <= Replay(r, log).outcomes
    decreases |log|
  {
    if log != [] {
      StatusEventsDescend(ReplayOne(r, log[0]), log[1..]);
    }
  }

  /**
   The life of a proposed decision, for every sequence of commands and drains: the drained pieces
   and the pending events form one log; it opens with the proposal, is honest from then on,
   replays to the current state, and holds at most three status events after the proposal.
  */
  lemma LifeOfADecision(id: int, info: Particulars, now: int, steps: seq<Step>)
    ensures var a := ProposedAggregate(id, info, now);
            var log := Drained(a, steps) + Run(a, steps).events;
            && log != [] && log[0] == a.events[0]
            && HonestLog(Replica(Proposed, 0), log[1..])
            && Replay(Replica(Draft, 0), log) == ReplicaOf(Run(a, steps))
            && StatusEvents(log[1..]) <= 3
  {
    var a := ProposedAggregate(id, info, now);
    EventsAreConserved(a, steps);
    HistoryReplays(a, steps);
    var log := Drained(a, steps) + Run(a, steps).events;
    assert log == a.events + History(a, steps) && log[1..] == History(a, steps);
    StatusEventsDescend(Replica(Proposed, 0), History(a, steps));
  }

  /** A status that no other may follow is kept by every run, without a status event. */
  lemma TerminalStatusIsKept(a: Aggregate, steps: seq<Step>)
    requires forall to :: !CanTransitionTo(a.status, to)
    ensures Run(a, steps).status == a.status
    ensures StatusEvents(History(a, steps)) == 0
  {
    TerminalIff(a.status);
    HistoryReplays(a, steps);
    StatusEventsDescend(ReplicaOf(a), History(a, steps));
    NoStatusEventsNoChange(ReplicaOf(a), History(a, steps));
  }

  lemma {:induction false} NoStatusEventsNoChange(r: Replica, log: seq<Event>)
    requires StatusEvents(log) == 0
    ensures Replay(r, log).status == r.status
    decreases |log|
  {
    if log != [] {
      NoStatusEventsNoChange(ReplayOne(r, log[0]), log[1..]);
    }
  }

  /** Invariants 1 and 3 of the aggregate. */
  predicate Sound(a: Aggregate) {
    0.0 <= a.info.confidence <= 1.0 && (a.status == Completed ==> a.observed != [])
  }

  lemma {:induction false} RunsStaySound(a: Aggregate, steps: seq<Step>)
    requires Sound(a)
    ensures Sound(Run(a, steps)) && Run(a, steps).id == a.id && Run(a, steps).info == a.info
    ensures Run(a, steps).createdAt == a.createdAt && a.observed <= Run(a, steps).observed
    decreases |steps|
  {
    if steps != [] {
      RunsStaySound(After(a, steps[0].0, steps[0].1), steps[1..]);
    }
  }

  // ----- the create walk

  /** A created decision goes from proposed over approved to executing before it is saved. */
  function Created(id: int, info: Particulars, proposedAt: int, approvedAt: int, executedAt: int): Aggregate {
    Run(ProposedAggregate(id, info, proposedAt), [(Approve("system"), approvedAt), (Execute, executedAt)])
  }

  lemma CreatedIsExecuting(id: int, info: Particulars, proposedAt: int, approvedAt: int, executedAt: int)
    ensures var a := Created(id, info, proposedAt, approvedAt, executedAt);
            && a.id == Ids.DecisionId(id) && a.info == info
            && a.status == Executing && a.observed == []
            && a.createdAt == proposedAt && a.updatedAt == executedAt
            && a.events == [DecisionProposed(a.id, info.title, info.confidence, info.decisionType),
                            DecisionApproved(a.id, "system"), StatusChanged(a.id, Approved, Executing)]
  {
    var p := ProposedAggregate(id, info, proposedAt);
    var steps: seq<Step> := [(Approve("system"), approvedAt), (Execute, executedAt)];
    assert steps[1..] == [(Execute, executedAt)] && steps[1..][1..] == [];
    var q := After(p, Approve("system"), approvedAt);
    assert Run(p, steps) == Run(q, steps[1..]) == Run(After(q, Execute, executedAt), []);
  }
}
