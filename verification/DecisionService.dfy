/**
 The decision use cases: create with a retry when the id is lost to another request, lifecycle
 transitions, and the recording of outcomes.
*/
module DecisionService {
  import opened Wrappers
  import opened DecisionEngine
  import opened DecisionStore
  import Decimal
  import Ids

  const CREATE_RETRIES := 4

  datatype LifecycleCommand = ToApprove | ToExecute | ToComplete | ToInvalidate(reason: string)

  function AsCommand(c: LifecycleCommand): Command {
    match c
    case ToApprove => Approve("system")
    case ToExecute => Execute
    case ToComplete => Complete
    case ToInvalidate(reason) => Invalidate(reason)
  }

  /** The status a command asks for. */
  ghost predicate AsksFor(c: LifecycleCommand, status: Status) {
    && (c.ToApprove? ==> status == Approved)
    && (c.ToExecute? ==> status == Executing)
    && (c.ToComplete? ==> status == Completed)
    && (c.ToInvalidate? ==> status == Invalidated)
  }

  /** Where a command is accepted, with the number of outcomes on file. */
  ghost predicate MayFollow(c: LifecycleCommand, status: Status, outcomes: nat) {
    match c
    case ToApprove => status == Proposed
    case ToExecute => status == Approved
    case ToComplete => status == Executing && outcomes > 0
    case ToInvalidate(_) => status == Proposed || status == Executing
  }

  /** The one event of an accepted command. */
  ghost predicate Announces(c: LifecycleCommand, name: string, outcomes: nat, events: seq<Event>) {
    match c
    case ToApprove => events == [DecisionApproved(name, "system")]
    case ToExecute => events == [StatusChanged(name, Approved, Executing)]
    case ToComplete => events == [DecisionCompleted(name, outcomes)]
    case ToInvalidate(reason) => events == [DecisionInvalidated(name, reason)]
  }

  /** The aggregate's commands do what a request asks for, and in no other status. */
  lemma CommandsAreAsked(a: Aggregate, c: LifecycleCommand, now: int)
    ensures AsksFor(c, a.status) <==> Target(AsCommand(c)) == Some(a.status)
    ensures Answer(a, AsCommand(c)).Success? <==> MayFollow(c, a.status, |a.observed|)
    ensures MayFollow(c, a.status, |a.observed|) ==>
              && AsksFor(c, After(a, AsCommand(c), now).status)
              && Announces(c, a.id, |a.observed|, Emitted(a, AsCommand(c)))
  {}

  datatype CreatedDecision = CreatedDecision(decisionId: int, aggregate: Aggregate, events: seq<Event>)

  datatype LifecycleTransition = LifecycleTransition(
    decisionId: int,
    aggregate: Aggregate,
    events: seq<Event>,
    transitioned: bool)

  datatype OutcomeRecording = OutcomeRecording(
    outcomeId: int,
    decisionId: int,
    aggregate: Aggregate,
    completed: bool,
    events: seq<Event>)

  /** The observation a completing request carries through the aggregate. */
  function ObservedOf(o: NewOutcome, now: int): ObservedOutcome {
    ObservedOutcome(o.outcomeType, o.observation, Inconclusive, o.evidenceUrl,
                    if o.observedAt.Some? then o.observedAt.value else now)
  }

  /**
   The observation in memory is the one read back later exactly when the request names a time
   after the epoch, or the store's clock shows the time in memory.
  */
  lemma ObservationIsReadBackIff(o: NewOutcome, id: int, storeNow: int, now: int)
    ensures FromOutcome(FactOf(o, id, storeNow)) == ObservedOf(o, now)
       <==> (o.observedAt.Some? && o.observedAt.value > 0) || storeNow == ObservedOf(o, now).observedAt
    ensures var observed := FromOutcome(FactOf(o, id, storeNow));
            && observed.metric == o.outcomeType && observed.actualValue == o.observation
            && observed.verdict == Inconclusive && observed.evidenceUrl == o.evidenceUrl
            && observed.observedAt == if o.observedAt.Some? && o.observedAt.value > 0 then o.observedAt.value else storeNow
  {}

  function CompletedBy(a: Aggregate, outcome: ObservedOutcome, now: int): Aggregate {
    a.(status := Completed, observed := a.observed + [outcome], updatedAt := now,
       events := [OutcomeAttached(a.id, outcome.metric, outcome.verdict), DecisionCompleted(a.id, |a.observed| + 1)])
  }

  /**
   One row changed, and in it the status, the time of the update, and the column of expected
   outcomes, which is written anew.
  */
  ghost predicate OneRowMoved(before: Rows, after: Rows, id: int, status: string, now: int) {
    && id in before
    && after == before[id := before[id].(status := status, updatedAt := now,
                                         expectedOutcomes := Some(Outcomes(DecodeExpected(before[id].expectedOutcomes))))]
  }

  lemma SavedRowMoved(rows: Rows, a: Aggregate, observed: seq<ObservedOutcome>, id: int, now: int)
    requires KeyedById(rows) && id in rows
    requires a.id == Ids.DecisionId(id) && a.createdAt == rows[id].createdAt && a.updatedAt == now
    requires a.info == FromStore(rows[id], observed).info
    ensures IntoRow(a).Success?
    ensures OneRowMoved(rows, Upserted(rows, IntoRow(a).value), id, StatusToD1(a.status), now)
  {
    RowRoundTrip(a, id);
  }

  /** An accepted command: its event, and its row, which reads back as the status that was asked for. */
  ghost predicate WasAccepted(
    c: LifecycleCommand, a: Aggregate, events: seq<Event>, before: Rows, after: Rows, id: int, now: int)
  {
    && MayFollow(c, a.status, |a.observed|) && Announces(c, a.id, |a.observed|, events)
    && id in after && AsksFor(c, StatusFromD1(after[id].status))
    && OneRowMoved(before, after, id, after[id].status, now)
  }

  lemma AcceptedIsSaved(a: Aggregate, c: LifecycleCommand, now: int, key: int, rows: Rows)
    requires KeyedById(rows) && key in rows && a == FromStore(rows[key], a.observed) && Answer(a, AsCommand(c)).Success?
    ensures var after := After(a, AsCommand(c), now);
            && IntoRow(after).Success? && after.events == Emitted(a, AsCommand(c))
            && WasAccepted(c, a, Emitted(a, AsCommand(c)), rows, Upserted(rows, IntoRow(after).value), key, now)
  {
    var after := After(a, AsCommand(c), now);
    CommandsAreAsked(a, c, now);
    SavedRowMoved(rows, after, a.observed, key, now);
    StatusNamesRoundTrip(after.status);
  }

  lemma SubsetSize<T>(a: set<T>, b: set<T>)
    requires a <= b
    ensures |a| <= |b|
  {
    assert b == a + (b - a);
  }

  /** As many rows of other requests came in as inserts were refused. */
  ghost predicate Refused(refused: set<int>, foreign0: set<int>, foreign: set<int>, n: nat) {
    |refused| == n && foreign0 <= foreign && refused <= foreign - foreign0
  }

  lemma AnotherRefusal(refused: set<int>, foreign0: set<int>, foreign1: set<int>, foreign2: set<int>, lost: int, n: nat)
    requires Refused(refused, foreign0, foreign1, n)
    requires foreign1 <= foreign2 && lost in foreign2 - foreign1
    ensures Refused(refused + {lost}, foreign0, foreign2, n + 1)
  {}

  // ----- the service

  class DecisionService {
    const store: D1Store
    const repo: D1DecisionRepository

    constructor (store: D1Store)
      ensures this.store == store && repo.store == store
    {
      this.store := store;
      this.repo := new D1DecisionRepository(store);
    }

    ghost predicate Valid()
      reads store
    {
      repo.store == store && store.Valid()
    }

    /** Propose, approve, execute: the aggregate a create request saves. */
    method Walk(id: int, info: Particulars, t1: int, t2: int, t3: int) returns (r: Result<DecisionAggregate, Error>)
      ensures r.Success? <==> ValidProposal(info)
      ensures r.Success? ==> fresh(r.value) && r.value.View() == Created(id, info, t1, t2, t3)
      ensures r.Failure? ==> !ValidProposal(info) && r.error == ProposalError(info)
    {
      var proposed := DecisionAggregate.Propose(id, info, t1);
      if proposed.Failure? {
        return Failure(proposed.error);
      }
      var decision := proposed.value;
      WalkIsCreated(id, info, t1, t2, t3);
      var approved := decision.Approve("system", t2);
      assert approved.Success?;
      var executed := decision.Execute(t3);
      assert executed.Success?;
      return Success(decision);
    }

    /** The row, the aggregate and the three events of a new decision, created and executed at some times. */
    ghost predicate IsCreation(c: CreatedDecision, row: Row, info: Particulars) {
      exists created, executed :: IsCreationAt(c, row, info, created, executed)
    }

    ghost predicate IsCreationAt(c: CreatedDecision, row: Row, info: Particulars, created: int, executed: int) {
      var name := Ids.DecisionId(c.decisionId);
      && row == Row(c.decisionId, info.signalThreadId, info.actorId, info.decisionType, info.title, info.hypothesis,
                    info.rationale, info.confidence, "active", info.priority, Some(Outcomes(info.expectedOutcomes)),
                    created, executed)
      && c.aggregate == Aggregate(name, info, Executing, [], created, executed, [])
      && c.events == [DecisionProposed(name, info.title, info.confidence, info.decisionType),
                      DecisionApproved(name, "system"), StatusChanged(name, Approved, Executing)]
    }

    ghost function Tried(r: Result<Option<CreatedDecision>, Error>): set<int> {
      if r.Success? && r.value.Some? then {r.value.value.decisionId} else {}
    }

    /** Read an id and walk a proposal under it to executing. */
    method Prepare(info: Particulars, t1: int, t2: int, t3: int) returns (r: Result<DecisionAggregate, Error>, id: int)
      requires Valid()
      modifies store`failures
      ensures store.failures == old(store.failures) + if r.Failure? && r.error.Infrastructure? then 1 else 0
      ensures r.Success? ==>
                && Decimal.IsI64(id) && IsNextId(store.decisions.Keys, id) && ValidProposal(info)
                && fresh(r.value) && r.value.View() == Created(id, info, t1, t2, t3) && r.value.id == Ids.DecisionId(id)
      ensures r.Failure? ==> r.error.Infrastructure? || (!ValidProposal(info) && r.error == ProposalError(info))
    {
      var next := store.NextDecisionId();
      if next.Failure? {
        return Failure(next.error), 0;
      }
      id := next.value;
      r := Walk(id, info, t1, t2, t3);
      CreatedIsExecuting(id, info, t1, t2, t3);
    }

    /** Insert the walked decision or be refused; the events come out after the insert. */
    method Offer(decision: DecisionAggregate, id: int, info: Particulars, ghost t1: int, ghost t2: int, ghost t3: int)
      returns (r: Result<Option<CreatedDecision>, Error>)
      requires Valid() && Decimal.IsI64(id)
      requires decision.View() == Created(id, info, t1, t2, t3) && decision.id == Ids.DecisionId(id)
      modifies decision, store`decisions, store`failures, store`offers
      ensures Valid()
      ensures store.decisions.Keys == old(store.decisions.Keys) + Tried(r)
      ensures r.Success? ==> if id in old(store.decisions) then r.value.None? else r.value.Some? && r.value.value.decisionId == id
      ensures r.Success? && r.value.Some? ==> IsCreation(r.value.value, store.decisions[id], info)
      ensures r.Failure? ==> r.error.Infrastructure?
      ensures store.offers == old(store.offers) + 1
      ensures store.failures == old(store.failures) + if r.Failure? && r.error.Infrastructure? then 1 else 0
    {
      RowRoundTrip(decision.View(), id);
      CreatedIsExecuting(id, info, t1, t2, t3);
      var saved := repo.SaveNew(decision.View());
      if saved.Failure? {
        return Failure(saved.error);
      }
      if !saved.value {
        return Success(None);
      }
      assert store.decisions.Keys == old(store.decisions.Keys) + {id};
      var events := decision.DrainEvents();
      r := Success(Some(CreatedDecision(id, decision.View(), events)));
      assert IsCreationAt(r.value.value, store.decisions[id], info, t1, t3);
    }

    /** One attempt: read an id, walk, insert or be refused. None means refused. */
    method TryCreate(info: Particulars, t1: int, t2: int, t3: int)
      returns (r: Result<Option<CreatedDecision>, Error>, ghost lost: int)
      requires Valid()
      modifies store
      ensures Valid()
      ensures Grew(old(store.decisions.Keys), old(store.foreign), store.decisions.Keys, store.foreign, Tried(r))
      ensures r.Success? ==> ValidProposal(info)
      ensures r.Success? && r.value.Some? ==>
                IsCreation(r.value.value, store.decisions[r.value.value.decisionId], info)
      ensures r.Success? && r.value.None? ==> lost in store.foreign - old(store.foreign)
      ensures r.Failure? ==> r.error.Infrastructure? || (!ValidProposal(info) && r.error == ProposalError(info))
      ensures store.offers <= old(store.offers) + 1 && (r.Success? ==> store.offers == old(store.offers) + 1)
      ensures store.failures == old(store.failures) + if r.Failure? && r.error.Infrastructure? then 1 else 0
    {
      ghost var ids0, foreign0 := store.decisions.Keys, store.foreign;
      store.OtherRequests();
      ghost var ids1, foreign1 := store.decisions.Keys, store.foreign;
      var prepared, id := Prepare(info, t1, t2, t3);
      lost := id;
      if prepared.Failure? {
        return Failure(prepared.error), lost;
      }
      var decision := prepared.value;
      store.OtherRequests();
      ghost var ids2, foreign2 := store.decisions.Keys, store.foreign;
      GrewThen(ids0, foreign0, ids1, foreign1, ids2, foreign2, {});
      r := Offer(decision, id, info, t1, t2, t3);
    }

    /**
     Create while other requests run between any two store calls. The request adds its own row or
     none; it gives up with a conflict only after four other rows came in, and with an error of the
     infrastructure only when a store call failed, so otherwise it succeeds; its row is new, and the
     events come out after the row is written.
    */
    method Create(info: Particulars, clock: nat -> int) returns (r: Result<CreatedDecision, Error>)
      requires Valid()
      modifies store
      ensures Valid()
      ensures Grew(old(store.decisions.Keys), old(store.foreign), store.decisions.Keys, store.foreign,
                   if r.Success? then {r.value.decisionId} else {})
      ensures r.Success? ==> IsCreation(r.value, store.decisions[r.value.decisionId], info)
      ensures r.Failure? && r.error.Conflict? ==> |store.foreign - old(store.foreign)| >= CREATE_RETRIES
      ensures r.Failure? && ValidProposal(info) ==> r.error.Conflict? || r.error.Infrastructure?
      ensures !ValidProposal(info) ==> r.Failure? && (r.error.Infrastructure? || r.error == ProposalError(info))
      ensures store.offers <= old(store.offers) + CREATE_RETRIES
      ensures store.failures == old(store.failures) + if r.Failure? && r.error.Infrastructure? then 1 else 0
      ensures ValidProposal(info) && store.failures == old(store.failures) ==>
                r.Success? || |store.foreign - old(store.foreign)| >= CREATE_RETRIES
    {
      ghost var ids0, foreign0 := store.decisions.Keys, store.foreign;
      ghost var refused: set<int> := {};
      for attempt := 0 to CREATE_RETRIES
        invariant Valid() && store.failures == old(store.failures) && store.offers == old(store.offers) + attempt
        invariant Grew(ids0, foreign0, store.decisions.Keys, store.foreign, {})
        invariant Refused(refused, foreign0, store.foreign, attempt)
        invariant attempt > 0 ==> ValidProposal(info)
      {
        ghost var ids1, foreign1 := store.decisions.Keys, store.foreign;
        var tried;
        ghost var lost;
        tried, lost := TryCreate(info, clock(3 * attempt), clock(3 * attempt + 1), clock(3 * attempt + 2));
        GrewThen(ids0, foreign0, ids1, foreign1, store.decisions.Keys, store.foreign, Tried(tried));
        if tried.Failure? {
          return Failure(tried.error);
        }
        if tried.value.Some? {
          return Success(tried.value.value);
        }
        AnotherRefusal(refused, foreign0, foreign1, store.foreign, lost, attempt);
        refused := refused + {lost};
      }
      SubsetSize(refused, store.foreign - foreign0);
      return Failure(Conflict("decision id allocation exhausted after repeated create collisions"));
    }

    /** The aggregate of a row, hydrated with the outcomes on file. */
    method Load(decisionId: int) returns (r: Result<DecisionAggregate, Error>, ghost l: seq<OutcomeFact>)
      requires Valid() && Decimal.IsI64(decisionId)
      modifies store`failures
      ensures store.failures == old(store.failures) + if r.Failure? && r.error.Infrastructure? then 1 else 0
      ensures r.Success? ==>
                && fresh(r.value) && decisionId in store.decisions && Listed(l, store.outcomes, decisionId)
                && r.value.View() == FromStore(store.decisions[decisionId], Observations(l))
      ensures r.Failure? ==> r.error.Infrastructure? || (r.error.NotFound? && decisionId !in store.decisions)
    {
      Ids.D1IdOfDecisionId(decisionId);
      var found;
      found, l := repo.Find(Ids.DecisionId(decisionId));
      if found.Failure? {
        return Failure(found.error), l;
      }
      if found.value.None? {
        return Failure(NotFound(Ids.DecisionId(decisionId))), l;
      }
      var decision := new DecisionAggregate.Reconstruct(found.value.value);
      return Success(decision), l;
    }

    method Give(decision: DecisionAggregate, command: LifecycleCommand, now: int) returns (r: Result<(), Error>)
      modifies decision
      ensures decision.View() == After(old(decision.View()), AsCommand(command), now)
      ensures r == Answer(old(decision.View()), AsCommand(command))
    {
      match command {
        case ToApprove => r := decision.Approve("system", now);
        case ToExecute => r := decision.Execute(now);
        case ToComplete => r := decision.Complete(now);
        case ToInvalidate(reason) => r := decision.Invalidate(reason, now);
      }
    }

    /** Give the command, save the row, hand out the event. */
    method GiveAndSave(decision: DecisionAggregate, key: int, command: LifecycleCommand, now: int)
      returns (r: Result<seq<Event>, Error>)
      requires Valid() && key in store.decisions
      requires decision.View() == FromStore(store.decisions[key], decision.observedOutcomes)
      modifies decision, store`decisions, store`failures
      ensures Valid()
      ensures r.Failure? ==>
                && store.decisions == old(store.decisions)
                && (r.error.Infrastructure? || Answer(old(decision.View()), AsCommand(command)) == Failure(r.error))
      ensures store.failures == old(store.failures) + if r.Failure? && r.error.Infrastructure? then 1 else 0
      ensures r.Success? ==>
                && decision.View() == After(old(decision.View()), AsCommand(command), now).(events := [])
                && r.value == Emitted(old(decision.View()), AsCommand(command))
      ensures r.Success? ==> WasAccepted(command, old(decision.View()), r.value, old(store.decisions), store.decisions, key, now)
    {
      ghost var before, rows := decision.View(), store.decisions;
      var answer := Give(decision, command, now);
      if answer.Failure? {
        return Failure(answer.error);
      }
      RowRoundTrip(decision.View(), key);
      AcceptedIsSaved(before, command, now, key, rows);
      var saved := repo.Save(decision.View());
      if saved.Failure? {
        return Failure(saved.error);
      }
      var events := decision.DrainEvents();
      return Success(events);
    }

    /** Load, command, save. A decision already at the target is a success that writes nothing. */
    method Transition(decisionId: int, command: LifecycleCommand, now: int)
      returns (r: Result<LifecycleTransition, Error>, ghost before: Aggregate, ghost l: seq<OutcomeFact>)
      requires Valid() && Decimal.IsI64(decisionId)
      modifies store`decisions, store`failures
      ensures Valid()
      ensures r.Failure? ==> store.decisions == old(store.decisions)
      ensures decisionId !in old(store.decisions) ==> r.Failure? && (r.error.NotFound? || r.error.Infrastructure?)
      ensures r.Success? || (decisionId in old(store.decisions) && !r.error.Infrastructure?) ==>
                && decisionId in old(store.decisions) && Listed(l, store.outcomes, decisionId)
                && before == FromStore(old(store.decisions)[decisionId], Observations(l))
      ensures r.Success? && AsksFor(command, before.status) ==>
                r.value == LifecycleTransition(decisionId, before, [], false) && store.decisions == old(store.decisions)
      ensures r.Success? && !AsksFor(command, before.status) ==>
                && r.value == LifecycleTransition(decisionId, After(before, AsCommand(command), now).(events := []),
                                                  Emitted(before, AsCommand(command)), true)
                && WasAccepted(command, before, r.value.events, old(store.decisions), store.decisions, decisionId, now)
      ensures r.Success? ==>
                && decisionId in store.decisions && AsksFor(command, StatusFromD1(store.decisions[decisionId].status))
                && AsksFor(command, r.value.aggregate.status)
                && r.value.transitioned == !AsksFor(command, StatusFromD1(old(store.decisions)[decisionId].status))
      ensures r.Failure? && !r.error.Infrastructure? && decisionId in old(store.decisions) ==>
                && !AsksFor(command, before.status) && !MayFollow(command, before.status, |before.observed|)
                && Answer(before, AsCommand(command)) == Failure(r.error)
      ensures store.failures == old(store.failures) + if r.Failure? && r.error.Infrastructure? then 1 else 0
    {
      var loaded;
      loaded, l := Load(decisionId);
      before := FromStore(Row(0, None, None, "", "", None, None, 0.0, "", "", None, 0, 0), []);
      if loaded.Failure? {
        return Failure(loaded.error), before, l;
      }
      var decision := loaded.value;
      before := decision.View();
      CommandsAreAsked(before, command, now);
      if Some(decision.status) == Target(AsCommand(command)) {
        return Success(LifecycleTransition(decisionId, decision.View(), [], false)), before, l;
      }
      var given := GiveAndSave(decision, decisionId, command, now);
      if given.Failure? {
        return Failure(given.error), before, l;
      }
      return Success(LifecycleTransition(decisionId, decision.View(), given.value, true)), before, l;
    }

    /** Attach the observation and complete: on an executing decision neither is refused. */
    method CompleteWith(decision: DecisionAggregate, outcome: ObservedOutcome, now: int)
      requires decision.status == Executing && decision.events == []
      modifies decision
      ensures decision.View() == CompletedBy(old(decision.View()), outcome, now)
    {
      decision.AttachOutcome(outcome, now);
      var completed := decision.Complete(now);
      assert completed.Success?;
    }

    /** Complete with the observation, save the row, hand out the events. */
    method CompleteAndSave(decision: DecisionAggregate, key: int, outcome: ObservedOutcome, now: int)
      returns (r: Result<seq<Event>, Error>)
      requires Valid() && Decimal.IsI64(key) && decision.id == Ids.DecisionId(key) && key in store.decisions
      requires decision.status == Executing && decision.events == [] && decision.createdAt == store.decisions[key].createdAt
      requires decision.info == FromStore(store.decisions[key], []).info
      modifies decision, store`decisions, store`failures
      ensures Valid()
      ensures r.Failure? ==> r.error.Infrastructure? && store.decisions == old(store.decisions)
      ensures store.failures == old(store.failures) + if r.Failure? && r.error.Infrastructure? then 1 else 0
      ensures r.Success? ==>
                && OneRowMoved(old(store.decisions), store.decisions, key, "completed", now)
                && decision.View() == CompletedBy(old(decision.View()), outcome, now).(events := [])
                && r.value == CompletedBy(old(decision.View()), outcome, now).events
    {
      CompleteWith(decision, outcome, now);
      SavedRowMoved(store.decisions, decision.View(), [], key, now);
      var saved := repo.Save(decision.View());
      if saved.Failure? {
        return Failure(saved.error);
      }
      var events := decision.DrainEvents();
      return Success(events);
    }

    /**
     The fact is written first and stays whatever follows. On an executing decision only the store
     can fail; on success the row is completed, the event counts the facts on file, and the
     outcomes in memory are those a later read finds.
    */
    method RecordOutcome(o: NewOutcome, storeNow: int, now: int)
      returns (r: Result<OutcomeRecording, Error>, ghost l: seq<OutcomeFact>)
      requires Valid() && Decimal.IsI64(o.decisionId)
      modifies store`decisions, store`outcomes, store`failures, store`recorded
      ensures Valid()
      ensures r.Failure? ==> store.decisions == old(store.decisions)
      ensures old(store.recorded) <= store.recorded <= old(store.recorded) + 1
      ensures if store.recorded == old(store.recorded) then r.Failure? && store.outcomes == old(store.outcomes)
              else exists id :: store.outcomes == old(store.outcomes) + [FactOf(o, id, storeNow)]
      ensures r.Failure? ==> r.error.Infrastructure? || (r.error.NotFound? && o.decisionId !in old(store.decisions))
      ensures r.Failure? && !r.error.Infrastructure? ==> store.outcomes == old(store.outcomes)
      ensures store.failures == old(store.failures) + if r.Failure? && r.error.Infrastructure? then 1 else 0
      ensures r.Success? ==>
                && o.decisionId in old(store.decisions) && Listed(l, old(store.outcomes), o.decisionId)
                && store.outcomes == old(store.outcomes) + [FactOf(o, r.value.outcomeId, storeNow)]
                && r.value.decisionId == o.decisionId
                && r.value.completed == (StatusFromD1(old(store.decisions)[o.decisionId].status) == Executing)
      ensures r.Success? && !r.value.completed ==>
                && store.decisions == old(store.decisions) && r.value.events == []
                && r.value.aggregate == FromStore(old(store.decisions)[o.decisionId], Observations(l))
      ensures r.Success? && r.value.completed ==>
                && OneRowMoved(old(store.decisions), store.decisions, o.decisionId, "completed", now)
                && r.value.aggregate
                   == FromStore(old(store.decisions)[o.decisionId], Observations(l) + [ObservedOf(o, now)])
                      .(status := Completed, updatedAt := now)
      ensures r.Success? && r.value.completed ==>
                r.value.events == [OutcomeAttached(Ids.DecisionId(o.decisionId), o.outcomeType, Inconclusive),
                                   DecisionCompleted(Ids.DecisionId(o.decisionId), |FactsOf(store.outcomes, o.decisionId)|)]
      ensures r.Success? && r.value.completed && FromOutcome(FactOf(o, r.value.outcomeId, storeNow)) == ObservedOf(o, now) ==>
                multiset(r.value.aggregate.observed) == multiset(Observations(FactsOf(store.outcomes, o.decisionId)))
    {
      var loaded;
      loaded, l := Load(o.decisionId);
      if loaded.Failure? {
        return Failure(loaded.error), l;
      }
      var decision := loaded.value;
      var wasExecuting := decision.status == Executing;
      var fact := store.SaveOutcome(o, storeNow);
      if fact.Failure? {
        return Failure(fact.error), l;
      }
      if !wasExecuting {
        return Success(OutcomeRecording(fact.value, o.decisionId, decision.View(), false, [])), l;
      }
      RecordedObservations(store.decisions[o.decisionId], l, old(store.outcomes), o, fact.value, storeNow, now);
      var completed := CompleteAndSave(decision, o.decisionId, ObservedOf(o, now), now);
      if completed.Failure? {
        return Failure(completed.error), l;
      }
      return Success(OutcomeRecording(fact.value, o.decisionId, decision.View(), true, completed.value)), l;
    }
  }

  lemma CommandsKeepIdentity(a: Aggregate, c: Command, now: int)
    ensures After(a, c, now).id == a.id && After(a, c, now).createdAt == a.createdAt
    ensures !c.Drain? ==> After(a, c, now).events == a.events + Emitted(a, c)
  {}

  lemma WalkIsCreated(id: int, info: Particulars, t1: int, t2: int, t3: int)
    ensures After(After(ProposedAggregate(id, info, t1), Approve("system"), t2), Execute, t3) == Created(id, info, t1, t2, t3)
  {
    var steps: seq<Step> := [(Approve("system"), t2), (Execute, t3)];
    assert steps[1..] == [(Execute, t3)] && steps[1..][1..] == [];
    var q := After(ProposedAggregate(id, info, t1), Approve("system"), t2);
    assert Run(ProposedAggregate(id, info, t1), steps) == Run(q, steps[1..]) == Run(After(q, Execute, t3), []);
  }

  function CompletionEvents(o: NewOutcome, count: nat): seq<Event> {
    var name := Ids.DecisionId(o.decisionId);
    [OutcomeAttached(name, o.outcomeType, Inconclusive), DecisionCompleted(name, count)]
  }

  /**
   Completing with the observation just recorded: the event counts the facts on file, and the
   outcomes in memory are, up to order, what a later read makes of the facts.
  */
  lemma RecordedObservations(
    row: Row, l: seq<OutcomeFact>, facts: seq<OutcomeFact>, o: NewOutcome, id: int, storeNow: int, now: int)
    requires Listed(l, facts, o.decisionId) && row.id == o.decisionId
    ensures var mine := FactsOf(facts + [FactOf(o, id, storeNow)], o.decisionId);
            var a := CompletedBy(FromStore(row, Observations(l)), ObservedOf(o, now), now);
            && a.events == CompletionEvents(o, |mine|)
            && (FromOutcome(FactOf(o, id, storeNow)) == ObservedOf(o, now) ==>
                  multiset(a.observed) == multiset(Observations(mine)))
  {
    var f := FactOf(o, id, storeNow);
    var mine := FactsOf(facts, o.decisionId);
    FactsOfAppend(facts, f, o.decisionId);
    ObservationsOfPermutation(l, mine);
    ObservationsAppend(mine, f);
  }
}
