/**
 Transitions and outcome recordings of any number of requests, with every store access a step of
 its own: the row read, the outcome read, the fact insert and the row save. A request may save an
 aggregate that other requests have since overtaken, and it may stop at any point.
*/
module StaleSaves {
  import opened Wrappers
  import opened DecisionEngine
  import opened DecisionStore
  import opened DecisionService
  import Decimal
  import Ids

  // ----- states

  datatype Job = Transit(command: LifecycleCommand) | Record(outcome: NewOutcome)

  /** `seen` is the row the request read. */
  datatype Phase =
    | Begun
    | HasRow(seen: Row)
    | Loaded(seen: Row, aggregate: Aggregate)
    | Saving(seen: Row, changed: Aggregate)
    | Over

  datatype Client = Client(key: int, job: Job, phase: Phase)

  datatype State = State(rows: Rows, facts: seq<OutcomeFact>, clients: map<nat, Client>)

  function StatusOf(row: Row): Status {
    StatusFromD1(row.status)
  }

  // ----- steps

  datatype Step =
    | Create(row: Row)
    | Begin(client: nat, key: int, job: Job)
    | ReadRow(client: nat)
    | ReadFacts(client: nat, l: seq<OutcomeFact>)
    | Decide(client: nat, now: int)
    | SaveFact(client: nat, factId: int, storeNow: int, now: int)
    | SaveRow(client: nat)
    | Stop(client: nat)

  ghost predicate Enabled(s: State, step: Step) {
    match step
    case Create(row) => row.id !in s.rows && Decimal.IsI64(row.id) && StatusOf(row) == Executing
    case Begin(c, key, job) => c !in s.clients && Decimal.IsI64(key) && (job.Record? ==> job.outcome.decisionId == key)
    case ReadRow(c) => c in s.clients && s.clients[c].phase.Begun?
    case ReadFacts(c, l) => c in s.clients && s.clients[c].phase.HasRow? && Listed(l, s.facts, s.clients[c].key)
    case Decide(c, _) => c in s.clients && s.clients[c].phase.Loaded? && s.clients[c].job.Transit?
    case SaveFact(c, _, _, _) => c in s.clients && s.clients[c].phase.Loaded? && s.clients[c].job.Record?
    case SaveRow(c) => c in s.clients && s.clients[c].phase.Saving? && IntoRow(s.clients[c].phase.changed).Success?
    case Stop(c) => c in s.clients
  }

  /** What a transition does with the aggregate it loaded. */
  function Decided(seen: Row, a: Aggregate, command: LifecycleCommand, now: int): Phase {
    if Target(AsCommand(command)) == Some(a.status) || Answer(a, AsCommand(command)).Failure? then Over
    else Saving(seen, After(a, AsCommand(command), now))
  }

  /** What a recording does once its fact is on file. */
  function Recorded(seen: Row, a: Aggregate, o: NewOutcome, now: int): Phase {
    if a.status == Executing then Saving(seen, CompletedBy(a, ObservedOf(o, now), now)) else Over
  }

  /** The phase a request enters by its step. */
  ghost function PhaseAfter(s: State, step: Step): Phase
    requires Enabled(s, step) && !step.Create? && !step.Begin?
  {
    var c := s.clients[step.client];
    match step
    case ReadRow(_) => if c.key in s.rows then HasRow(s.rows[c.key]) else Over
    case ReadFacts(_, l) => Loaded(c.phase.seen, FromStore(c.phase.seen, Observations(l)))
    case Decide(_, now) => Decided(c.phase.seen, c.phase.aggregate, c.job.command, now)
    case SaveFact(_, _, _, now) => Recorded(c.phase.seen, c.phase.aggregate, c.job.outcome, now)
    case SaveRow(_) => Over
    case Stop(_) => Over
  }

  ghost function ClientsAfter(s: State, step: Step): map<nat, Client>
    requires Enabled(s, step)
  {
    match step
    case Create(_) => s.clients
    case Begin(c, key, job) => s.clients[c := Client(key, job, Begun)]
    case _ => s.clients[step.client := s.clients[step.client].(phase := PhaseAfter(s, step))]
  }

  ghost function FactsAfter(s: State, step: Step): seq<OutcomeFact>
    requires Enabled(s, step)
  {
    if step.SaveFact? then s.facts + [FactOf(s.clients[step.client].job.outcome, step.factId, step.storeNow)]
    else s.facts
  }

  ghost function RowsAfter(s: State, step: Step): Rows
    requires Enabled(s, step)
  {
    match step
    case Create(row) => s.rows[row.id := row]
    case SaveRow(c) => Upserted(s.rows, IntoRow(s.clients[c].phase.changed).value)
    case _ => s.rows
  }

  ghost function Apply(s: State, step: Step): State
    requires Enabled(s, step)
  {
    State(RowsAfter(s, step), FactsAfter(s, step), ClientsAfter(s, step))
  }

  ghost predicate Legal(s: State, run: seq<Step>)
    decreases |run|
  {
    run != [] ==> Enabled(s, run[0]) && Legal(Apply(s, run[0]), run[1..])
  }

  ghost function End(s: State, run: seq<Step>): State
    requires Legal(s, run)
    decreases |run|
  {
    if run == [] then s else End(Apply(s, run[0]), run[1..])
  }

  // ----- what every step keeps

  predicate HasFact(facts: seq<OutcomeFact>, key: int) {
    FactsOf(facts, key) != []
  }

  predicate CompletedHaveFacts(s: State) {
    forall id :: id in s.rows && StatusOf(s.rows[id]) == Completed ==> HasFact(s.facts, id)
  }

  /** What a request holds in memory is backed by the facts on file and by the row it read. */
  predicate ClientOk(facts: seq<OutcomeFact>, c: Client) {
    && Decimal.IsI64(c.key)
    && (c.job.Record? ==> c.job.outcome.decisionId == c.key)
    && PhaseOk(facts, c.key, c.phase)
  }

  predicate PhaseOk(facts: seq<OutcomeFact>, key: int, phase: Phase) {
    match phase
    case Begun => true
    case HasRow(seen) => seen.id == key
    case Loaded(seen, a) =>
      && seen.id == key && a.id == Ids.DecisionId(key) && a.status == StatusOf(seen)
      && (a.observed != [] ==> HasFact(facts, key))
    case Saving(seen, a) =>
      && seen.id == key && a.id == Ids.DecisionId(key) && CanTransitionTo(StatusOf(seen), a.status)
      && (a.status == Completed ==> HasFact(facts, key))
    case Over => true
  }

  predicate ClientsOk(s: State) {
    forall c :: c in s.clients ==> ClientOk(s.facts, s.clients[c])
  }

  predicate Inv(s: State) {
    KeyedById(s.rows) && CompletedHaveFacts(s) && ClientsOk(s)
  }

  lemma FactsOnlyGrow(facts: seq<OutcomeFact>, f: OutcomeFact, key: int)
    ensures HasFact(facts, key) ==> HasFact(facts + [f], key)
    ensures f.decisionId == key ==> HasFact(facts + [f], key)
  {
    FactsOfAppend(facts, f, key);
  }

  lemma LoadedIsOk(facts: seq<OutcomeFact>, key: int, seen: Row, l: seq<OutcomeFact>)
    requires seen.id == key && Listed(l, facts, key)
    ensures PhaseOk(facts, key, Loaded(seen, FromStore(seen, Observations(l))))
  {
    assert |l| == |multiset(l)| == |multiset(FactsOf(facts, key))| == |FactsOf(facts, key)|;
  }

  lemma DecidedIsOk(facts: seq<OutcomeFact>, key: int, seen: Row, a: Aggregate, command: LifecycleCommand, now: int)
    requires PhaseOk(facts, key, Loaded(seen, a))
    ensures PhaseOk(facts, key, Decided(seen, a, command, now))
  {}

  lemma RecordedIsOk(facts: seq<OutcomeFact>, key: int, seen: Row, a: Aggregate, o: NewOutcome, now: int)
    requires PhaseOk(facts, key, Loaded(seen, a)) && HasFact(facts, key)
    ensures PhaseOk(facts, key, Recorded(seen, a, o, now))
  {}

  lemma MoreFactsKeepPhaseOk(facts: seq<OutcomeFact>, f: OutcomeFact, key: int, phase: Phase)
    requires PhaseOk(facts, key, phase)
    ensures PhaseOk(facts + [f], key, phase)
  {
    FactsOnlyGrow(facts, f, key);
  }

  lemma StepKeepsActor(s: State, step: Step)
    requires Inv(s) && Enabled(s, step) && !step.Create? && !step.Begin?
    ensures PhaseOk(FactsAfter(s, step), s.clients[step.client].key, PhaseAfter(s, step))
  {
    var c := s.clients[step.client];
    assert ClientOk(s.facts, c);
    match step {
      case ReadFacts(_, l) => LoadedIsOk(s.facts, c.key, c.phase.seen, l);
      case Decide(_, now) => DecidedIsOk(s.facts, c.key, c.phase.seen, c.phase.aggregate, c.job.command, now);
      case SaveFact(_, id, storeNow, now) =>
        var f := FactOf(c.job.outcome, id, storeNow);
        FactsOnlyGrow(s.facts, f, c.key);
        MoreFactsKeepPhaseOk(s.facts, f, c.key, c.phase);
        RecordedIsOk(s.facts + [f], c.key, c.phase.seen, c.phase.aggregate, c.job.outcome, now);
      case _ =>
    }
  }

  lemma StepKeepsClientsOk(s: State, step: Step)
    requires Inv(s) && Enabled(s, step)
    ensures ClientsOk(Apply(s, step))
  {
    var t := Apply(s, step);
    if !step.Create? && !step.Begin? {
      StepKeepsActor(s, step);
    }
    forall c | c in t.clients ensures ClientOk(t.facts, t.clients[c]) {
      if c in s.clients {
        assert ClientOk(s.facts, s.clients[c]);
        if step.SaveFact? {
          MoreFactsKeepPhaseOk(s.facts, FactOf(s.clients[step.client].job.outcome, step.factId, step.storeNow),
                               s.clients[c].key, s.clients[c].phase);
        }
      }
    }
  }

  /** What a save writes: the status of the changed aggregate into its own row, no other row. */
  lemma SaveWrites(s: State, c: nat)
    requires Inv(s) && Enabled(s, SaveRow(c))
    ensures var client, rows := s.clients[c], Apply(s, SaveRow(c)).rows;
            && ClientOk(s.facts, client)
            && KeyedById(rows) && client.key in rows
            && StatusOf(rows[client.key]) == client.phase.changed.status
            && rows == s.rows[client.key := rows[client.key]]
  {
    var client := s.clients[c];
    assert ClientOk(s.facts, client);
    RowRoundTrip(client.phase.changed, client.key);
    StatusNamesRoundTrip(client.phase.changed.status);
  }

  lemma StepKeepsCompletedHaveFacts(s: State, step: Step)
    requires Inv(s) && Enabled(s, step)
    ensures KeyedById(Apply(s, step).rows) && CompletedHaveFacts(Apply(s, step))
  {
    match step {
      case SaveRow(c) =>
        SaveWrites(s, c);
      case SaveFact(c, factId, storeNow, _) =>
        forall id | id in s.rows && HasFact(s.facts, id) ensures HasFact(Apply(s, step).facts, id) {
          FactsOnlyGrow(s.facts, FactOf(s.clients[c].job.outcome, factId, storeNow), id);
        }
      case _ =>
    }
  }

  // ----- whole runs

  /**
   In every interleaving, with stale aggregates and with failures at any step, a completed row
   has an outcome fact on file.
  */
  lemma {:induction false} CompletedAlwaysHasAFact(s: State, run: seq<Step>)
    requires Inv(s) && Legal(s, run)
    ensures Inv(End(s, run))
    ensures forall id :: id in End(s, run).rows && StatusOf(End(s, run).rows[id]) == Completed ==>
                           exists f :: f in End(s, run).facts && f.decisionId == id
    decreases |run|
  {
    if run == [] {
      forall id | id in s.rows && StatusOf(s.rows[id]) == Completed ensures exists f :: f in s.facts && f.decisionId == id {
        FactsAreOnFile(s.facts, id);
        assert FactsOf(s.facts, id)[0] in FactsOf(s.facts, id);
      }
    } else {
      StepKeepsClientsOk(s, run[0]);
      StepKeepsCompletedHaveFacts(s, run[0]);
      CompletedAlwaysHasAFact(Apply(s, run[0]), run[1..]);
    }
  }

  lemma {:induction false} FactsAreOnFile(facts: seq<OutcomeFact>, key: int)
    ensures forall f :: f in FactsOf(facts, key) <==> f in facts && f.decisionId == key
  {
    if facts != [] {
      FactsAreOnFile(facts[..|facts| - 1], key);
      assert facts == facts[..|facts| - 1] + [facts[|facts| - 1]];
    }
  }

  // ----- the lifecycle under interleaving

  /** The row is still as the request read it. */
  predicate Fresh(s: State, c: nat) {
    && c in s.clients && s.clients[c].phase.Saving?
    && s.clients[c].key in s.rows
    && StatusOf(s.rows[s.clients[c].key]) == StatusOf(s.clients[c].phase.seen)
  }

  /**
   A save follows the lifecycle exactly when the row still has the status the request read, or
   the request invalidates and the row is one of the two that may be invalidated.
  */
  lemma SaveFollowsLifecycleIff(s: State, c: nat)
    requires Inv(s) && Enabled(s, SaveRow(c)) && s.clients[c].key in s.rows
    ensures var key := s.clients[c].key;
            var before, after := StatusOf(s.rows[key]), StatusOf(Apply(s, SaveRow(c)).rows[key]);
            CanTransitionTo(before, after)
            <==> Fresh(s, c) || (after == Invalidated && (before == Proposed || before == Executing))
  {
    SaveWrites(s, c);
  }

  /** No save of the run is stale. */
  ghost predicate NeverStale(s: State, run: seq<Step>)
    requires Legal(s, run)
    decreases |run|
  {
    run != [] ==> (run[0].SaveRow? ==> Fresh(s, run[0].client)) && NeverStale(Apply(s, run[0]), run[1..])
  }

  /** The saves of one row in a run. */
  ghost function Saves(s: State, run: seq<Step>, id: int): nat
    requires Legal(s, run)
    decreases |run|
  {
    if run == [] then 0
    else (if run[0].SaveRow? && s.clients[run[0].client].key == id then 1 else 0) + Saves(Apply(s, run[0]), run[1..], id)
  }

  /**
   When no save is stale, every save of a row costs one step of the lifecycle: four saves at most,
   none of a completed or invalidated row.
  */
  lemma {:induction false} FreshSavesFollowTheLifecycle(s: State, run: seq<Step>, id: int)
    requires Inv(s) && Legal(s, run) && NeverStale(s, run) && id in s.rows
    ensures id in End(s, run).rows
    ensures Saves(s, run, id) + Height(StatusOf(End(s, run).rows[id])) <= Height(StatusOf(s.rows[id]))
    ensures Saves(s, run, id) == 0 ==> End(s, run).rows[id] == s.rows[id]
    decreases |run|
  {
    if run != [] {
      StepKeepsClientsOk(s, run[0]);
      StepKeepsCompletedHaveFacts(s, run[0]);
      if run[0].SaveRow? {
        SaveWrites(s, run[0].client);
      }
      FreshSavesFollowTheLifecycle(Apply(s, run[0]), run[1..], id);
    }
  }

  // ----- the use cases are runs

  lemma OneMore(s: State, step: Step, rest: seq<Step>)
    requires Enabled(s, step) && Legal(Apply(s, step), rest)
    ensures Legal(s, [step] + rest) && End(s, [step] + rest) == End(Apply(s, step), rest)
  {
    assert ([step] + rest)[1..] == rest;
  }

  lemma {:induction false} Joined(s: State, a: seq<Step>, b: seq<Step>)
    requires Legal(s, a) && Legal(End(s, a), b)
    ensures Legal(s, a + b) && End(s, a + b) == End(End(s, a), b)
    decreases |a|
  {
    if a == [] {
      assert a + b == b;
    } else {
      Joined(Apply(s, a[0]), a[1..], b);
      OneMore(s, a[0], a[1..] + b);
      assert a + b == [a[0]] + (a[1..] + b);
    }
  }

  /** What a request leaves when it has decided, undisturbed. */
  function AfterDeciding(s: State, key: int, before: Aggregate, command: LifecycleCommand, now: int): Rows
    requires Decimal.IsI64(key) && before.id == Ids.DecisionId(key)
  {
    RowRoundTrip(After(before, AsCommand(command), now), key);
    if Target(AsCommand(command)) == Some(before.status) || Answer(before, AsCommand(command)).Failure? then s.rows
    else Upserted(s.rows, IntoRow(After(before, AsCommand(command), now)).value)
  }

  /** A request that has read its row and its facts. */
  predicate IsLoaded(s: State, c: nat, key: int, job: Job, before: Aggregate) {
    && c in s.clients && s.clients[c].key == key && s.clients[c].job == job
    && s.clients[c].phase.Loaded? && s.clients[c].phase.aggregate == before
  }

  lemma LoadIsARun(s: State, c: nat, key: int, job: Job, l: seq<OutcomeFact>) returns (run: seq<Step>)
    requires Inv(s) && c !in s.clients && Decimal.IsI64(key) && key in s.rows && Listed(l, s.facts, key)
    requires job.Record? ==> job.outcome.decisionId == key
    ensures Legal(s, run) && End(s, run).rows == s.rows && End(s, run).facts == s.facts
    ensures IsLoaded(End(s, run), c, key, job, FromStore(s.rows[key], Observations(l)))
  {
    var s1 := Apply(s, Begin(c, key, job));
    var s2 := Apply(s1, ReadRow(c));
    OneMore(s2, ReadFacts(c, l), []);
    OneMore(s1, ReadRow(c), [ReadFacts(c, l)]);
    OneMore(s, Begin(c, key, job), [ReadRow(c), ReadFacts(c, l)]);
    run := [Begin(c, key, job)] + [ReadRow(c), ReadFacts(c, l)];
    assert [ReadRow(c)] + [ReadFacts(c, l)] == [ReadRow(c), ReadFacts(c, l)];
  }

  lemma SaveIsARun(s: State, c: nat, key: int, changed: Aggregate)
    requires c in s.clients && s.clients[c].phase.Saving? && s.clients[c].phase.changed == changed
    requires Decimal.IsI64(key) && changed.id == Ids.DecisionId(key)
    ensures Legal(s, [SaveRow(c)]) && IntoRow(changed).Success?
    ensures End(s, [SaveRow(c)]).rows == Upserted(s.rows, IntoRow(changed).value) && End(s, [SaveRow(c)]).facts == s.facts
  {
    RowRoundTrip(changed, key);
    OneMore(s, SaveRow(c), []);
    assert [SaveRow(c)] + [] == [SaveRow(c)];
  }

  lemma DecideIsARun(s: State, c: nat, key: int, command: LifecycleCommand, before: Aggregate, now: int)
    returns (run: seq<Step>)
    requires Decimal.IsI64(key) && before.id == Ids.DecisionId(key) && IsLoaded(s, c, key, Transit(command), before)
    ensures Legal(s, run) && End(s, run).facts == s.facts && End(s, run).rows == AfterDeciding(s, key, before, command, now)
  {
    var t := Apply(s, Decide(c, now));
    run := [Decide(c, now)];
    OneMore(s, Decide(c, now), []);
    assert [Decide(c, now)] + [] == [Decide(c, now)];
    if Target(AsCommand(command)) != Some(before.status) && Answer(before, AsCommand(command)).Success? {
      var changed := After(before, AsCommand(command), now);
      CommandsKeepIdentity(before, AsCommand(command), now);
      SaveIsARun(t, c, key, changed);
      OneMore(s, Decide(c, now), [SaveRow(c)]);
      run := [Decide(c, now)] + [SaveRow(c)];
    }
  }

  /** An undisturbed transition, as the service's contract states it, is a run of the step system. */
  lemma TransitionIsARun(s: State, c: nat, key: int, command: LifecycleCommand, l: seq<OutcomeFact>, now: int)
    returns (run: seq<Step>)
    requires Inv(s) && c !in s.clients && Decimal.IsI64(key) && key in s.rows && Listed(l, s.facts, key)
    ensures FromStore(s.rows[key], Observations(l)).id == Ids.DecisionId(key)
    ensures Legal(s, run) && End(s, run).facts == s.facts
    ensures End(s, run).rows == AfterDeciding(s, key, FromStore(s.rows[key], Observations(l)), command, now)
  {
    var front := LoadIsARun(s, c, key, Transit(command), l);
    var rest := DecideIsARun(End(s, front), c, key, command, FromStore(s.rows[key], Observations(l)), now);
    Joined(s, front, rest);
    run := front + rest;
  }

  lemma RecordIsARun(s: State, c: nat, key: int, o: NewOutcome, before: Aggregate, factId: int, storeNow: int, now: int)
    returns (run: seq<Step>)
    requires Decimal.IsI64(key) && before.id == Ids.DecisionId(key) && IsLoaded(s, c, key, Record(o), before)
    ensures Legal(s, run) && End(s, run).facts == s.facts + [FactOf(o, factId, storeNow)]
    ensures before.status != Executing ==> End(s, run).rows == s.rows
    ensures var changed := CompletedBy(before, ObservedOf(o, now), now);
            before.status == Executing ==> IntoRow(changed).Success? && End(s, run).rows == Upserted(s.rows, IntoRow(changed).value)
  {
    var step := SaveFact(c, factId, storeNow, now);
    var t := Apply(s, step);
    run := [step];
    OneMore(s, step, []);
    assert [step] + [] == [step];
    if before.status == Executing {
      SaveIsARun(t, c, key, CompletedBy(before, ObservedOf(o, now), now));
      OneMore(s, step, [SaveRow(c)]);
      run := [step] + [SaveRow(c)];
    }
  }

  /** An undisturbed recording of an outcome is a run of the step system, too. */
  lemma RecordOutcomeIsARun(
    s: State, c: nat, key: int, o: NewOutcome, l: seq<OutcomeFact>, factId: int, storeNow: int, now: int)
    returns (run: seq<Step>)
    requires Inv(s) && c !in s.clients && Decimal.IsI64(key) && key in s.rows && Listed(l, s.facts, key) && o.decisionId == key
    ensures Legal(s, run) && End(s, run).facts == s.facts + [FactOf(o, factId, storeNow)]
    ensures StatusOf(s.rows[key]) != Executing ==> End(s, run).rows == s.rows
    ensures var changed := CompletedBy(FromStore(s.rows[key], Observations(l)), ObservedOf(o, now), now);
            StatusOf(s.rows[key]) == Executing ==>
              IntoRow(changed).Success? && End(s, run).rows == Upserted(s.rows, IntoRow(changed).value)
  {
    var before := FromStore(s.rows[key], Observations(l));
    var front := LoadIsARun(s, c, key, Record(o), l);
    var rest := RecordIsARun(End(s, front), c, key, o, before, factId, storeNow, now);
    Joined(s, front, rest);
    run := front + rest;
  }

  // ----- a stale save

  /** Request 0 is about to invalidate the executing decision `key`, which has no outcome yet. */
  ghost predicate AboutToInvalidate(s: State, key: int) {
    && Inv(s) && 0 in s.clients && 1 !in s.clients && s.clients[0].key == key
    && s.clients[0].phase.Saving? && s.clients[0].phase.changed.status == Invalidated
    && key in s.rows && StatusOf(s.rows[key]) == Executing && FactsOf(s.facts, key) == []
  }

  function Invalidating(row: Row): Client {
    var job := Transit(ToInvalidate("stale"));
    Client(row.id, job, Saving(row, After(FromStore(row, []), AsCommand(job.command), 0)))
  }

  lemma InvalidatingIsAboutToInvalidate(row: Row)
    requires Decimal.IsI64(row.id) && StatusOf(row) == Executing
    ensures AboutToInvalidate(State(map[row.id := row], [], map[0 := Invalidating(row)]), row.id)
  {}

  lemma InvalidationIsRead(row: Row)
    requires Decimal.IsI64(row.id) && StatusOf(row) == Executing
    ensures var s, job := State(map[row.id := row], [], map[]), Transit(ToInvalidate("stale"));
            var run := [Begin(0, row.id, job), ReadRow(0)];
            Legal(s, run) && End(s, run) == s.(clients := map[0 := Client(row.id, job, HasRow(row))])
  {
    var s, job := State(map[row.id := row], [], map[]), Transit(ToInvalidate("stale"));
    OneMore(Apply(s, Begin(0, row.id, job)), ReadRow(0), []);
    OneMore(s, Begin(0, row.id, job), [ReadRow(0)]);
    assert [Begin(0, row.id, job)] + [ReadRow(0)] == [Begin(0, row.id, job), ReadRow(0)];
  }

  lemma InvalidationIsDecided(row: Row)
    requires Decimal.IsI64(row.id) && StatusOf(row) == Executing
    ensures var s := State(map[row.id := row], [], map[0 := Invalidating(row).(phase := HasRow(row))]);
            var run := [ReadFacts(0, []), Decide(0, 0)];
            Legal(s, run) && End(s, run) == s.(clients := map[0 := Invalidating(row)])
  {
    var s := State(map[row.id := row], [], map[0 := Invalidating(row).(phase := HasRow(row))]);
    assert Listed([], [], row.id);
    OneMore(Apply(s, ReadFacts(0, [])), Decide(0, 0), []);
    OneMore(s, ReadFacts(0, []), [Decide(0, 0)]);
    assert [ReadFacts(0, [])] + [Decide(0, 0)] == [ReadFacts(0, []), Decide(0, 0)];
  }

  lemma InvalidationIsPrepared(row: Row) returns (prefix: seq<Step>)
    requires Decimal.IsI64(row.id) && StatusOf(row) == Executing
    ensures Legal(State(map[row.id := row], [], map[]), prefix)
    ensures End(State(map[row.id := row], [], map[]), prefix) == State(map[row.id := row], [], map[0 := Invalidating(row)])
  {
    var a, b := [Begin(0, row.id, Transit(ToInvalidate("stale"))), ReadRow(0)], [ReadFacts(0, []), Decide(0, 0)];
    InvalidationIsRead(row);
    InvalidationIsDecided(row);
    Joined(State(map[row.id := row], [], map[]), a, b);
    prefix := a + b;
  }

  lemma RecordingIsRead(s: State, key: int, o: NewOutcome)
    requires AboutToInvalidate(s, key) && o.decisionId == key
    ensures var run := [Begin(1, key, Record(o)), ReadRow(1)];
            && Legal(s, run)
            && End(s, run) == s.(clients := s.clients[1 := Client(key, Record(o), HasRow(s.rows[key]))])
  {
    OneMore(Apply(s, Begin(1, key, Record(o))), ReadRow(1), []);
    OneMore(s, Begin(1, key, Record(o)), [ReadRow(1)]);
    assert [Begin(1, key, Record(o))] + [ReadRow(1)] == [Begin(1, key, Record(o)), ReadRow(1)];
  }

  lemma RecordingIsSaved(s: State, key: int, o: NewOutcome)
    requires Inv(s) && key in s.rows && StatusOf(s.rows[key]) == Executing && FactsOf(s.facts, key) == []
    requires 1 in s.clients && s.clients[1] == Client(key, Record(o), HasRow(s.rows[key]))
    requires 0 in s.clients
    ensures var run := [ReadFacts(1, []), SaveFact(1, 1, 0, 0), SaveRow(1)];
            && Legal(s, run) && End(s, run).clients[0] == s.clients[0] && key in End(s, run).rows
            && StatusOf(End(s, run).rows[key]) == Completed
  {
    assert Listed([], s.facts, key) && ClientOk(s.facts, s.clients[1]);
    var s1 := Apply(s, ReadFacts(1, []));
    var s2 := Apply(s1, SaveFact(1, 1, 0, 0));
    RowRoundTrip(s2.clients[1].phase.changed, key);
    StatusNamesRoundTrip(Completed);
    OneMore(s2, SaveRow(1), []);
    OneMore(s1, SaveFact(1, 1, 0, 0), [SaveRow(1)]);
    OneMore(s, ReadFacts(1, []), [SaveFact(1, 1, 0, 0), SaveRow(1)]);
    assert [ReadFacts(1, [])] + [SaveFact(1, 1, 0, 0), SaveRow(1)] == [ReadFacts(1, []), SaveFact(1, 1, 0, 0), SaveRow(1)];
  }

  /** Request 1 records an outcome of the decision and completes its row. */
  lemma RecordingCompletes(s: State, key: int, o: NewOutcome) returns (run: seq<Step>)
    requires AboutToInvalidate(s, key) && o.decisionId == key
    ensures Legal(s, run) && Inv(End(s, run))
    ensures key in End(s, run).rows && StatusOf(End(s, run).rows[key]) == Completed
    ensures 0 in End(s, run).clients && End(s, run).clients[0] == s.clients[0]
  {
    var a, b := [Begin(1, key, Record(o)), ReadRow(1)], [ReadFacts(1, []), SaveFact(1, 1, 0, 0), SaveRow(1)];
    RecordingIsRead(s, key, o);
    CompletedAlwaysHasAFact(s, a);
    RecordingIsSaved(End(s, a), key, o);
    Joined(s, a, b);
    run := a + b;
    CompletedAlwaysHasAFact(s, run);
    ClientsStay(s, run, 0);
  }

  lemma {:induction false} ClientsStay(s: State, run: seq<Step>, c: nat)
    requires Legal(s, run) && c in s.clients
    ensures c in End(s, run).clients
    decreases |run|
  {
    if run != [] {
      ClientsStay(Apply(s, run[0]), run[1..], c);
    }
  }

  /**
   Without the freshness the lifecycle breaks: a row leaves Completed, which is terminal, when an
   invalidation read before the completion is saved after it.
  */
  lemma AStaleSaveUndoesACompletion(row: Row, o: NewOutcome) returns (s: State)
    requires Decimal.IsI64(row.id) && StatusOf(row) == Executing && o.decisionId == row.id
    ensures Inv(s) && Enabled(s, SaveRow(0)) && !Fresh(s, 0) && row.id in s.rows
    ensures exists run :: Legal(State(map[row.id := row], [], map[]), run) && End(State(map[row.id := row], [], map[]), run) == s
    ensures StatusOf(s.rows[row.id]) == Completed && StatusOf(Apply(s, SaveRow(0)).rows[row.id]) == Invalidated
  {
    var start := State(map[row.id := row], [], map[]);
    var prefix := InvalidationIsPrepared(row);
    var middle := End(start, prefix);
    InvalidatingIsAboutToInvalidate(row);
    var rest := RecordingCompletes(middle, row.id, o);
    Joined(start, prefix, rest);
    s := End(middle, rest);
    assert ClientOk(s.facts, s.clients[0]);
    RowRoundTrip(s.clients[0].phase.changed, row.id);
    SaveWrites(s, 0);
    assert Legal(start, prefix + rest) && End(start, prefix + rest) == s;
  }
}
