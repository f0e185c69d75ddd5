/**
 The two tables behind a decision, rows and outcome facts, and the repository that maps rows to
 aggregates.
*/
module DecisionStore {
  import opened Wrappers
  import opened DecisionEngine
  import Decimal
  import Ids
  import StableSort

  // ----- rows and facts

  /** A JSON column: the encoding of a list of expected outcomes, or any other text. */
  datatype JsonText = Outcomes(list: seq<ExpectedOutcome>) | Other(text: string)

  datatype Row = Row(
    id: int,
    signalThreadId: Option<int>,
    actorId: Option<int>,
    decisionType: string,
    title: string,
    hypothesis: Option<string>,
    rationale: Option<string>,
    confidence: real,
    status: string,
    priority: string,
    expectedOutcomes: Option<JsonText>,
    createdAt: int,
    updatedAt: int)

  datatype OutcomeFact = OutcomeFact(
    id: int,
    decisionId: int,
    outcomeType: string,
    observation: string,
    evidenceUrl: Option<string>,
    observedAt: int,
    createdAt: int)

  datatype NewOutcome = NewOutcome(
    decisionId: int,
    outcomeType: string,
    observation: string,
    evidenceUrl: Option<string>,
    observedAt: Option<int>)

  type Rows = map<int, Row>

  predicate KeyedById(rows: Rows) {
    forall id :: id in rows ==> rows[id].id == id && Decimal.IsI64(id)
  }

  /** `COALESCE(MAX(id), 0) + 1`. */
  ghost predicate IsNextId(ids: set<int>, next: int) {
    && (forall id :: id in ids ==> id < next)
    && (if ids == {} then next == 1 else next - 1 in ids)
  }

  lemma NextIdIsUnique(ids: set<int>, a: int, b: int)
    requires IsNextId(ids, a) && IsNextId(ids, b)
    ensures a == b && a !in ids
  {}

  lemma NoElementMeansEmpty(ids: set<int>)
    ensures (forall id :: id !in ids) ==> ids == {}
  {
    if forall id :: id !in ids {
      assert ids == {};
    }
  }

  /**
   Between two readings of the table, `own` and the rows of other requests came in, no row left,
   and no id came in twice.
  */
  ghost predicate Grew(ids: set<int>, foreign: set<int>, ids': set<int>, foreign': set<int>, own: set<int>) {
    && foreign <= foreign'
    && ids' == ids + (foreign' - foreign) + own
    && ids !! (foreign' - foreign) !! own
  }

  lemma GrewThen(
    ids0: set<int>, foreign0: set<int>, ids1: set<int>, foreign1: set<int>, ids2: set<int>, foreign2: set<int>,
    own: set<int>)
    requires Grew(ids0, foreign0, ids1, foreign1, {})
    requires Grew(ids1, foreign1, ids2, foreign2, own)
    ensures Grew(ids0, foreign0, ids2, foreign2, own)
  {
    assert foreign2 - foreign0 == (foreign1 - foreign0) + (foreign2 - foreign1);
  }

  /** Insert, or update in place with `created_at` kept from the first insert. */
  function Upserted(rows: Rows, row: Row): Rows {
    rows[row.id := if row.id in rows then row.(createdAt := rows[row.id].createdAt) else row]
  }

  function FactOf(o: NewOutcome, id: int, now: int): OutcomeFact {
    OutcomeFact(id, o.decisionId, o.outcomeType, o.observation, o.evidenceUrl,
                if o.observedAt.Some? then o.observedAt.value else now, now)
  }

  function FactsOf(facts: seq<OutcomeFact>, decisionId: int): seq<OutcomeFact> {
    if facts == [] then []
    else FactsOf(facts[..|facts| - 1], decisionId)
         + (if facts[|facts| - 1].decisionId == decisionId then [facts[|facts| - 1]] else [])
  }

  lemma FactsOfAppend(facts: seq<OutcomeFact>, f: OutcomeFact, decisionId: int)
    ensures FactsOf(facts + [f], decisionId) == FactsOf(facts, decisionId) + (if f.decisionId == decisionId then [f] else [])
  {
    assert (facts + [f])[..|facts|] == facts;
  }

  /** An answer to the outcome query: the facts of one decision, newest observation first. */
  ghost predicate Listed(l: seq<OutcomeFact>, facts: seq<OutcomeFact>, decisionId: int) {
    && multiset(l) == multiset(FactsOf(facts, decisionId))
    && (forall i, j :: 0 <= i < j < |l| ==> l[i].observedAt >= l[j].observedAt)
  }

  function FactTime(f: OutcomeFact): real {
    f.observedAt as real
  }

  function CreatedTime(row: Row): real {
    row.createdAt as real
  }

  /** An answer to the unfiltered list query: the newest rows, each once. */
  ghost predicate IsNewest(l: seq<Row>, rows: Rows, limit: nat) {
    && |l| <= limit && TimesDescend(l)
    && (forall i :: 0 <= i < |l| ==> l[i].id in rows && rows[l[i].id] == l[i])
    && (forall i, j :: 0 <= i < j < |l| ==> l[i].id != l[j].id)
    && (forall id :: id in rows ==>
          rows[id] in l || (|l| == limit && forall i :: 0 <= i < |l| ==> l[i].createdAt >= rows[id].createdAt))
  }

  // ----- the store

  class D1Store {
    var decisions: Rows
    var outcomes: seq<OutcomeFact>
    /** The row ids inserted by requests other than the one under study. */
    ghost var foreign: set<int>
    /** Of the request under study: its failed calls, its offers of a new row, and its saved facts. */
    ghost var failures: nat
    ghost var offers: nat
    ghost var recorded: nat

    ghost predicate Valid()
      reads this
    {
      KeyedById(decisions)
    }

    constructor ()
      ensures Valid() && decisions == map[] && outcomes == [] && foreign == {} && failures == offers == recorded == 0
    {
      decisions, outcomes, foreign := map[], [], {};
      failures, offers, recorded := 0, 0, 0;
    }

    /**
     Any number of steps of other requests: they insert rows and facts and update rows, and they
     delete nothing. Callers know no more than this contract.
    */
    method OtherRequests()
      requires Valid()
      modifies this
      ensures Valid()
      ensures Grew(old(decisions.Keys), old(foreign), decisions.Keys, foreign, {})
      ensures old(outcomes) <= outcomes && failures == old(failures) && offers == old(offers) && recorded == old(recorded)
    {
    }

    method NextDecisionId() returns (r: Result<int, Error>)
      requires Valid()
      modifies this`failures
      ensures r.Success? ==> IsNextId(decisions.Keys, r.value) && Decimal.IsI64(r.value)
      ensures r.Failure? ==> r.error.Infrastructure?
      ensures failures == old(failures) + if r.Failure? then 1 else 0
    {
      var failed: bool := *;
      if failed {
        failures := failures + 1;
        return Failure(Infrastructure("next_decision_id"));
      }
      if decisions == map[] {
        return Success(1);
      }
      var rest := decisions.Keys;
      NoElementMeansEmpty(rest);
      var top :| top in rest;
      while rest != {}
        invariant failures == old(failures) && rest <= decisions.Keys && top in decisions.Keys
        invariant forall id :: id in decisions.Keys && id !in rest ==> id <= top
        decreases rest
      {
        NoElementMeansEmpty(rest);
        var id :| id in rest;
        if id > top {
          top := id;
        }
        rest := rest - {id};
      }
      if top == Decimal.I64_MAX {
        failures := failures + 1;
        return Failure(Infrastructure("id space exhausted"));
      }
      return Success(top + 1);
    }

    method FindDecision(id: int) returns (r: Result<Option<Row>, Error>)
      modifies this`failures
      ensures r.Success? ==> r.value == if id in decisions then Some(decisions[id]) else None
      ensures r.Failure? ==> r.error.Infrastructure?
      ensures failures == old(failures) + if r.Failure? then 1 else 0
    {
      var failed: bool := *;
      if failed {
        failures := failures + 1;
        return Failure(Infrastructure("find_decision"));
      }
      return Success(if id in decisions then Some(decisions[id]) else None);
    }

    method UpsertDecision(row: Row) returns (r: Result<(), Error>)
      requires Valid() && Decimal.IsI64(row.id)
      modifies this`decisions, this`failures
      ensures Valid()
      ensures r.Success? ==> decisions == Upserted(old(decisions), row)
      ensures r.Failure? ==> decisions == old(decisions) && r.error.Infrastructure?
      ensures failures == old(failures) + if r.Failure? then 1 else 0
    {
      var failed: bool := *;
      if failed {
        failures := failures + 1;
        return Failure(Infrastructure("upsert_decision"));
      }
      var createdAt := if row.id in decisions then decisions[row.id].createdAt else row.createdAt;
      decisions := decisions[row.id := row.(createdAt := createdAt)];
      return Success(());
    }

    /** Insert or refuse: false means that the id was taken and nothing was written. */
    method TryInsertDecision(row: Row) returns (r: Result<bool, Error>)
      requires Valid() && Decimal.IsI64(row.id)
      modifies this`decisions, this`failures, this`offers
      ensures Valid()
      ensures r.Success? ==> r.value == (row.id !in old(decisions))
      ensures decisions == if r == Success(true) then old(decisions)[row.id := row] else old(decisions)
      ensures r.Failure? ==> r.error.Infrastructure?
      ensures offers == old(offers) + 1
      ensures failures == old(failures) + if r.Failure? then 1 else 0
    {
      offers := offers + 1;
      var failed: bool := *;
      if failed {
        failures := failures + 1;
        return Failure(Infrastructure("try_insert_decision"));
      }
      if row.id in decisions {
        return Success(false);
      }
      decisions := decisions[row.id := row];
      return Success(true);
    }

    method ListDecisions(limit: nat) returns (r: Result<seq<Row>, Error>)
      requires Valid()
      modifies this`failures
      ensures r.Success? ==> IsNewest(r.value, decisions, limit)
      ensures r.Failure? ==> r.error.Infrastructure?
      ensures failures == old(failures) + if r.Failure? then 1 else 0
    {
      var failed: bool := *;
      if failed {
        failures := failures + 1;
        return Failure(Infrastructure("list_decisions"));
      }
      var l: seq<Row> := [];
      var rest := decisions.Keys;
      while rest != {}
        invariant failures == old(failures) && rest <= decisions.Keys && StableSort.Descending(l, CreatedTime)
        invariant RowsExcept(l, decisions, rest)
        decreases rest
      {
        NoElementMeansEmpty(rest);
        var id :| id in rest;
        StableSort.PlaceKeepsOrder(decisions[id], l, CreatedTime);
        PlacedRow(l, decisions, rest, id);
        l := StableSort.Place(decisions[id], l, CreatedTime);
        rest := rest - {id};
      }
      SortedRowsDescend(l);
      CutIsNewest(l, decisions, limit);
      return Success(l[..if limit < |l| then limit else |l|]);
    }

    method SaveOutcome(o: NewOutcome, now: int) returns (r: Result<int, Error>)
      modifies this`outcomes, this`failures, this`recorded
      ensures recorded == old(recorded) + if r.Success? then 1 else 0
      ensures r.Success? ==> outcomes == old(outcomes) + [FactOf(o, r.value, now)]
      ensures r.Success? ==>
                var at := if o.observedAt.Some? then o.observedAt.value else now;
                outcomes[|outcomes| - 1]
                == OutcomeFact(r.value, o.decisionId, o.outcomeType, o.observation, o.evidenceUrl, at, now)
      ensures r.Failure? ==> outcomes == old(outcomes) && r.error.Infrastructure?
      ensures failures == old(failures) + if r.Failure? then 1 else 0
    {
      var failed: bool := *;
      if failed {
        failures := failures + 1;
        return Failure(Infrastructure("save_outcome"));
      }
      var id := |outcomes| + 1;
      outcomes := outcomes + [FactOf(o, id, now)];
      recorded := recorded + 1;
      return Success(id);
    }

    method ListOutcomes(decisionId: int) returns (r: Result<seq<OutcomeFact>, Error>)
      modifies this`failures
      ensures r.Success? ==> Listed(r.value, outcomes, decisionId)
      ensures r.Failure? ==> r.error.Infrastructure?
      ensures failures == old(failures) + if r.Failure? then 1 else 0
    {
      var failed: bool := *;
      if failed {
        failures := failures + 1;
        return Failure(Infrastructure("list_outcomes"));
      }
      var l: seq<OutcomeFact> := [];
      for i := 0 to |outcomes|
        invariant failures == old(failures) && StableSort.Descending(l, FactTime)
        invariant multiset(l) == multiset(FactsOf(outcomes[..i], decisionId))
      {
        FactsOfAppend(outcomes[..i], outcomes[i], decisionId);
        assert outcomes[..i] + [outcomes[i]] == outcomes[..i + 1];
        if outcomes[i].decisionId == decisionId {
          StableSort.PlaceKeepsOrder(outcomes[i], l, FactTime);
          StableSort.PlacePermutes(outcomes[i], l, FactTime);
          l := StableSort.Place(outcomes[i], l, FactTime);
        }
      }
      assert outcomes[..|outcomes|] == outcomes;
      assert forall i, j :: 0 <= i < j < |l| ==> FactTime(l[i]) >= FactTime(l[j]);
      return Success(l);
    }
  }

  /** The rows outside `rest`, each once. */
  ghost predicate RowsExcept(l: seq<Row>, rows: Rows, rest: set<int>) {
    && KeyedById(rows)
    && (forall i :: 0 <= i < |l| ==> l[i].id in rows && l[i].id !in rest && rows[l[i].id] == l[i])
    && (forall i, j :: 0 <= i < j < |l| ==> l[i].id != l[j].id)
    && (forall id :: id in rows && id !in rest ==> rows[id] in l)
  }

  lemma InsertedRowsAreRows(l: seq<Row>, k: nat, rows: Rows, rest: set<int>, id: int)
    requires RowsExcept(l, rows, rest) && id in rows && id in rest && k <= |l|
    ensures var m := StableSort.Inserted(l, k, rows[id]);
            && (forall i :: 0 <= i < |m| ==> m[i].id in rows && m[i].id !in rest - {id} && rows[m[i].id] == m[i])
            && (forall i, j :: 0 <= i < j < |m| ==> m[i].id != m[j].id)
  {}

  lemma PlacedRow(l: seq<Row>, rows: Rows, rest: set<int>, id: int)
    requires RowsExcept(l, rows, rest) && id in rows && id in rest
    ensures RowsExcept(StableSort.Place(rows[id], l, CreatedTime), rows, rest - {id})
  {
    var k := StableSort.PlaceAt(rows[id], l, CreatedTime);
    InsertedRowsAreRows(l, k, rows, rest, id);
    forall i | i in rows && i !in rest - {id} ensures rows[i] in StableSort.Inserted(l, k, rows[id]) {
      StableSort.InsertedHas(l, k, rows[id], rows[i]);
    }
  }

  predicate TimesDescend(l: seq<Row>) {
    forall i, j :: 0 <= i < j < |l| ==> l[i].createdAt >= l[j].createdAt
  }

  lemma SortedRowsDescend(l: seq<Row>)
    requires StableSort.Descending(l, CreatedTime)
    ensures TimesDescend(l)
  {
    assert forall i, j :: 0 <= i < j < |l| ==> CreatedTime(l[i]) >= CreatedTime(l[j]);
  }

  lemma {:induction false} CutIsNewest(l: seq<Row>, rows: Rows, limit: nat)
    requires RowsExcept(l, rows, {}) && TimesDescend(l)
    ensures IsNewest(l[..if limit < |l| then limit else |l|], rows, limit)
  {
    var cut := l[..if limit < |l| then limit else |l|];
    forall id | id in rows
      ensures rows[id] in cut || (|cut| == limit && forall i :: 0 <= i < |cut| ==> cut[i].createdAt >= rows[id].createdAt)
    {
      var j :| 0 <= j < |l| && l[j] == rows[id];
      if j < |cut| {
        assert cut[j] == rows[id];
      }
    }
  }

  // ----- rows and aggregates

  function StatusToD1(s: Status): string {
    match s
    case Draft => "draft"
    case Proposed => "proposed"
    case Approved => "approved"
    case Executing => "active"
    case Completed => "completed"
    case Invalidated => "superseded"
  }

  function StatusFromD1(s: string): Status {
    if s == "draft" then Draft
    else if s == "proposed" then Proposed
    else if s == "approved" then Approved
    else if s == "active" then Executing
    else if s == "completed" then Completed
    else if s == "superseded" || s == "invalidated" then Invalidated
    else Draft
  }

  function DecodeExpected(column: Option<JsonText>): seq<ExpectedOutcome> {
    if column.Some? && column.value.Outcomes? then column.value.list else []
  }

  function FromOutcome(f: OutcomeFact): ObservedOutcome {
    ObservedOutcome(f.outcomeType, f.observation, Inconclusive, f.evidenceUrl,
                    if f.observedAt > 0 then f.observedAt else f.createdAt)
  }

  function Observations(l: seq<OutcomeFact>): (os: seq<ObservedOutcome>)
    ensures |os| == |l|
  {
    if l == [] then [] else [FromOutcome(l[0])] + Observations(l[1..])
  }

  lemma {:induction false} ObservationsConcat(l: seq<OutcomeFact>, m: seq<OutcomeFact>)
    ensures Observations(l + m) == Observations(l) + Observations(m)
  {
    if l == [] {
      assert l + m == m;
    } else {
      assert (l + m)[1..] == l[1..] + m;
      ObservationsConcat(l[1..], m);
    }
  }

  lemma ObservationsAppend(l: seq<OutcomeFact>, f: OutcomeFact)
    ensures Observations(l + [f]) == Observations(l) + [FromOutcome(f)]
  {
    ObservationsConcat(l, [f]);
    assert [f][1..] == [];
  }

  /** The observations of two orders of one set of facts are the same up to order. */
  lemma {:induction false} ObservationsOfPermutation(l: seq<OutcomeFact>, m: seq<OutcomeFact>)
    requires multiset(l) == multiset(m)
    ensures multiset(Observations(l)) == multiset(Observations(m)) && |l| == |m|
    decreases |l|
  {
    assert |l| == |multiset(l)| == |multiset(m)| == |m|;
    if l != [] {
      var i := FirstMovesTo(l, m);
      var f, a, b := l[0], m[..i], m[i + 1..];
      ObservationsOfPermutation(l[1..], a + b);
      ObservationsAround(a, f, b);
      assert m == a + ([f] + b);
    }
  }

  lemma {:induction false} ObservationsAround(a: seq<OutcomeFact>, f: OutcomeFact, b: seq<OutcomeFact>)
    ensures multiset(Observations(a + ([f] + b))) == multiset(Observations(a + b)) + multiset{FromOutcome(f)}
  {
    ObservationsConcat(a, b);
    ObservationsConcat(a, [f] + b);
    assert ([f] + b)[1..] == b;
    assert Observations([f] + b) == [FromOutcome(f)] + Observations(b);
  }

  lemma FirstMovesTo(l: seq<OutcomeFact>, m: seq<OutcomeFact>) returns (i: nat)
    requires l != [] && multiset(l) == multiset(m)
    ensures i < |m| && m[i] == l[0] && multiset(l[1..]) == multiset(m[..i] + m[i + 1..])
  {
    assert l[0] in multiset(m);
    i :| 0 <= i < |m| && m[i] == l[0];
    assert l == [l[0]] + l[1..] && m == m[..i] + [m[i]] + m[i + 1..];
    assert multiset(m) == multiset(m[..i] + m[i + 1..]) + multiset{l[0]};
    assert multiset(l) == multiset(l[1..]) + multiset{l[0]};
    SumsCancel(multiset(l[1..]), multiset(m[..i] + m[i + 1..]), multiset{l[0]});
  }

  lemma SumsCancel<T>(a: multiset<T>, b: multiset<T>, c: multiset<T>)
    requires a + c == b + c
    ensures a == b
  {
    assert a == a + c - c == b + c - c == b;
  }

  function FromStore(row: Row, observed: seq<ObservedOutcome>): Aggregate {
    Aggregate(
      Ids.DecisionId(row.id),
      Particulars(row.title, row.hypothesis, row.confidence, row.rationale, row.decisionType, row.priority,
                  row.signalThreadId, row.actorId, DecodeExpected(row.expectedOutcomes)),
      StatusFromD1(row.status), observed, row.createdAt, row.updatedAt, [])
  }

  function IntoRow(a: Aggregate): Result<Row, Error> {
    var key := Ids.D1Id(a.id);
    if key.None? then Failure(NotFound(a.id))
    else Success(Row(
      key.value, a.info.signalThreadId, a.info.actorId, a.info.decisionType, a.info.title, a.info.hypothesis,
      a.info.rationale, a.info.confidence, StatusToD1(a.status), a.info.priority,
      Some(Outcomes(a.info.expectedOutcomes)), a.createdAt, a.updatedAt))
  }

  lemma StatusNamesRoundTrip(s: Status)
    ensures StatusFromD1(StatusToD1(s)) == s
  {
    assert |"draft"| == 5 && |"proposed"| == 8 && |"approved"| == 8 && |"active"| == 6;
    assert |"completed"| == 9 && |"superseded"| == 10 && "proposed"[0] != "approved"[0];
  }

  /** Names that are never written: one old name of the last status; every other reads as a draft. */
  lemma OtherNamesRead(name: string)
    requires forall s :: StatusToD1(s) != name
    ensures StatusFromD1(name) == if name == "invalidated" then Invalidated else Draft
  {
    assert StatusToD1(Draft) != name && StatusToD1(Proposed) != name && StatusToD1(Approved) != name;
    assert StatusToD1(Executing) != name && StatusToD1(Completed) != name && StatusToD1(Invalidated) != name;
    assert "invalidated"[0] == 'i' && "draft"[0] == 'd' && "proposed"[0] == 'p' && "active"[0] == 'a';
    assert "completed"[0] == 'c' && "approved"[0] == 'a' && "superseded"[0] == 's';
  }

  /** A stored name survives the trip exactly when it is one of the six the repository writes. */
  lemma StoredNamesRoundTripIff(name: string)
    ensures StatusToD1(StatusFromD1(name)) == name <==> exists s :: StatusToD1(s) == name
  {
    if s :| StatusToD1(s) == name {
      StatusNamesRoundTrip(s);
    }
  }

  /** The advisor's allowlist names exactly the executing and the completed decisions. */
  lemma AllowlistMeansLiveOrDone(s: Status)
    ensures StatusToD1(s) in ["active", "completed"] <==> s == Executing || s == Completed
  {
    StatusNamesRoundTrip(s);
  }

  /** Writing an aggregate and reading it back loses the pending events and nothing else. */
  lemma RowRoundTrip(a: Aggregate, id: int)
    requires Decimal.IsI64(id) && a.id == Ids.DecisionId(id)
    ensures IntoRow(a).Success? && IntoRow(a).value.id == id
    ensures FromStore(IntoRow(a).value, a.observed) == a.(events := [])
  {
    Ids.D1IdOfDecisionId(id);
    StatusNamesRoundTrip(a.status);
  }

  /**
   The repository keeps a map from ids to aggregates: after a save the id yields the saved state
   with the first `created_at` and the outcomes on file, and no other id changes.
  */
  lemma FindAfterSave(rows: Rows, a: Aggregate, id: int, observed: seq<ObservedOutcome>)
    requires KeyedById(rows) && Decimal.IsI64(id) && a.id == Ids.DecisionId(id)
    ensures IntoRow(a).Success?
    ensures var after := Upserted(rows, IntoRow(a).value);
            && KeyedById(after) && after.Keys == rows.Keys + {id}
            && FromStore(after[id], observed)
               == a.(events := [], observed := observed,
                     createdAt := if id in rows then rows[id].createdAt else a.createdAt)
            && forall other :: other in rows && other != id ==> after[other] == rows[other]
  {
    RowRoundTrip(a, id);
  }

  // ----- the repository

  class D1DecisionRepository {
    const store: D1Store

    constructor (store: D1Store)
      ensures this.store == store
    {
      this.store := store;
    }

    method Save(a: Aggregate) returns (r: Result<(), Error>)
      requires store.Valid()
      modifies store`decisions, store`failures
      ensures store.Valid()
      ensures r.Success? ==> IntoRow(a).Success? && store.decisions == Upserted(old(store.decisions), IntoRow(a).value)
      ensures r.Failure? ==> store.decisions == old(store.decisions)
      ensures r.Failure? && IntoRow(a).Success? ==> r.error.Infrastructure?
      ensures store.failures == old(store.failures) + if r.Failure? && IntoRow(a).Success? then 1 else 0
    {
      var row := IntoRow(a);
      if row.Failure? {
        return Failure(row.error);
      }
      ParsedIdsAreI64(a.id);
      r := store.UpsertDecision(row.value);
    }

    method SaveNew(a: Aggregate) returns (r: Result<bool, Error>)
      requires store.Valid()
      modifies store`decisions, store`failures, store`offers
      ensures store.Valid()
      ensures r.Success? ==> IntoRow(a).Success? && r.value == (IntoRow(a).value.id !in old(store.decisions))
      ensures store.decisions == if r == Success(true) then old(store.decisions)[IntoRow(a).value.id := IntoRow(a).value]
                                 else old(store.decisions)
      ensures r.Failure? && IntoRow(a).Success? ==> r.error.Infrastructure?
      ensures store.offers == old(store.offers) + if IntoRow(a).Success? then 1 else 0
      ensures store.failures == old(store.failures) + if r.Failure? && IntoRow(a).Success? then 1 else 0
    {
      var row := IntoRow(a);
      if row.Failure? {
        return Failure(row.error);
      }
      ParsedIdsAreI64(a.id);
      r := store.TryInsertDecision(row.value);
    }

    /** The row of a decision id joined with its facts; None when there is no such row. */
    method Find(id: string) returns (r: Result<Option<Aggregate>, Error>, ghost l: seq<OutcomeFact>)
      requires store.Valid()
      modifies store`failures
      ensures Ids.D1Id(id).None? ==> r == Failure(NotFound(id))
      ensures r.Failure? && Ids.D1Id(id).Some? ==> r.error.Infrastructure?
      ensures store.failures == old(store.failures) + if r.Failure? && Ids.D1Id(id).Some? then 1 else 0
      ensures r.Success? ==>
                var key := Ids.D1Id(id).value;
                if key in store.decisions then
                  Listed(l, store.outcomes, key) && r.value == Some(FromStore(store.decisions[key], Observations(l)))
                else r.value == None
    {
      l := [];
      var key := Ids.D1Id(id);
      if key.None? {
        return Failure(NotFound(id)), l;
      }
      var row := store.FindDecision(key.value);
      if row.Failure? {
        return Failure(row.error), l;
      }
      if row.value.None? {
        return Success(None), l;
      }
      var listed := store.ListOutcomes(row.value.value.id);
      if listed.Failure? {
        return Failure(listed.error), l;
      }
      l := listed.value;
      var observed: seq<ObservedOutcome> := [];
      for i := 0 to |listed.value|
        invariant store.failures == old(store.failures) && observed == Observations(listed.value[..i])
      {
        ObservationsAppend(listed.value[..i], listed.value[i]);
        assert listed.value[..i] + [listed.value[i]] == listed.value[..i + 1];
        observed := observed + [FromOutcome(listed.value[i])];
      }
      assert listed.value[..|listed.value|] == listed.value;
      return Success(Some(FromStore(row.value.value, observed))), l;
    }
  }

  lemma ParsedIdsAreI64(id: string)
    ensures Ids.D1Id(id).Some? ==> Decimal.IsI64(Ids.D1Id(id).value)
  {}
}
