/**
 Reflections: one row a decision, re-opened after a failed attempt until the retry cap, with a
 lease for attempts that never report back.
*/
module Reflection {
  import opened Wrappers

  const MAX_REFLECTION_RETRIES := 3
  const LEASE_SECS := 900

  // ----- rows

  datatype Status = Generating | Generated | Failed

  datatype Row = Row(id: int, decisionId: int, status: Status, retryCount: int, leaseUntil: Option<int>)

  /** An update writes the status and the fields that are given. */
  datatype Update = Update(id: int, status: Status, retryCount: Option<int>, leaseUntil: Option<int>)

  datatype Error = AlreadyTracked(decisionId: int) | Persistence

  predicate IsOpen(row: Row) {
    row.status == Failed && row.retryCount < MAX_REFLECTION_RETRIES
  }

  function Updated(row: Row, u: Update): Row {
    row.(status := u.status,
         retryCount := if u.retryCount.Some? then u.retryCount.value else row.retryCount,
         leaseUntil := if u.leaseUntil.Some? then u.leaseUntil else row.leaseUntil)
  }

  function NewRow(id: int, decisionId: int): Row {
    Row(id, decisionId, Generating, 0, None)
  }

  // ----- the repository

  type Rows = map<int, Row>   // by row id

  /** `UNIQUE(decision_id)`. */
  predicate UniqueDecisions(rows: Rows) {
    forall a, b :: a in rows && b in rows && rows[a].decisionId == rows[b].decisionId ==> a == b
  }

  predicate KeyedById(rows: Rows) {
    forall id :: id in rows ==> rows[id].id == id
  }

  predicate Taken(rows: Rows, decisionId: int) {
    exists id :: id in rows && rows[id].decisionId == decisionId
  }

  /** What `get_reflection_by_decision` may answer. */
  predicate IsLookup(found: Option<Row>, rows: Rows, decisionId: int) {
    if found.Some? then found.value.decisionId == decisionId && found.value.id in rows && rows[found.value.id] == found.value
    else !Taken(rows, decisionId)
  }

  function UpdatedRows(rows: Rows, u: Update): Rows {
    if u.id in rows then rows[u.id := Updated(rows[u.id], u)] else rows
  }

  function Reopening(id: int): Update {
    Update(id, Generating, None, None)
  }

  function Failing(id: int, retryCount: int): Update {
    Update(id, Failed, Some(retryCount), None)
  }

  function Leased(id: int, now: int): Update {
    Update(id, Generating, None, Some(now + LEASE_SECS))
  }

  function Finished(id: int): Update {
    Update(id, Generated, None, None)
  }

  /** Too little context: failed for good. */
  function GivenUp(id: int): Update {
    Failing(id, MAX_REFLECTION_RETRIES)
  }

  /** The scheduler's update of a stale row, as it read it. */
  function Recovered(row: Row): Update {
    Failing(row.id, row.retryCount + 1)
  }

  /** The retry count of a failure: one more than was looked up, zero without a lookup. */
  function RetryAfter(found: Option<Row>): int {
    if found.Some? then found.value.retryCount + 1 else 0
  }

  /** The write of a create: insert unless the decision has a row by now, re-open what was seen open. */
  function Acted(rows: Rows, decisionId: int, seen: Option<Row>, newId: int): Rows {
    if seen.None? then (if Taken(rows, decisionId) then rows else rows[newId := NewRow(newId, decisionId)])
    else if IsOpen(seen.value) then UpdatedRows(rows, Reopening(seen.value.id))
    else rows
  }

  /** Rows come and change, but none goes and none changes its decision. */
  predicate Evolves(rows: Rows, rows': Rows) {
    forall id :: id in rows ==> id in rows' && rows'[id].decisionId == rows[id].decisionId
  }

  class D1ReflectionRepository {
    var rows: Rows
    /** The store calls of the request under study that failed. */
    ghost var failures: nat

    ghost predicate Valid()
      reads this
    {
      KeyedById(rows) && UniqueDecisions(rows)
    }

    /** Any number of steps of other attempts. Callers know no more than this contract. */
    method OtherAttempts()
      requires Valid()
      modifies this
      ensures Valid() && Evolves(old(rows), rows) && failures == old(failures)
    {
    }

    method GetByDecision(decisionId: int) returns (r: Result<Option<Row>, Error>)
      requires Valid()
      modifies this`failures
      ensures r.Success? ==> IsLookup(r.value, rows, decisionId)
      ensures r.Failure? ==> r.error == Persistence
      ensures failures == old(failures) + if r.Failure? then 1 else 0
    {
      var failed: bool := *;
      if failed {
        failures := failures + 1;
        return Failure(Persistence);
      }
      var rest := rows.Keys;
      while rest != {}
        invariant failures == old(failures) && rest <= rows.Keys
        invariant forall id :: id in rows && rows[id].decisionId == decisionId ==> id in rest
        invariant forall id :: id in rest ==> id in rows
        decreases rest
      {
        NoneIn(rest);
        var id :| id in rest;
        if rows[id].decisionId == decisionId {
          return Success(Some(rows[id]));
        }
        rest := rest - {id};
      }
      return Success(None);
    }

    /** Insert, refused when the decision has a row and otherwise only by a failing store. */
    method InsertRow(decisionId: int) returns (r: Result<int, Error>)
      requires Valid()
      modifies this`rows, this`failures
      ensures Valid()
      ensures r.Success? ==>
                r.value !in old(rows) && !Taken(old(rows), decisionId)
                && rows == old(rows)[r.value := Row(r.value, decisionId, Generating, 0, None)]
      ensures r.Failure? ==> rows == old(rows) && r.error == Persistence
      ensures r.Failure? && failures == old(failures) ==> Taken(rows, decisionId)
      ensures r.Success? ==> failures == old(failures)
      ensures failures >= old(failures)
    {
      var taken := GetByDecision(decisionId);
      if taken.Failure? || taken.value.Some? {
        return Failure(Persistence);
      }
      var id := FreshId();
      rows := rows[id := NewRow(id, decisionId)];
      return Success(id);
    }

    method FreshId() returns (id: int)
      ensures id !in rows
    {
      id := 1;
      var rest := rows.Keys;
      while rest != {}
        invariant rest <= rows.Keys && forall k :: k in rows && k !in rest ==> k < id
        decreases rest
      {
        NoneIn(rest);
        var k :| k in rest;
        if k >= id {
          id := k + 1;
        }
        rest := rest - {k};
      }
    }

    /** `UPDATE … WHERE id`: the one row with that id, if there is one, and in it the fields that are given. */
    method UpdateRow(u: Update) returns (ok: bool)
      requires Valid()
      modifies this`rows, this`failures
      ensures Valid()
      ensures rows == if ok then UpdatedRows(old(rows), u) else old(rows)
      ensures ok && u.id in old(rows) ==> IsWritten(old(rows), rows, u)
      ensures failures == old(failures) + if ok then 0 else 1
    {
      ok := *;
      if !ok {
        failures := failures + 1;
      } else if u.id in rows {
        rows := rows[u.id := Updated(rows[u.id], u)];
      }
    }

    /**
     Look up, then insert or re-open, while other attempts run in between. `seen` is the answer of
     the lookup in `looked` and `before` the table at the write: a new row only for a decision without one, a
     re-opened row only when it was seen open, and otherwise no write. A re-opened row keeps its
     retry count and its lease.
    */
    method Create(decisionId: int)
      returns (r: Result<int, Error>, ghost seen: Option<Row>, ghost looked: Rows, ghost before: Rows)
      requires Valid()
      modifies this
      ensures Valid() && Evolves(old(rows), looked) && Evolves(looked, before)
      ensures IsLookup(seen, looked, decisionId) || (r.Failure? && failures > old(failures))
      ensures rows == if r.Success? then Acted(before, decisionId, seen, r.value) else before
      ensures r.Success? && seen.None? ==>
                && !Taken(before, decisionId) && r.value !in before
                && rows == before[r.value := Row(r.value, decisionId, Generating, 0, None)]
      ensures r.Success? && seen.Some? ==>
                && seen.value.status == Failed && seen.value.retryCount < 3 && seen.value.decisionId == decisionId
                && r.value == seen.value.id && r.value in before
                && rows == before[r.value := before[r.value].(status := Generating)]
      ensures r.Failure? && r.error.AlreadyTracked? ==>
                && r.error.decisionId == decisionId && seen.Some? && seen.value.decisionId == decisionId
                && !(seen.value.status == Failed && seen.value.retryCount < 3)
      ensures failures >= old(failures)
      ensures r.Failure? && failures == old(failures) ==>
                r.error.AlreadyTracked? || (seen.None? && Taken(before, decisionId))
    {
      seen := None;
      OtherAttempts();
      looked, before := rows, rows;
      var found := GetByDecision(decisionId);
      if found.Failure? {
        return Failure(Persistence), seen, looked, before;
      }
      seen := found.value;
      ghost var id := if seen.Some? then seen.value.id else 0;
      OtherAttempts();
      before := rows;
      if found.value.Some? {
        var existing := found.value.value;
        if !(existing.status == Failed && existing.retryCount < MAX_REFLECTION_RETRIES) {
          return Failure(AlreadyTracked(decisionId)), seen, looked, before;
        }
        assert id in rows;
        var reopened := UpdateRow(Reopening(existing.id));
        if !reopened {
          return Failure(Persistence), seen, looked, before;
        }
        return Success(existing.id), seen, looked, before;
      }
      r := InsertRow(decisionId);
    }

    /**
     Look the old count up, then write, while other attempts run in between. `seen` is the table at
     the lookup and `before` the one at the write: the count written is one more than the count
     seen, or zero when the lookup failed or found no row, whatever the row holds by then.
    */
    method MarkFailed(id: int, decisionId: int)
      returns (ok: bool, ghost found: Option<Row>, ghost seen: Rows, ghost before: Rows)
      requires Valid()
      modifies this
      ensures Valid() && Evolves(old(rows), seen) && Evolves(seen, before)
      ensures found.Some? ==> IsLookup(found, seen, decisionId)
      ensures found.None? && Taken(seen, decisionId) ==> failures > old(failures)
      ensures !ok ==> failures > old(failures)
      ensures !ok || id !in before ==> rows == before
      ensures ok && id in before ==>
                rows == before[id := before[id].(status := Failed,
                                                 retryCount := if found.Some? then found.value.retryCount + 1 else 0)]
    {
      OtherAttempts();
      var latest := GetByDecision(decisionId);
      found := if latest.Success? then latest.value else None;
      seen := rows;
      var retryCount := if latest.Success? && latest.value.Some? then latest.value.value.retryCount + 1 else 0;
      OtherAttempts();
      before := rows;
      ok := UpdateRow(Update(id, Failed, Some(retryCount), None));
    }
  }

  /** One row changed, and only in the status and the fields that are given. */
  predicate IsWritten(before: Rows, after: Rows, u: Update)
    requires u.id in before
  {
    && u.id in after && after == before[u.id := after[u.id]]
    && after[u.id].id == before[u.id].id && after[u.id].decisionId == before[u.id].decisionId
    && after[u.id].status == u.status
    && after[u.id].retryCount == (if u.retryCount.Some? then u.retryCount.value else before[u.id].retryCount)
    && after[u.id].leaseUntil == (if u.leaseUntil.Some? then u.leaseUntil else before[u.id].leaseUntil)
  }

  lemma NoneIn(ids: set<int>)
    ensures (forall id :: id !in ids) ==> ids == {}
  {
    if forall id :: id !in ids {
      assert ids == {};
    }
  }

  function MarkedFailed(row: Row, lookedUp: bool): Row {
    row.(status := Failed, retryCount := if lookedUp then row.retryCount + 1 else 0)
  }

  // ----- attempts at one decision, each step whole

  /**
   How an attempt ends. Context and model errors leave the row as it is (the source builds the
   update and never runs it), as a crash does.
  */
  datatype Ending =
    | Unreported
    | Incomplete
    | Invalid(lookedUp: bool)
    | Done

  datatype Step =
    | Create(freshId: int, decisionId: int)
    | Lease(now: int)
    | Finish(ending: Ending)
    | Recover(now: int)      // the scheduler fails rows whose lease has run out

  /** The row of the decision and the number of attempts under way. */
  datatype State = State(row: Option<Row>, running: nat)

  predicate CreateSucceeds(s: State) {
    s.row.None? || IsOpen(s.row.value)
  }

  function RowAfter(row: Row, ending: Ending): Row {
    match ending
    case Unreported => row
    case Incomplete => row.(status := Failed, retryCount := 3)
    case Invalid(lookedUp) => MarkedFailed(row, lookedUp)
    case Done => row.(status := Generated)
  }

  predicate IsStale(row: Row, now: int) {
    row.status == Generating && row.leaseUntil.Some? && row.leaseUntil.value < now
  }

  /** A leased row goes stale 900 seconds after the lease was taken, and not before. */
  lemma LeaseRunsOutIff(row: Row, taken: int, now: int)
    ensures IsStale(Updated(row, Leased(row.id, taken)), now) <==> now > taken + 900
    ensures Updated(row, Leased(row.id, taken)).retryCount == row.retryCount
  {}

  function Apply(s: State, step: Step): State {
    match step
    case Create(id, decisionId) =>
      if s.row.None? then State(Some(NewRow(id, decisionId)), s.running + 1)
      else if IsOpen(s.row.value) then State(Some(s.row.value.(status := Generating)), s.running + 1)
      else s
    case Lease(now) =>
      if s.row.None? || s.running == 0 then s
      else s.(row := Some(s.row.value.(status := Generating, leaseUntil := Some(now + LEASE_SECS))))
    case Finish(ending) =>
      if s.row.None? || s.running == 0 then s else State(Some(RowAfter(s.row.value, ending)), s.running - 1)
    case Recover(now) =>
      if s.row.Some? && IsStale(s.row.value, now) then s.(row := Some(MarkedFailed(s.row.value, true))) else s
  }

  function End(s: State, run: seq<Step>): State
    decreases |run|
  {
    if run == [] then s else End(Apply(s, run[0]), run[1..])
  }

  const FRESH := State(None, 0)

  // ----- attempts one after the other

  /** No attempt starts and no row is recovered while an attempt runs. */
  predicate OneAtATime(s: State, run: seq<Step>)
    decreases |run|
  {
    run != [] ==>
      && (run[0].Create? || run[0].Recover? ==> s.running == 0)
      && OneAtATime(Apply(s, run[0]), run[1..])
  }

  predicate Consistent(s: State) {
    && s.running <= 1
    && (s.running == 1 ==> s.row.Some? && s.row.value.status == Generating)
  }

  /** How many creates of a run succeed. */
  function Creates(s: State, run: seq<Step>): nat
    decreases |run|
  {
    if run == [] then 0
    else (if run[0].Create? && CreateSucceeds(s) then 1 else 0) + Creates(Apply(s, run[0]), run[1..])
  }

  predicate Resets(step: Step) {
    step == Finish(Invalid(false))
  }

  /** How many failures of a run were recorded after a failed lookup. */
  function CountResets(run: seq<Step>): nat {
    if run == [] then 0 else (if Resets(run[0]) then 1 else 0) + CountResets(run[1..])
  }

  /** The creates that the row still allows before a failed lookup. */
  function Allowance(s: State): int {
    if s.row.None? then 3
    else
      match s.row.value.status
      case Failed => if s.row.value.retryCount >= 3 then 0 else 3 - s.row.value.retryCount
      case Generating => if s.row.value.retryCount >= 2 then 0 else 2 - s.row.value.retryCount
      case Generated => 0
  }

  /**
   At most three creates succeed, and at most three more for every failure that was recorded
   after a failed lookup.
  */
  lemma {:induction false} CreatesAreBounded(s: State, run: seq<Step>)
    requires Consistent(s) && OneAtATime(s, run)
    requires s.row.Some? ==> 0 <= s.row.value.retryCount
    ensures Creates(s, run) <= Allowance(s) + 3 * CountResets(run)
    decreases |run|
  {
    if run != [] {
      CreatesAreBounded(Apply(s, run[0]), run[1..]);
    }
  }

  /** Create and fail, with the lookup or without it. */
  function FailedAttempt(lookedUp: bool): seq<Step> {
    [Create(1, 1), Finish(Invalid(lookedUp))]
  }

  /** Three attempts; the last one fails without its lookup, and the count is back at zero. */
  function Cycle(): seq<Step> {
    FailedAttempt(true) + (FailedAttempt(true) + FailedAttempt(false))
  }

  function Cycles(k: nat): seq<Step> {
    if k == 0 then FailedAttempt(true) + (FailedAttempt(true) + FailedAttempt(true)) else Cycle() + Cycles(k - 1)
  }

  /** At rest after `n` recorded failures. */
  predicate RetriesAre(s: State, n: int) {
    s.running == 0 && (if s.row.None? then n == 0 else s.row.value.status == Failed && s.row.value.retryCount == n)
  }

  lemma OneFailure(s: State, n: int, lookedUp: bool, rest: seq<Step>)
    requires RetriesAre(s, n) && n < MAX_REFLECTION_RETRIES
    ensures var t := Apply(Apply(s, Create(1, 1)), Finish(Invalid(lookedUp)));
            var run := FailedAttempt(lookedUp) + rest;
            && RetriesAre(t, if lookedUp then n + 1 else 0)
            && (OneAtATime(t, rest) ==> OneAtATime(s, run))
            && Creates(s, run) == 1 + Creates(t, rest)
            && CountResets(run) == (if lookedUp then 0 else 1) + CountResets(rest)
  {
    var run := FailedAttempt(lookedUp) + rest;
    assert run[1..] == [Finish(Invalid(lookedUp))] + rest && run[1..][1..] == rest;
    assert OneAtATime(Apply(s, Create(1, 1)), run[1..]) <==> OneAtATime(Apply(Apply(s, Create(1, 1)), run[1]), rest);
    assert Creates(Apply(s, Create(1, 1)), run[1..]) == Creates(Apply(Apply(s, Create(1, 1)), run[1]), rest);
    assert CountResets(run[1..]) == (if lookedUp then 0 else 1) + CountResets(rest);
  }

  lemma ThreeFailures(s: State, lookedUp: bool, rest: seq<Step>) returns (t: State)
    requires RetriesAre(s, 0)
    ensures RetriesAre(t, if lookedUp then 3 else 0)
    ensures var run := FailedAttempt(true) + (FailedAttempt(true) + (FailedAttempt(lookedUp) + rest));
            && (OneAtATime(t, rest) ==> OneAtATime(s, run))
            && Creates(s, run) == 3 + Creates(t, rest)
            && CountResets(run) == (if lookedUp then 0 else 1) + CountResets(rest)
  {
    var s1 := Apply(Apply(s, Create(1, 1)), Finish(Invalid(true)));
    var s2 := Apply(Apply(s1, Create(1, 1)), Finish(Invalid(true)));
    t := Apply(Apply(s2, Create(1, 1)), Finish(Invalid(lookedUp)));
    OneFailure(s, 0, true, FailedAttempt(true) + (FailedAttempt(lookedUp) + rest));
    OneFailure(s1, 1, true, FailedAttempt(lookedUp) + rest);
    OneFailure(s2, 2, lookedUp, rest);
  }

  lemma CycleThen(rest: seq<Step>)
    ensures Cycle() + rest == FailedAttempt(true) + (FailedAttempt(true) + (FailedAttempt(false) + rest))
  {}

  /** The bound is reached: for every k a run with k failures after failed lookups and 3 + 3k creates. */
  lemma {:induction false} BoundIsReached(s: State, k: nat)
    requires RetriesAre(s, 0)
    ensures OneAtATime(s, Cycles(k)) && CountResets(Cycles(k)) == k && Creates(s, Cycles(k)) == 3 + 3 * k
    decreases k
  {
    if k == 0 {
      var t := ThreeFailures(s, true, []);
      assert FailedAttempt(true) + [] == FailedAttempt(true);
    } else {
      CycleThen(Cycles(k - 1));
      var t := ThreeFailures(s, false, Cycles(k - 1));
      BoundIsReached(t, k - 1);
    }
  }

  /** Runs of attempts one after the other, with at most `k` failures after failed lookups, stay within `n` creates. */
  ghost predicate CreatesStayWithin(k: nat, n: int) {
    forall run :: OneAtATime(FRESH, run) && CountResets(run) <= k ==> Creates(FRESH, run) <= n
  }

  /** The largest number of creates is 3 + 3k, so the cap of three holds exactly when no lookup fails. */
  lemma CapHoldsIff(k: nat, n: int)
    ensures CreatesStayWithin(k, n) <==> n >= 3 + 3 * k
    ensures CreatesStayWithin(k, MAX_REFLECTION_RETRIES) <==> k == 0
  {
    CreatesWithinIff(k, n);
    CreatesWithinIff(k, MAX_REFLECTION_RETRIES);
  }

  lemma CreatesWithinIff(k: nat, n: int)
    ensures CreatesStayWithin(k, n) <==> n >= 3 + 3 * k
  {
    BoundIsReached(FRESH, k);
    forall run | OneAtATime(FRESH, run) && CountResets(run) <= k ensures Creates(FRESH, run) <= 3 + 3 * k {
      CreatesAreBounded(FRESH, run);
    }
    if CreatesStayWithin(k, n) {
      assert Creates(FRESH, Cycles(k)) <= n;
    }
  }

  // ----- the same steps on the table

  /** The row of the decision moves, and no other row does. */
  predicate Moved(before: Rows, after: Rows, row: Row, moved: Row)
    requires row.id in before
  {
    after == before[row.id := moved]
  }

  /**
   What an undisturbed call does to the table when only the modelled failures occur, for the
   decision `d` whose row is `seen`, with `running` attempts under way.
  */
  predicate IsStepOf(before: Rows, after: Rows, d: int, seen: Option<Row>, running: nat, step: Step)
    requires IsLookup(seen, before, d)
  {
    match step
    case Create(id, _) =>
      if seen.None? then id !in before && after == before[id := Row(id, d, Generating, 0, None)]
      else if seen.value.status == Failed && seen.value.retryCount < 3 then
        Moved(before, after, seen.value, seen.value.(status := Generating))
      else after == before
    case Lease(now) =>
      if running == 0 || seen.None? then after == before
      else Moved(before, after, seen.value, seen.value.(status := Generating, leaseUntil := Some(now + 900)))
    case Finish(ending) =>
      if running == 0 || seen.None? then after == before
      else
        (match ending
         case Unreported => after == before
         case Incomplete => Moved(before, after, seen.value, seen.value.(status := Failed, retryCount := 3))
         case Invalid(lookedUp) =>
           Moved(before, after, seen.value,
                 seen.value.(status := Failed, retryCount := if lookedUp then seen.value.retryCount + 1 else 0))
         case Done => Moved(before, after, seen.value, seen.value.(status := Generated)))
    case Recover(now) =>
      if seen.Some? && seen.value.status == Generating && seen.value.leaseUntil.Some? && seen.value.leaseUntil.value < now then
        Moved(before, after, seen.value, seen.value.(status := Failed, retryCount := seen.value.retryCount + 1))
      else after == before
  }

  predicate IsTable(rows: Rows) {
    KeyedById(rows) && UniqueDecisions(rows)
  }

  /** The contract of a create that nothing disturbs is such a step. */
  lemma CreateIsAStep(before: Rows, after: Rows, d: int, seen: Option<Row>, r: Result<int, Error>, running: nat)
    requires IsTable(before) && IsLookup(seen, before, d)
    requires after == if r.Success? then Acted(before, d, seen, r.value) else before
    requires r.Success? && seen.None? ==> r.value !in before
    requires r.Failure? ==> seen.Some? && !(seen.value.status == Failed && seen.value.retryCount < 3)
    requires r.Success? && seen.Some? ==> IsOpen(seen.value) && r.value == seen.value.id
    ensures IsStepOf(before, after, d, seen, running, Create(if r.Success? then r.value else 0, d))
  {}

  /** So are the writes of an attempt and of the scheduler, by the contract of the update. */
  lemma UpdatesAreSteps(before: Rows, d: int, row: Row, running: nat, now: int)
    requires IsTable(before) && IsLookup(Some(row), before, d) && running > 0
    ensures IsStepOf(before, UpdatedRows(before, Leased(row.id, now)), d, Some(row),
                     running, Lease(now))
    ensures IsStepOf(before, UpdatedRows(before, Finished(row.id)), d, Some(row), running, Finish(Done))
    ensures IsStepOf(before, UpdatedRows(before, GivenUp(row.id)), d, Some(row), running,
                     Finish(Incomplete))
    ensures IsStale(row, now) ==>
              IsStepOf(before, UpdatedRows(before, Recovered(row)), d, Some(row), running, Recover(now))
    ensures IsStepOf(before, UpdatedRows(before, Failing(row.id, RetryAfter(Some(row)))), d, Some(row), running,
                     Finish(Invalid(true)))
    ensures IsStepOf(before, UpdatedRows(before, Failing(row.id, RetryAfter(None))), d, Some(row), running,
                     Finish(Invalid(false)))
  {}

  /** And the contract of a failure report that nothing disturbs. */
  lemma MarkFailedIsAStep(before: Rows, after: Rows, d: int, row: Row, found: Option<Row>, running: nat)
    requires IsTable(before) && IsLookup(Some(row), before, d) && running > 0
    requires found.Some? ==> IsLookup(found, before, d)
    requires after == before[row.id := before[row.id].(status := Failed,
                                                       retryCount := if found.Some? then found.value.retryCount + 1 else 0)]
    ensures IsStepOf(before, after, d, Some(row), running, Finish(Invalid(found.Some?)))
  {}

  /** On the row of the decision such a step is the step of the model. */
  lemma StepIsApplied(before: Rows, after: Rows, d: int, s: State, step: Step)
    requires IsTable(before) && IsLookup(s.row, before, d) && IsStepOf(before, after, d, s.row, s.running, step)
    requires step.Create? ==> step.decisionId == d
    ensures IsTable(after) && IsLookup(Apply(s, step).row, after, d)
    ensures step.Create? ==> (CreateSucceeds(s) <==> after != before)
  {
    if step.Create? && s.row.Some? && CreateSucceeds(s) {
      assert after[s.row.value.id].status != before[s.row.value.id].status;
    }
  }

  /** Tables that a run leads through. */
  predicate LeadsThrough(tables: seq<Rows>, d: int, s: State, run: seq<Step>)
    decreases |run|
  {
    && |tables| == |run| + 1 && IsTable(tables[0]) && IsLookup(s.row, tables[0], d)
    && (run != [] ==>
          && (run[0].Create? ==> run[0].decisionId == d)
          && IsStepOf(tables[0], tables[1], d, s.row, s.running, run[0])
          && LeadsThrough(tables[1..], d, Apply(s, run[0]), run[1..]))
  }

  /** How many creates of the run changed the table. */
  function CountStarts(tables: seq<Rows>, run: seq<Step>): nat
    requires |tables| == |run| + 1
  {
    if run == [] then 0
    else (if run[0].Create? && tables[1] != tables[0] then 1 else 0) + CountStarts(tables[1..], run[1..])
  }

  lemma {:induction false} StartsAreCreates(tables: seq<Rows>, d: int, s: State, run: seq<Step>)
    requires LeadsThrough(tables, d, s, run)
    ensures CountStarts(tables, run) == Creates(s, run)
    ensures IsLookup(End(s, run).row, tables[|run|], d)
    decreases |run|
  {
    if run != [] {
      StepIsApplied(tables[0], tables[1], d, s, run[0]);
      StartsAreCreates(tables[1..], d, Apply(s, run[0]), run[1..]);
    }
  }

  /**
   The cap on the table itself: attempts one after the other at a decision without a row insert or
   re-open at most three times, and three more times for each failure after a failed lookup.
  */
  lemma CapHoldsOfTheTable(tables: seq<Rows>, d: int, run: seq<Step>)
    requires LeadsThrough(tables, d, FRESH, run) && OneAtATime(FRESH, run)
    ensures CountStarts(tables, run) <= 3 + 3 * CountResets(run)
  {
    StartsAreCreates(tables, d, FRESH, run);
    CreatesAreBounded(FRESH, run);
  }

  // ----- which decisions get another attempt

  predicate AllRecover(run: seq<Step>) {
    forall k :: 0 <= k < |run| ==> run[k].Recover?
  }

  /** What the scheduler can do about a row at rest: recover it, once. */
  predicate Recoverable(s: State) {
    || CreateSucceeds(s)
    || (s.row.value.status == Generating && s.row.value.leaseUntil.Some?
        && s.row.value.retryCount + 1 < MAX_REFLECTION_RETRIES)
  }

  lemma {:induction false} RecoverDoesNoMore(s: State, run: seq<Step>)
    requires AllRecover(run) && CreateSucceeds(End(s, run))
    ensures Recoverable(s)
    decreases |run|
  {
    if run != [] {
      RecoverDoesNoMore(Apply(s, run[0]), run[1..]);
    }
  }

  /**
   A decision at rest gets another attempt, at once or after the scheduler's recovery, exactly
   when it has no row, or failed under the cap, or hangs with a lease and two retries left.
  */
  lemma AnotherAttemptIff(s: State)
    ensures (exists run :: AllRecover(run) && CreateSucceeds(End(s, run))) <==> Recoverable(s)
  {
    if run :| AllRecover(run) && CreateSucceeds(End(s, run)) {
      RecoverDoesNoMore(s, run);
    }
    if Recoverable(s) {
      if CreateSucceeds(s) {
        assert AllRecover([]) && CreateSucceeds(End(s, []));
      } else {
        var run := [Recover(s.row.value.leaseUntil.value + 1)];
        assert run[1..] == [];
        assert End(s, run) == End(Apply(s, run[0]), []);
        assert AllRecover(run) && CreateSucceeds(End(s, run));
      }
    }
  }

  /**
   The ends of a first, leased attempt and what they leave: a failure shows on the row exactly
   when the reflection was incomplete or invalid, and only an invalid or unreported one can be
   tried again.
  */
  lemma FirstAttemptEnds(id: int, now: int, ending: Ending)
    ensures var s := End(FRESH, [Create(id, 0), Lease(now), Finish(ending)]);
            && s.running == 0 && s.row.Some?
            && (s.row.value.status == Failed <==> ending.Incomplete? || ending.Invalid?)
            && (s.row.value.status == Generated <==> ending.Done?)
            && (Recoverable(s) <==> ending.Invalid? || ending.Unreported?)
  {
    var a := Apply(FRESH, Create(id, 0));
    Unroll(FRESH, Create(id, 0), [Lease(now), Finish(ending)]);
    Unroll(a, Lease(now), [Finish(ending)]);
    Unroll(Apply(a, Lease(now)), Finish(ending), []);
    assert [Create(id, 0), Lease(now), Finish(ending)] == [Create(id, 0)] + [Lease(now), Finish(ending)];
  }

  // ----- overlapping attempts

  /**
   When attempts overlap a generated reflection can be lost: an attempt outlives its lease, a
   second one generates, and the first then reports its failure.
  */
  lemma OverlapUndoesAReflection(id: int)
    ensures var run := [Create(id, 0), Lease(0), Recover(901), Create(id, 0), Finish(Done)];
            && End(FRESH, run).row.Some? && End(FRESH, run).row.value.status == Generated
            && Apply(End(FRESH, run), Finish(Incomplete)).row.value.status == Failed
  {
    var a := Apply(Apply(FRESH, Create(id, 0)), Lease(0));
    var b := Apply(a, Recover(901));
    var c := Apply(Apply(b, Create(id, 0)), Finish(Done));
    Unroll(FRESH, Create(id, 0), [Lease(0), Recover(901), Create(id, 0), Finish(Done)]);
    Unroll(Apply(FRESH, Create(id, 0)), Lease(0), [Recover(901), Create(id, 0), Finish(Done)]);
    Unroll(a, Recover(901), [Create(id, 0), Finish(Done)]);
    Unroll(b, Create(id, 0), [Finish(Done)]);
    Unroll(Apply(b, Create(id, 0)), Finish(Done), []);
    assert c == State(Some(Row(id, 0, Generated, 1, Some(900))), 1);
    assert [Create(id, 0), Lease(0), Recover(901), Create(id, 0), Finish(Done)]
        == [Create(id, 0)] + [Lease(0), Recover(901), Create(id, 0), Finish(Done)];
  }

  lemma Unroll(s: State, step: Step, rest: seq<Step>)
    ensures End(s, [step] + rest) == End(Apply(s, step), rest)
  {
    assert ([step] + rest)[1..] == rest;
  }
}
