/**
 Any number of reflection attempts and recoveries at once. Every read is a step of its own and so
 is every write: a create looks up and then writes, a failure looks its retry count up and then
 writes, and the scheduler reads a stale row and fails it later by id. Attempts and recoveries may
 stop anywhere; a store call that fails is such a stop.
*/
module ReflectionRace {
  import opened Wrappers
  import opened Reflection

  // ----- states

  /** `seen` is the answer of the lookup, `retryCount` the count that is about to be written. */
  datatype Phase =
    | Looking
    | Seen(seen: Option<Row>)
    | Leasing(rowId: int)
    | Running(rowId: int)
    | Marking(rowId: int, retryCount: int)
    | Over

  datatype Attempt = Attempt(decisionId: int, phase: Phase)

  /** A recovery holds the row as the scheduler read it. */
  datatype Race = Race(rows: Rows, attempts: map<nat, Attempt>, recoveries: map<nat, Row>)

  // ----- steps

  datatype Move =
    | Begin(attempt: nat, decisionId: int)
    | Look(attempt: nat, found: Option<Row>)
    | Act(attempt: nat, freshId: int)
    | TakeLease(attempt: nat, now: int)
    | SkipLease(attempt: nat)                  // the lease was not written; the attempt goes on
    | Generate(attempt: nat)
    | GiveUp(attempt: nat)                     // too little context: failed for good
    | Fetch(attempt: nat, found: Option<Row>)  // None also when the lookup failed
    | Mark(attempt: nat)
    | Stop(attempt: nat)
    | Spot(recovery: nat, rowId: int, now: int)
    | Rescue(recovery: nat)
    | Drop(recovery: nat)

  predicate IsRecovery(m: Move) {
    m.Spot? || m.Rescue? || m.Drop?
  }

  predicate Enabled(s: Race, m: Move) {
    match m
    case Begin(a, _) => a !in s.attempts
    case Look(a, found) => a in s.attempts && s.attempts[a].phase.Looking? && IsLookup(found, s.rows, s.attempts[a].decisionId)
    case Act(a, unused) => a in s.attempts && s.attempts[a].phase.Seen? && unused !in s.rows
    case TakeLease(a, _) => a in s.attempts && s.attempts[a].phase.Leasing?
    case SkipLease(a) => a in s.attempts && s.attempts[a].phase.Leasing?
    case Generate(a) => a in s.attempts && s.attempts[a].phase.Running?
    case GiveUp(a) => a in s.attempts && s.attempts[a].phase.Running?
    case Fetch(a, found) =>
      && a in s.attempts && s.attempts[a].phase.Running?
      && (found.Some? ==> IsLookup(found, s.rows, s.attempts[a].decisionId))
    case Mark(a) => a in s.attempts && s.attempts[a].phase.Marking?
    case Stop(a) => a in s.attempts
    case Spot(k, id, now) => k !in s.recoveries && id in s.rows && IsStale(s.rows[id], now)
    case Rescue(k) => k in s.recoveries
    case Drop(k) => k in s.recoveries
  }

  /** Insert unless the decision has a row by now, re-open what was seen open, refuse the rest. */
  function PhaseAfterAct(s: Race, a: nat, unused: int): Phase
    requires Enabled(s, Act(a, unused))
  {
    var seen := s.attempts[a].phase.seen;
    if seen.None? then (if Taken(s.rows, s.attempts[a].decisionId) then Over else Leasing(unused))
    else if IsOpen(seen.value) then Leasing(seen.value.id) else Over
  }

  function RowsAfter(s: Race, m: Move): Rows
    requires Enabled(s, m)
  {
    match m
    case Act(a, unused) => Acted(s.rows, s.attempts[a].decisionId, s.attempts[a].phase.seen, unused)
    case TakeLease(a, now) => UpdatedRows(s.rows, Leased(s.attempts[a].phase.rowId, now))
    case Generate(a) => UpdatedRows(s.rows, Finished(s.attempts[a].phase.rowId))
    case GiveUp(a) => UpdatedRows(s.rows, GivenUp(s.attempts[a].phase.rowId))
    case Mark(a) => UpdatedRows(s.rows, Failing(s.attempts[a].phase.rowId, s.attempts[a].phase.retryCount))
    case Rescue(k) => UpdatedRows(s.rows, Recovered(s.recoveries[k]))
    case _ => s.rows
  }

  function PhaseAfter(s: Race, m: Move): Phase
    requires Enabled(s, m) && !m.Begin? && !IsRecovery(m)
  {
    match m
    case Look(_, found) => Seen(found)
    case Act(a, unused) => PhaseAfterAct(s, a, unused)
    case TakeLease(a, _) => Running(s.attempts[a].phase.rowId)
    case SkipLease(a) => Running(s.attempts[a].phase.rowId)
    case Fetch(a, found) => Marking(s.attempts[a].phase.rowId, RetryAfter(found))
    case _ => Over
  }

  function AttemptsAfter(s: Race, m: Move): map<nat, Attempt>
    requires Enabled(s, m)
  {
    if IsRecovery(m) then s.attempts
    else if m.Begin? then s.attempts[m.attempt := Attempt(m.decisionId, Looking)]
    else s.attempts[m.attempt := s.attempts[m.attempt].(phase := PhaseAfter(s, m))]
  }

  function RecoveriesAfter(s: Race, m: Move): map<nat, Row>
    requires Enabled(s, m)
  {
    match m
    case Spot(k, id, _) => s.recoveries[k := s.rows[id]]
    case Rescue(k) => s.recoveries - {k}
    case Drop(k) => s.recoveries - {k}
    case _ => s.recoveries
  }

  function After(s: Race, m: Move): Race
    requires Enabled(s, m)
  {
    Race(RowsAfter(s, m), AttemptsAfter(s, m), RecoveriesAfter(s, m))
  }

  predicate Legal(s: Race, run: seq<Move>)
    decreases |run|
  {
    run != [] ==> Enabled(s, run[0]) && Legal(After(s, run[0]), run[1..])
  }

  function Final(s: Race, run: seq<Move>): Race
    requires Legal(s, run)
    decreases |run|
  {
    if run == [] then s else Final(After(s, run[0]), run[1..])
  }

  // ----- one row a decision

  predicate IsOn(p: Phase, id: int) {
    (p.Leasing? || p.Running? || p.Marking?) && p.rowId == id
  }

  /** The attempt works on the row, or saw it open and is about to re-open it. */
  predicate CanStillWrite(p: Phase, id: int) {
    || IsOn(p, id)
    || (p.Seen? && p.seen.Some? && p.seen.value.id == id && IsOpen(p.seen.value))
  }

  /** What an attempt can write to is a row of its decision. */
  ghost predicate AttemptOk(rows: Rows, a: Attempt) {
    forall id :: CanStillWrite(a.phase, id) ==> id in rows && rows[id].decisionId == a.decisionId
  }

  ghost predicate Inv(s: Race) {
    && KeyedById(s.rows) && UniqueDecisions(s.rows)
    && (forall a :: a in s.attempts ==> AttemptOk(s.rows, s.attempts[a]))
    && (forall k :: k in s.recoveries ==> s.recoveries[k].id in s.rows)
  }

  lemma StepEvolves(s: Race, m: Move)
    requires Inv(s) && Enabled(s, m)
    ensures Evolves(s.rows, RowsAfter(s, m)) && KeyedById(RowsAfter(s, m)) && UniqueDecisions(RowsAfter(s, m))
  {}

  /** A step gives an attempt at most the row of its own decision. */
  lemma StepKeepsAttemptOk(s: Race, m: Move, a: nat)
    requires Inv(s) && Enabled(s, m) && a in AttemptsAfter(s, m)
    ensures AttemptOk(RowsAfter(s, m), AttemptsAfter(s, m)[a])
  {
    StepEvolves(s, m);
    if a in s.attempts {
      assert AttemptOk(s.rows, s.attempts[a]);
      var p, q := s.attempts[a].phase, AttemptsAfter(s, m)[a].phase;
      assert p.Seen? && p.seen.Some? && IsOpen(p.seen.value) ==> CanStillWrite(p, p.seen.value.id);
      assert p.Leasing? || p.Running? || p.Marking? ==> CanStillWrite(p, p.rowId);
    }
  }

  lemma StepKeepsInv(s: Race, m: Move)
    requires Inv(s) && Enabled(s, m)
    ensures Inv(After(s, m))
  {
    StepEvolves(s, m);
    forall a | a in AttemptsAfter(s, m) ensures AttemptOk(RowsAfter(s, m), AttemptsAfter(s, m)[a]) {
      StepKeepsAttemptOk(s, m, a);
    }
  }

  /** Two attempts that got through share a row exactly when they share the decision. */
  ghost predicate ShareByDecision(s: Race) {
    forall a, b, i, j ::
      a in s.attempts && b in s.attempts && IsOn(s.attempts[a].phase, i) && IsOn(s.attempts[b].phase, j) ==>
        (i == j <==> s.attempts[a].decisionId == s.attempts[b].decisionId)
  }

  lemma InvSharesByDecision(s: Race)
    requires Inv(s)
    ensures ShareByDecision(s)
  {
    forall a, b, i, j |
      a in s.attempts && b in s.attempts && IsOn(s.attempts[a].phase, i) && IsOn(s.attempts[b].phase, j)
      ensures i == j <==> s.attempts[a].decisionId == s.attempts[b].decisionId
    {
      assert AttemptOk(s.rows, s.attempts[a]) && AttemptOk(s.rows, s.attempts[b]);
      assert CanStillWrite(s.attempts[a].phase, i) && CanStillWrite(s.attempts[b].phase, j);
    }
  }

  /**
   In every interleaving a decision has one row: the insert is refused when another attempt came
   first. Rows never go and never change their decision, and all attempts at a decision that got
   through work on the same row.
  */
  lemma {:induction false} OneRowADecision(s: Race, run: seq<Move>)
    requires Inv(s) && Legal(s, run)
    ensures Inv(Final(s, run)) && UniqueDecisions(Final(s, run).rows) && Evolves(s.rows, Final(s, run).rows)
    ensures ShareByDecision(Final(s, run))
    decreases |run|
  {
    if run == [] {
      InvSharesByDecision(s);
    } else {
      StepKeepsInv(s, run[0]);
      StepEvolves(s, run[0]);
      OneRowADecision(After(s, run[0]), run[1..]);
    }
  }

  // ----- rows that stay

  predicate IsGenerated(s: Race, id: int) {
    id in s.rows && s.rows[id].status == Generated
  }

  /** Generated, or hanging without a lease: no create re-opens the row and no scheduler finds it stale. */
  predicate IsSettled(row: Row) {
    row.status == Generated || (row.status == Generating && row.leaseUntil.None?)
  }

  /** No attempt can still write to the row, and no recovery holds it. */
  predicate IsQuiet(s: Race, id: int) {
    && (forall a :: a in s.attempts ==> !CanStillWrite(s.attempts[a].phase, id))
    && (forall k :: k in s.recoveries ==> s.recoveries[k].id != id)
  }

  lemma StepKeepsRow(s: Race, m: Move, id: int)
    requires Inv(s) && Enabled(s, m) && id in s.rows && IsQuiet(s, id)
    ensures id in After(s, m).rows && After(s, m).rows[id] == s.rows[id]
  {
    if m.Rescue? {
      assert s.recoveries[m.recovery].id != id;
    } else if !IsRecovery(m) && !m.Begin? {
      assert !CanStillWrite(s.attempts[m.attempt].phase, id);
    }
  }

  lemma StepKeepsQuiet(s: Race, m: Move, id: int)
    requires Inv(s) && Enabled(s, m) && id in s.rows && IsSettled(s.rows[id]) && IsQuiet(s, id)
    ensures IsQuiet(After(s, m), id)
  {
    var t := After(s, m);
    forall a | a in t.attempts ensures !CanStillWrite(t.attempts[a].phase, id) {
      assert a in s.attempts ==> !CanStillWrite(s.attempts[a].phase, id);
    }
    forall k | k in t.recoveries ensures t.recoveries[k].id != id {
      assert k in s.recoveries ==> s.recoveries[k].id != id;
    }
  }

  lemma {:induction false} QuietRowStays(s: Race, run: seq<Move>, id: int)
    requires Inv(s) && Legal(s, run) && id in s.rows && IsSettled(s.rows[id]) && IsQuiet(s, id)
    ensures id in Final(s, run).rows && Final(s, run).rows[id] == s.rows[id] && IsQuiet(Final(s, run), id)
    decreases |run|
  {
    if run != [] {
      StepKeepsInv(s, run[0]);
      StepKeepsRow(s, run[0], id);
      StepKeepsQuiet(s, run[0], id);
      QuietRowStays(After(s, run[0]), run[1..], id);
    }
  }

  lemma OneMove(s: Race, m: Move)
    requires Enabled(s, m)
    ensures Legal(s, [m]) && Final(s, [m]) == After(s, m)
  {
    assert [m][1..] == [];
    assert Final(After(s, m), []) == After(s, m);
  }

  lemma MoreMoves(s: Race, m: Move, rest: seq<Move>)
    requires Enabled(s, m) && Legal(After(s, m), rest)
    ensures Legal(s, [m] + rest) && Final(s, [m] + rest) == Final(After(s, m), rest)
  {
    assert ([m] + rest)[1..] == rest;
  }

  /** A write that is still to come, wherever it comes from, can undo a settled row. */
  lemma LateWrite(s: Race, id: int) returns (run: seq<Move>)
    requires Inv(s) && id in s.rows && IsSettled(s.rows[id]) && !IsQuiet(s, id)
    ensures Legal(s, run) && id in Final(s, run).rows
    ensures Final(s, run).rows[id] != s.rows[id] && Final(s, run).rows[id].status != Generated
  {
    if k :| k in s.recoveries && s.recoveries[k].id == id {
      OneMove(s, Rescue(k));
      run := [Rescue(k)];
    } else {
      var a :| a in s.attempts && CanStillWrite(s.attempts[a].phase, id);
      run := LateWriteOf(s, a, id);
    }
  }

  lemma LateWriteOf(s: Race, a: nat, id: int) returns (run: seq<Move>)
    requires Inv(s) && id in s.rows && IsSettled(s.rows[id])
    requires a in s.attempts && CanStillWrite(s.attempts[a].phase, id)
    ensures Legal(s, run) && id in Final(s, run).rows
    ensures Final(s, run).rows[id] != s.rows[id] && Final(s, run).rows[id].status != Generated
  {
    match s.attempts[a].phase {
      case Leasing(_) =>
        OneMove(s, TakeLease(a, 0));
        run := [TakeLease(a, 0)];
      case Running(_) =>
        OneMove(s, GiveUp(a));
        run := [GiveUp(a)];
      case Marking(_, _) =>
        OneMove(s, Mark(a));
        run := [Mark(a)];
      case Seen(_) =>
        var unused := Unused(s.rows.Keys);
        var t := After(s, Act(a, unused));
        OneMove(t, TakeLease(a, 0));
        MoreMoves(s, Act(a, unused), [TakeLease(a, 0)]);
        run := [Act(a, unused)] + [TakeLease(a, 0)];
    }
  }

  lemma {:induction false} Unused(ids: set<int>) returns (unused: int)
    ensures unused !in ids && forall id :: id in ids ==> id < unused
    decreases |ids|
  {
    unused := 0;
    NoneIn(ids);
    if ids != {} {
      var k :| k in ids;
      var other := Unused(ids - {k});
      unused := if other > k then other else k + 1;
      forall id | id in ids ensures id < unused {
        assert id == k || id in ids - {k};
      }
    }
  }

  ghost predicate StaysForever(s: Race, id: int)
    requires id in s.rows
  {
    forall run :: Legal(s, run) ==> id in Final(s, run).rows && Final(s, run).rows[id] == s.rows[id]
  }

  /**
   A row that is generated, or hangs without a lease, stays as it is in every interleaving exactly
   when no attempt and no recovery can still write to it.
  */
  lemma SettledStaysIff(s: Race, id: int)
    requires Inv(s) && id in s.rows && IsSettled(s.rows[id])
    ensures StaysForever(s, id) <==> IsQuiet(s, id)
  {
    if IsQuiet(s, id) {
      forall run | Legal(s, run) ensures id in Final(s, run).rows && Final(s, run).rows[id] == s.rows[id] {
        QuietRowStays(s, run, id);
      }
    } else {
      var run := LateWrite(s, id);
    }
  }

  ghost predicate IsFinal(s: Race, id: int) {
    forall run :: Legal(s, run) ==> IsGenerated(Final(s, run), id)
  }

  /**
   A generated reflection is final in every interleaving exactly when no attempt works on its row,
   none holds an old lookup that saw it open, and no recovery holds the row as it was when stale.
  */
  lemma GeneratedIsFinalIff(s: Race, id: int)
    requires Inv(s) && IsGenerated(s, id)
    ensures IsFinal(s, id) <==> IsQuiet(s, id)
  {
    if IsQuiet(s, id) {
      forall run | Legal(s, run) ensures IsGenerated(Final(s, run), id) {
        QuietRowStays(s, run, id);
      }
    } else {
      var run := LateWrite(s, id);
    }
  }

  // ----- how such rows come about and are lost

  // ----- moves that nothing disturbs

  /** A create with nothing in between is one step on the table, whatever runs beside it. */
  lemma CreateMovesAreAStep(s: Race, a: nat, d: int, seen: Option<Row>, unused: int, running: nat)
    requires IsTable(s.rows) && IsLookup(seen, s.rows, d) && a !in s.attempts && unused !in s.rows
    ensures var run := [Begin(a, d)] + ([Look(a, seen)] + [Act(a, unused)]);
            Legal(s, run) && IsStepOf(s.rows, Final(s, run).rows, d, seen, running, Create(unused, d))
  {
    var s1 := After(s, Begin(a, d));
    var s2 := After(s1, Look(a, seen));
    OneMove(s2, Act(a, unused));
    MoreMoves(s1, Look(a, seen), [Act(a, unused)]);
    MoreMoves(s, Begin(a, d), [Look(a, seen)] + [Act(a, unused)]);
  }

  /** So is a failure report: lookup and write. */
  lemma FailureMovesAreAStep(s: Race, a: nat, row: Row, found: Option<Row>, running: nat)
    requires IsTable(s.rows) && a in s.attempts && s.attempts[a].phase == Running(row.id) && running > 0
    requires IsLookup(Some(row), s.rows, s.attempts[a].decisionId)
    requires found.Some? ==> IsLookup(found, s.rows, s.attempts[a].decisionId)
    ensures var run := [Fetch(a, found)] + [Mark(a)];
            && Legal(s, run)
            && IsStepOf(s.rows, Final(s, run).rows, s.attempts[a].decisionId, Some(row), running, Finish(Invalid(found.Some?)))
  {
    OneMove(After(s, Fetch(a, found)), Mark(a));
    MoreMoves(s, Fetch(a, found), [Mark(a)]);
  }

  /** And the single writes of an attempt. */
  lemma WritesAreSteps(s: Race, a: nat, row: Row, now: int, running: nat)
    requires IsTable(s.rows) && a in s.attempts && running > 0
    requires IsLookup(Some(row), s.rows, s.attempts[a].decisionId)
    ensures var d := s.attempts[a].decisionId;
            && (s.attempts[a].phase == Leasing(row.id) ==>
                  IsStepOf(s.rows, After(s, TakeLease(a, now)).rows, d, Some(row), running, Lease(now)))
            && (s.attempts[a].phase == Running(row.id) ==>
                  && IsStepOf(s.rows, After(s, Generate(a)).rows, d, Some(row), running, Finish(Done))
                  && IsStepOf(s.rows, After(s, GiveUp(a)).rows, d, Some(row), running, Finish(Incomplete)))
  {}

  /** And a recovery whose write follows its read. */
  lemma RecoveryMovesAreAStep(s: Race, k: nat, row: Row, now: int, running: nat)
    requires IsTable(s.rows) && k !in s.recoveries && IsLookup(Some(row), s.rows, row.decisionId) && IsStale(row, now)
    ensures var run := [Spot(k, row.id, now)] + [Rescue(k)];
            Legal(s, run) && IsStepOf(s.rows, Final(s, run).rows, row.decisionId, Some(row), running, Recover(now))
  {
    OneMove(After(s, Spot(k, row.id, now)), Rescue(k));
    MoreMoves(s, Spot(k, row.id, now), [Rescue(k)]);
  }

  // ----- concrete runs

  const EMPTY := Race(map[], map[], map[])

  /** A first attempt up to its work on row 1. */
  function Started(decisionId: int, row: Row): Race {
    Race(map[1 := row], map[0 := Attempt(decisionId, Running(1))], map[])
  }

  lemma FirstAttempt(decisionId: int, m: Move, rest: seq<Move>)
    requires m.TakeLease? || m.SkipLease?
    requires m.attempt == 0
    requires var row := if m.TakeLease? then NewRow(1, decisionId).(leaseUntil := Some(m.now + LEASE_SECS)) else NewRow(1, decisionId);
             Legal(Started(decisionId, row), rest)
    ensures var row := if m.TakeLease? then NewRow(1, decisionId).(leaseUntil := Some(m.now + LEASE_SECS)) else NewRow(1, decisionId);
            var run := [Begin(0, decisionId)] + ([Look(0, None)] + ([Act(0, 1)] + ([m] + rest)));
            Legal(EMPTY, run) && Final(EMPTY, run) == Final(Started(decisionId, row), rest)
  {
    var row := if m.TakeLease? then NewRow(1, decisionId).(leaseUntil := Some(m.now + LEASE_SECS)) else NewRow(1, decisionId);
    var s1 := After(EMPTY, Begin(0, decisionId));
    var s2 := After(s1, Look(0, None));
    var s3 := After(s2, Act(0, 1));
    assert s3 == Race(map[1 := NewRow(1, decisionId)], map[0 := Attempt(decisionId, Leasing(1))], map[]);
    assert After(s3, m) == Started(decisionId, row);
    MoreMoves(s3, m, rest);
    MoreMoves(s2, Act(0, 1), [m] + rest);
    MoreMoves(s1, Look(0, None), [Act(0, 1)] + ([m] + rest));
    MoreMoves(EMPTY, Begin(0, decisionId), [Look(0, None)] + ([Act(0, 1)] + ([m] + rest)));
  }

  /**
   A first attempt whose lease is not written and that does not report leaves a row that stays as
   it is for ever: the decision is locked out.
  */
  lemma FirstAttemptCanLockOut(decisionId: int) returns (run: seq<Move>)
    ensures Legal(EMPTY, run) && Final(EMPTY, run).rows == map[1 := NewRow(1, decisionId)]
    ensures StaysForever(Final(EMPTY, run), 1)
  {
    var s := Started(decisionId, NewRow(1, decisionId));
    OneMove(s, Stop(0));
    FirstAttempt(decisionId, SkipLease(0), [Stop(0)]);
    run := [Begin(0, decisionId)] + ([Look(0, None)] + ([Act(0, 1)] + ([SkipLease(0)] + [Stop(0)])));
    SettledStaysIff(After(s, Stop(0)), 1);
  }

  /**
   A recovery can undo a generated reflection after the last attempt has ended: the attempt
   outlived its lease, the scheduler read the row, and its write comes after the result.
  */
  lemma LateRecoveryUndoesAReflection(decisionId: int) returns (run: seq<Move>)
    ensures Legal(EMPTY, run) && IsGenerated(Final(EMPTY, run), 1)
    ensures forall a :: a in Final(EMPTY, run).attempts ==> Final(EMPTY, run).attempts[a].phase.Over?
    ensures Enabled(Final(EMPTY, run), Rescue(0))
    ensures After(Final(EMPTY, run), Rescue(0)).rows == map[1 := Row(1, decisionId, Failed, 1, Some(LEASE_SECS))]
  {
    var s := Started(decisionId, NewRow(1, decisionId).(leaseUntil := Some(LEASE_SECS)));
    var t := After(s, Spot(0, 1, LEASE_SECS + 1));
    OneMove(t, Generate(0));
    MoreMoves(s, Spot(0, 1, LEASE_SECS + 1), [Generate(0)]);
    var rest := [Spot(0, 1, LEASE_SECS + 1)] + [Generate(0)];
    FirstAttempt(decisionId, TakeLease(0, 0), rest);
    run := [Begin(0, decisionId)] + ([Look(0, None)] + ([Act(0, 1)] + ([TakeLease(0, 0)] + rest)));
  }

  // ----- when two creates re-open one row

  predicate IsCreateMove(m: Move) {
    m.Begin? || m.Look? || m.Act?
  }

  predicate OnlyCreates(run: seq<Move>) {
    forall k :: 0 <= k < |run| ==> IsCreateMove(run[k])
  }

  /** The create has seen the row open, or has still to look and the row is open. */
  predicate MayReopen(s: Race, a: nat, id: int)
    requires id in s.rows
  {
    && a in s.attempts && s.attempts[a].decisionId == s.rows[id].decisionId
    && (|| (s.attempts[a].phase.Looking? && IsOpen(s.rows[id]))
        || CanStillWrite(s.attempts[a].phase, id))
  }

  /** Without finishes and recoveries an attempt that may not re-open the row never will. */
  lemma {:induction false} NeverReopens(s: Race, run: seq<Move>, a: nat, id: int)
    requires Inv(s) && Legal(s, run) && OnlyCreates(run) && id in s.rows && a in s.attempts && !MayReopen(s, a, id)
    ensures a in Final(s, run).attempts && !IsOn(Final(s, run).attempts[a].phase, id)
    decreases |run|
  {
    if run == [] {
      assert AttemptOk(s.rows, s.attempts[a]);
    } else {
      assert IsCreateMove(run[0]) && AttemptOk(s.rows, s.attempts[a]);
      StepKeepsInv(s, run[0]);
      StepKeepsHopeless(s, run[0], a, id);
      assert forall k :: 0 <= k < |run[1..]| ==> run[1..][k] == run[k + 1];
      NeverReopens(After(s, run[0]), run[1..], a, id);
    }
  }

  lemma StepKeepsHopeless(s: Race, m: Move, a: nat, id: int)
    requires Inv(s) && Enabled(s, m) && IsCreateMove(m) && id in s.rows && a in s.attempts && !MayReopen(s, a, id)
    ensures id in After(s, m).rows && !MayReopen(After(s, m), a, id)
  {
    StepEvolves(s, m);
    assert AttemptOk(s.rows, s.attempts[a]);
  }

  ghost predicate CanBothReopen(s: Race, a: nat, b: nat, id: int) {
    exists run :: Legal(s, run) && OnlyCreates(run) && BothOn(Final(s, run), a, b, id)
  }

  predicate BothOn(s: Race, a: nat, b: nat, id: int) {
    a in s.attempts && b in s.attempts && IsOn(s.attempts[a].phase, id) && IsOn(s.attempts[b].phase, id)
  }

  /**
   Two creates can both re-open one failed row exactly when each of them has seen it open or has
   still to look while it is open: the second lookup has to come before the first write.
  */
  lemma BothReopenIff(s: Race, a: nat, b: nat, id: int)
    requires Inv(s) && id in s.rows && a in s.attempts && b in s.attempts && a != b
    ensures CanBothReopen(s, a, b, id) <==> MayReopen(s, a, id) && MayReopen(s, b, id)
  {
    if run :| Legal(s, run) && OnlyCreates(run) && BothOn(Final(s, run), a, b, id) {
      if !MayReopen(s, a, id) {
        NeverReopens(s, run, a, id);
      }
      if !MayReopen(s, b, id) {
        NeverReopens(s, run, b, id);
      }
    }
    if MayReopen(s, a, id) && MayReopen(s, b, id) {
      var run := BothReopen(s, a, b, id);
    }
  }

  /** Look if need be: afterwards the attempt has seen the row open, or is running on it already. */
  lemma LookFirst(s: Race, a: nat, id: int) returns (run: seq<Move>)
    requires Inv(s) && id in s.rows && MayReopen(s, a, id)
    ensures Legal(s, run) && OnlyCreates(run) && Final(s, run).rows == s.rows && a in Final(s, run).attempts
    ensures CanStillWrite(Final(s, run).attempts[a].phase, id)
    ensures forall b :: b in s.attempts && b != a ==>
              b in Final(s, run).attempts && Final(s, run).attempts[b] == s.attempts[b]
  {
    run := [];
    if s.attempts[a].phase.Looking? {
      var m := Look(a, Some(s.rows[id]));
      OneMove(s, m);
      run := [m];
    }
  }

  /** Then write. */
  lemma WriteThen(s: Race, a: nat, id: int) returns (run: seq<Move>)
    requires Inv(s) && id in s.rows && a in s.attempts && CanStillWrite(s.attempts[a].phase, id)
    ensures Legal(s, run) && OnlyCreates(run) && id in Final(s, run).rows
    ensures a in Final(s, run).attempts && IsOn(Final(s, run).attempts[a].phase, id)
    ensures forall b :: b in s.attempts && b != a ==>
              b in Final(s, run).attempts && Final(s, run).attempts[b] == s.attempts[b]
  {
    run := [];
    if s.attempts[a].phase.Seen? {
      var unused := Unused(s.rows.Keys);
      OneMove(s, Act(a, unused));
      run := [Act(a, unused)];
    }
  }

  lemma {:induction false} Joined(s: Race, r: seq<Move>, q: seq<Move>)
    requires Legal(s, r) && Legal(Final(s, r), q)
    ensures Legal(s, r + q) && Final(s, r + q) == Final(Final(s, r), q)
    decreases |r|
  {
    if r == [] {
      assert r + q == q;
    } else {
      assert (r + q)[0] == r[0] && (r + q)[1..] == r[1..] + q;
      Joined(After(s, r[0]), r[1..], q);
    }
  }

  lemma BothReopen(s: Race, a: nat, b: nat, id: int) returns (run: seq<Move>)
    requires Inv(s) && id in s.rows && a != b && MayReopen(s, a, id) && MayReopen(s, b, id)
    ensures Legal(s, run) && OnlyCreates(run) && BothOn(Final(s, run), a, b, id)
  {
    var r1 := LookFirst(s, a, id);
    var s1 := Final(s, r1);
    OneRowADecision(s, r1);
    var r2 := LookFirst(s1, b, id);
    var s2 := Final(s1, r2);
    OneRowADecision(s1, r2);
    var r3 := WriteThen(s2, a, id);
    var s3 := Final(s2, r3);
    OneRowADecision(s2, r3);
    var r4 := WriteThen(s3, b, id);
    Joined(s2, r3, r4);
    Joined(s1, r2, r3 + r4);
    Joined(s, r1, r2 + (r3 + r4));
    run := r1 + (r2 + (r3 + r4));
  }
}
