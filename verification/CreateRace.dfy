/**
 Any number of create requests at once, with the id read and the insert as separate steps. A step
 may also be a failure, a crash, or an update of an existing row by another use case.
*/
module CreateRace {
  import opened DecisionStore
  import DecisionService
  import Decimal

  // ----- states

  datatype Phase =
    | Reading
    | Offering(id: int)
    | Done(id: int)
    | Conflict
    | Failed

  /** A create request; `before` and `lost` only remember the past. */
  datatype Client = Client(
    phase: Phase,
    attempts: nat,
    before: set<int>,   // the ids in the table when the request started
    lost: set<int>)     // the ids at which its insert was refused

  datatype State = State(rows: Rows, clients: map<nat, Client>)

  predicate Running(c: Client) {
    c.phase.Reading? || c.phase.Offering?
  }

  ghost predicate Initial(s: State) {
    s.clients == map[]
  }

  // ----- steps

  datatype Step =
    | Start(client: nat)
    | Read(client: nat, id: int)
    | Offer(client: nat, row: Row)
    | Fail(client: nat)             // a store error, a refused proposal, or a crash
    | Update(row: Row)              // another use case saves an existing row

  ghost predicate Enabled(s: State, step: Step) {
    match step
    case Start(c) => c !in s.clients
    case Read(c, id) => c in s.clients && s.clients[c].phase.Reading? && IsNextId(s.rows.Keys, id) && Decimal.IsI64(id)
    case Offer(c, row) => c in s.clients && s.clients[c].phase == Offering(row.id)
    case Fail(c) => c in s.clients && Running(s.clients[c])
    case Update(row) => row.id in s.rows
  }

  /** A refused insert ends the attempt, and the last attempt ends the request. */
  function AfterRefusal(c: Client, id: int): Client {
    c.(attempts := c.attempts + 1, lost := c.lost + {id},
       phase := if c.attempts + 1 == DecisionService.CREATE_RETRIES then Conflict else Reading)
  }

  ghost function Apply(s: State, step: Step): State
    requires Enabled(s, step)
  {
    match step
    case Start(c) => s.(clients := s.clients[c := Client(Reading, 0, s.rows.Keys, {})])
    case Read(c, id) => s.(clients := s.clients[c := s.clients[c].(phase := Offering(id))])
    case Offer(c, row) =>
      if row.id in s.rows then s.(clients := s.clients[c := AfterRefusal(s.clients[c], row.id)])
      else State(s.rows[row.id := row], s.clients[c := s.clients[c].(phase := Done(row.id))])
    case Fail(c) => s.(clients := s.clients[c := s.clients[c].(phase := Failed)])
    case Update(row) => s.(rows := Upserted(s.rows, row))
  }

  ghost predicate Legal(s: State, run: seq<Step>)
    decreases |run|
  {
    run != [] ==> Enabled(s, run[0]) && Legal(Apply(s, run[0]), run[1..])
  }

  ghost function End(s: State, run: seq<Step>): State
    requires Legal(s, run)
    decreases |run|
  {
    if run == [] then s else End(Apply(s, run[0]), run[1..])
  }

  // ----- what every step keeps

  /** The requests that succeeded. */
  function Winners(s: State): set<nat> {
    set c | c in s.clients && s.clients[c].phase.Done?
  }

  ghost predicate ClientOk(s: State, c: Client) {
    && c.before <= s.rows.Keys
    && c.lost <= s.rows.Keys - c.before
    && |c.lost| == c.attempts
    && (c.phase.Reading? ==> c.attempts < DecisionService.CREATE_RETRIES)
    && (c.phase.Conflict? ==> c.attempts == DecisionService.CREATE_RETRIES)
    && (c.phase.Offering? ==>
          && c.attempts < DecisionService.CREATE_RETRIES
          && (forall id :: id in c.before + c.lost ==> id < c.phase.id)
          && (c.phase.id in s.rows || IsNextId(s.rows.Keys, c.phase.id)))
    && (c.phase.Done? ==> c.phase.id in s.rows.Keys - c.before - c.lost)
  }

  ghost predicate ClientsOk(s: State) {
    forall c :: c in s.clients ==> ClientOk(s, s.clients[c])
  }

  ghost predicate NoTwoWinnersShare(s: State) {
    forall c, d :: c in Winners(s) && d in Winners(s) && c != d ==> s.clients[c].phase.id != s.clients[d].phase.id
  }

  /** The table holds the initial rows and one row a winner, and nothing else. */
  ghost predicate RowsAccountedFor(s: State, initial: set<int>) {
    && initial <= s.rows.Keys
    && (forall c :: c in Winners(s) ==> s.clients[c].phase.id in s.rows.Keys - initial)
    && (forall id :: id in s.rows.Keys - initial ==> exists c :: c in Winners(s) && s.clients[c].phase.id == id)
    && |s.rows.Keys| == |initial| + |Winners(s)|
  }

  ghost predicate Inv(s: State, initial: set<int>) {
    ClientsOk(s) && NoTwoWinnersShare(s) && RowsAccountedFor(s, initial)
  }

  lemma StepKeepsClientsOk(s: State, step: Step)
    requires ClientsOk(s) && Enabled(s, step)
    ensures ClientsOk(Apply(s, step))
  {
    var t := Apply(s, step);
    forall c | c in t.clients ensures ClientOk(t, t.clients[c]) {
      if c in s.clients {
        if step.Offer? {
          OfferKeepsClientOk(s, step.client, step.row, c);
        } else {
          assert t.rows.Keys == s.rows.Keys;
          assert ClientOk(s, s.clients[c]);
        }
      }
    }
  }

  lemma OfferKeepsClientOk(s: State, d: nat, row: Row, c: nat)
    requires ClientsOk(s) && c in s.clients && Enabled(s, Offer(d, row))
    ensures ClientOk(Apply(s, Offer(d, row)), Apply(s, Offer(d, row)).clients[c])
  {
    var t := Apply(s, Offer(d, row));
    assert ClientOk(s, s.clients[c]) && ClientOk(s, s.clients[d]);
    if row.id in s.rows {
      assert row.id !in s.clients[d].before + s.clients[d].lost;
    } else {
      InsertKeepsClientOk(s, t, s.clients[c], row.id);
    }
  }

  /** An insert lands on the next id, so every other offer of that moment is for the same id. */
  lemma InsertKeepsClientOk(s: State, t: State, c: Client, id: int)
    requires ClientOk(s, c) && t.rows.Keys == s.rows.Keys + {id} && IsNextId(s.rows.Keys, id)
    ensures ClientOk(t, c)
    ensures c.phase == Offering(id) ==> ClientOk(t, c.(phase := Done(id)))
  {
    if c.phase.Offering? {
      assert c.phase.id !in c.before + c.lost;
      if c.phase.id !in s.rows {
        NextIdIsUnique(s.rows.Keys, id, c.phase.id);
      }
    }
  }

  lemma StepKeepsWinners(s: State, step: Step)
    requires ClientsOk(s) && Enabled(s, step)
    ensures Winners(s) <= Winners(Apply(s, step))
    ensures forall c :: c in Winners(s) ==> Apply(s, step).clients[c] == s.clients[c]
    ensures if step.Offer? && step.row.id !in s.rows then
              && step.client !in Winners(s)
              && Winners(Apply(s, step)) == Winners(s) + {step.client}
              && Apply(s, step).clients[step.client].phase == Done(step.row.id)
              && Apply(s, step).rows == s.rows[step.row.id := step.row]
            else Winners(Apply(s, step)) == Winners(s) && Apply(s, step).rows.Keys == s.rows.Keys
  {}

  /** `c` won the row `id`; nothing else about winners or rows changed. */
  ghost predicate Inserted(s: State, t: State, c: nat, id: int) {
    && id !in s.rows && c !in Winners(s)
    && t.rows.Keys == s.rows.Keys + {id}
    && Winners(t) == Winners(s) + {c}
    && t.clients[c].phase.id == id
    && forall d :: d in Winners(s) ==> t.clients[d] == s.clients[d]
  }

  lemma InsertKeepsWinnersApart(s: State, t: State, c: nat, id: int, initial: set<int>)
    requires NoTwoWinnersShare(s) && RowsAccountedFor(s, initial) && Inserted(s, t, c, id)
    ensures NoTwoWinnersShare(t)
  {
    forall d | d in Winners(s) ensures t.clients[d].phase.id != id {
      assert s.clients[d].phase.id in s.rows.Keys - initial;
    }
  }

  lemma InsertKeepsRowsAccountedFor(s: State, t: State, c: nat, id: int, initial: set<int>)
    requires RowsAccountedFor(s, initial) && Inserted(s, t, c, id)
    ensures RowsAccountedFor(t, initial)
  {
    forall x | x in t.rows.Keys - initial ensures exists d :: d in Winners(t) && t.clients[d].phase.id == x {
      if x == id {
        assert c in Winners(t);
      } else {
        assert x in s.rows.Keys - initial;
        var d :| d in Winners(s) && s.clients[d].phase.id == x;
        assert d in Winners(t);
      }
    }
    forall d | d in Winners(t) ensures t.clients[d].phase.id in t.rows.Keys - initial {
      assert d == c || s.clients[d].phase.id in s.rows.Keys - initial;
    }
  }

  lemma StepKeepsInv(s: State, step: Step, initial: set<int>)
    requires Inv(s, initial) && Enabled(s, step)
    ensures Inv(Apply(s, step), initial)
  {
    var t := Apply(s, step);
    StepKeepsClientsOk(s, step);
    StepKeepsWinners(s, step);
    if step.Offer? && step.row.id !in s.rows {
      assert Inserted(s, t, step.client, step.row.id);
      InsertKeepsWinnersApart(s, t, step.client, step.row.id, initial);
      InsertKeepsRowsAccountedFor(s, t, step.client, step.row.id, initial);
    } else {
      SameWinnersSameAccount(s, t, initial);
    }
  }

  lemma SameWinnersSameAccount(s: State, t: State, initial: set<int>)
    requires NoTwoWinnersShare(s) && RowsAccountedFor(s, initial)
    requires Winners(t) == Winners(s) && t.rows.Keys == s.rows.Keys
    requires forall c :: c in Winners(s) ==> t.clients[c] == s.clients[c]
    ensures NoTwoWinnersShare(t) && RowsAccountedFor(t, initial)
  {
    forall id | id in t.rows.Keys - initial ensures exists c :: c in Winners(t) && t.clients[c].phase.id == id {
      var c :| c in Winners(s) && s.clients[c].phase.id == id;
    }
  }

  // ----- whole runs

  lemma {:induction false} RunKeepsInv(s: State, run: seq<Step>, initial: set<int>)
    requires Inv(s, initial) && Legal(s, run)
    ensures Inv(End(s, run), initial)
    decreases |run|
  {
    if run != [] {
      StepKeepsInv(s, run[0], initial);
      RunKeepsInv(Apply(s, run[0]), run[1..], initial);
    }
  }

  /**
   In every interleaving: successful creates have different ids, none of them taken before, and
   the rows are the initial ones and one a success. A request that did not succeed left no row.
  */
  lemma CreatesAreSafe(s: State, run: seq<Step>)
    requires Initial(s) && Legal(s, run)
    ensures var t := End(s, run);
            && NoTwoWinnersShare(t)
            && RowsAccountedFor(t, s.rows.Keys)
            && |t.rows.Keys| == |s.rows.Keys| + |Winners(t)|
            && forall c :: c in Winners(t) ==> t.clients[c].phase.id !in t.clients[c].before
  {
    assert Winners(s) == {};
    RunKeepsInv(s, run, s.rows.Keys);
    var t := End(s, run);
    forall c | c in Winners(t) ensures t.clients[c].phase.id !in t.clients[c].before {
      assert ClientOk(t, t.clients[c]);
    }
  }

  /**
   Whatever creates do to each other, a row that is there stays, keeps its `created_at`, and
   changes in nothing unless another use case saves that very row.
  */
  lemma {:induction false} CreatesChangeNoRow(s: State, run: seq<Step>, id: int)
    requires Legal(s, run) && id in s.rows
    ensures id in End(s, run).rows && End(s, run).rows[id].createdAt == s.rows[id].createdAt
    ensures (forall row :: Update(row) in run ==> row.id != id) ==> End(s, run).rows[id] == s.rows[id]
    decreases |run|
  {
    if run != [] {
      assert run[0] in run && forall step :: step in run[1..] ==> step in run;
      CreatesChangeNoRow(Apply(s, run[0]), run[1..], id);
    }
  }

  /**
   The ids in use stay 1 to n, however the requests interleave, fail or crash: no id is skipped
   and none is given twice.
  */
  ghost predicate Dense(rows: Rows, n: int) {
    forall id :: id in rows <==> 1 <= id <= n
  }

  lemma {:induction false} IdsStayDense(s: State, run: seq<Step>, n: nat)
    requires ClientsOk(s) && Legal(s, run) && Dense(s.rows, n)
    ensures Dense(End(s, run).rows, n + |Winners(End(s, run))| - |Winners(s)|)
    ensures Winners(s) <= Winners(End(s, run))
    decreases |run|
  {
    if run != [] {
      var t := Apply(s, run[0]);
      StepKeepsClientsOk(s, run[0]);
      StepKeepsWinners(s, run[0]);
      var inserts := run[0].Offer? && run[0].row.id !in s.rows;
      if inserts {
        assert ClientOk(s, s.clients[run[0].client]);
        NextAfterDense(s.rows, n, run[0].row.id);
      } else {
        assert forall id :: id in t.rows <==> id in s.rows.Keys;
      }
      IdsStayDense(t, run[1..], if inserts then n + 1 else n);
    }
  }

  lemma NextOfDense(rows: Rows, n: nat)
    requires Dense(rows, n)
    ensures IsNextId(rows.Keys, n + 1)
  {
    if n > 0 {
      assert n in rows;
    } else {
      forall id ensures id !in rows.Keys {
        assert id in rows <==> 1 <= id <= n;
      }
      NoElementMeansEmpty(rows.Keys);
    }
  }

  lemma NextAfterDense(rows: Rows, n: nat, next: int)
    requires Dense(rows, n) && IsNextId(rows.Keys, next)
    ensures next == n + 1
  {
    NextOfDense(rows, n);
    NextIdIsUnique(rows.Keys, next, n + 1);
  }

  // ----- conflicts

  /** The requests other than `c` whose rows came in after `c` started. */
  function Overtakers(s: State, c: nat): set<nat>
    requires c in s.clients
  {
    set d | d in Winners(s) && d != c && s.clients[d].phase.id !in s.clients[c].before
  }

  /** Rows that were not there at first stand for as many winners. */
  lemma {:induction false} WinnersOf(s: State, initial: set<int>, ids: set<int>) returns (winners: set<nat>)
    requires RowsAccountedFor(s, initial) && ids <= s.rows.Keys - initial
    ensures winners <= Winners(s) && |winners| == |ids|
    ensures forall c :: c in winners ==> s.clients[c].phase.id in ids
    decreases |ids|
  {
    winners := {};
    NoElementMeansEmpty(ids);
    if ids != {} {
      var id :| id in ids;
      var c :| c in Winners(s) && s.clients[c].phase.id == id;
      var rest := WinnersOf(s, initial, ids - {id});
      winners := rest + {c};
    }
  }

  ghost predicate StartedAfter(s: State, initial: set<int>) {
    forall c :: c in s.clients ==> initial <= s.clients[c].before
  }

  lemma {:induction false} RowsStay(s: State, run: seq<Step>, initial: set<int>)
    requires Legal(s, run) && initial <= s.rows.Keys && StartedAfter(s, initial)
    ensures initial <= End(s, run).rows.Keys && StartedAfter(End(s, run), initial)
    decreases |run|
  {
    if run != [] {
      RowsStay(Apply(s, run[0]), run[1..], initial);
    }
  }

  /**
   A create gives up with a conflict only after four other creates succeeded while it ran; so
   among fewer than five requests none ends that way.
  */
  lemma ConflictNeedsFourOvertakers(s: State, run: seq<Step>, c: nat)
    requires Initial(s) && Legal(s, run)
    requires c in End(s, run).clients && End(s, run).clients[c].phase.Conflict?
    ensures |Overtakers(End(s, run), c)| >= DecisionService.CREATE_RETRIES
    ensures |End(s, run).clients.Keys| > DecisionService.CREATE_RETRIES
  {
    var t := End(s, run);
    assert Winners(s) == {};
    RunKeepsInv(s, run, s.rows.Keys);
    RowsStay(s, run, s.rows.Keys);
    assert ClientOk(t, t.clients[c]);
    var winners := WinnersOf(t, s.rows.Keys, t.clients[c].lost);
    assert winners <= Overtakers(t, c);
    DecisionService.SubsetSize(winners, Overtakers(t, c));
    DecisionService.SubsetSize(Overtakers(t, c) + {c}, t.clients.Keys);
  }

  // ----- four overtakers are enough

  /** One round of bad luck for client 0: another request reads the same id and inserts first. */
  function Round(c: nat, row: Row): seq<Step> {
    [Start(c), Read(c, row.id), Read(0, row.id), Offer(c, row), Offer(0, row)]
  }

  ghost predicate Unlucky(s: State, k: nat) {
    && 0 in s.clients && s.clients[0].attempts == k
    && s.clients[0].phase == (if k == DecisionService.CREATE_RETRIES then Conflict else Reading)
    && (forall c :: c in s.clients ==> c <= k)
    && Dense(s.rows, k)
  }

  lemma OneMore(s: State, step: Step, rest: seq<Step>)
    requires Enabled(s, step) && Legal(Apply(s, step), rest)
    ensures Legal(s, [step] + rest) && End(s, [step] + rest) == End(Apply(s, step), rest)
  {
    assert ([step] + rest)[1..] == rest;
  }

  lemma {:induction false} Joined(s: State, a: seq<Step>, b: seq<Step>)
    requires Legal(s, a) && Legal(End(s, a), b)
    ensures Legal(s, a + b) && End(s, a + b) == End(End(s, a), b)
    decreases |a|
  {
    if a == [] {
      assert a + b == b;
    } else {
      Joined(Apply(s, a[0]), a[1..], b);
      OneMore(s, a[0], a[1..] + b);
      assert a + b == [a[0]] + (a[1..] + b);
    }
  }

  /** An attempt that nothing disturbs between its id read and its insert is a run and succeeds. */
  lemma AttemptIsARun(s: State, c: nat, row: Row)
    requires c in s.clients && s.clients[c].phase.Reading?
    requires IsNextId(s.rows.Keys, row.id) && Decimal.IsI64(row.id)
    ensures var run := [Read(c, row.id)] + [Offer(c, row)];
            && Legal(s, run) && row.id !in s.rows
            && End(s, run).rows == s.rows[row.id := row]
            && c in End(s, run).clients && End(s, run).clients[c].phase == Done(row.id)
  {
    NextIdIsUnique(s.rows.Keys, row.id, row.id);
    var t := Apply(s, Read(c, row.id));
    OneMore(t, Offer(c, row), []);
    OneMore(s, Read(c, row.id), [Offer(c, row)]);
    assert [Offer(c, row)] + [] == [Offer(c, row)];
  }

  lemma RoundIsUnlucky(s: State, k: nat, row: Row)
    requires Unlucky(s, k) && k < DecisionService.CREATE_RETRIES && row.id == k + 1
    ensures Legal(s, Round(k + 1, row)) && Unlucky(End(s, Round(k + 1, row)), k + 1)
  {
    var c := k + 1;
    NextOfDense(s.rows, k);
    var s1 := Apply(s, Start(c));
    var s2 := Apply(s1, Read(c, c));
    var s3 := Apply(s2, Read(0, c));
    var s4 := Apply(s3, Offer(c, row));
    assert s4.rows == s.rows[c := row];
    FiveMore(s, Start(c), Read(c, c), Read(0, c), Offer(c, row), Offer(0, row));
  }

  lemma FiveMore(s: State, a: Step, b: Step, c: Step, d: Step, e: Step)
    requires Enabled(s, a)
    requires var s1 := Apply(s, a); Enabled(s1, b)
    requires var s2 := Apply(Apply(s, a), b); Enabled(s2, c)
    requires var s3 := Apply(Apply(Apply(s, a), b), c); Enabled(s3, d)
    requires var s4 := Apply(Apply(Apply(Apply(s, a), b), c), d); Enabled(s4, e)
    ensures Legal(s, [a, b, c, d, e])
    ensures End(s, [a, b, c, d, e]) == Apply(Apply(Apply(Apply(Apply(s, a), b), c), d), e)
  {
    var s1 := Apply(s, a);
    var s2 := Apply(s1, b);
    var s3 := Apply(s2, c);
    OneMore(Apply(s3, d), e, []);
    OneMore(s3, d, [e]);
    OneMore(s2, c, [d, e]);
    OneMore(s1, b, [c, d, e]);
    OneMore(s, a, [b, c, d, e]);
    assert [a] + [b, c, d, e] == [a, b, c, d, e] && [b] + [c, d, e] == [b, c, d, e];
    assert [c] + [d, e] == [c, d, e] && [d] + [e] == [d, e];
  }

  lemma {:induction false} UnluckyRun(row: Row, k: nat) returns (run: seq<Step>)
    requires k <= DecisionService.CREATE_RETRIES
    ensures Legal(State(map[], map[]), run) && Unlucky(End(State(map[], map[]), run), k)
  {
    var s := State(map[], map[]);
    if k == 0 {
      run := [Start(0)];
      OneMore(s, Start(0), []);
    } else {
      var run0 := UnluckyRun(row, k - 1);
      var round := Round(k, row.(id := k));
      RoundIsUnlucky(End(s, run0), k - 1, row.(id := k));
      Joined(s, run0, round);
      run := run0 + round;
    }
  }

  /** With five requests the conflict does happen, so four overtakers is the exact bound. */
  lemma FiveRequestsCanConflict(row: Row) returns (run: seq<Step>)
    ensures var s := State(map[], map[]);
            && Initial(s) && Legal(s, run)
            && 0 in End(s, run).clients && End(s, run).clients[0].phase.Conflict?
            && |End(s, run).clients.Keys| == 5
  {
    var s := State(map[], map[]);
    run := UnluckyRun(row, 4);
    ConflictNeedsFourOvertakers(s, run, 0);
    var ids := End(s, run).clients.Keys;
    assert ids <= {0, 1, 2, 3, 4};
    DecisionService.SubsetSize(ids, {0, 1, 2, 3, 4});
  }
}
