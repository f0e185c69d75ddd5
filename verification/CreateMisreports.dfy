/**
 Creates whose insert takes effect without saying so: the call fails after the write, or its row
 count is missing and reads as zero. What of the create race survives, and what does not.
*/
module CreateMisreports {
  import opened DecisionStore
  import opened CreateRace
  import DecisionService
  import Decimal

  /** `orphans` remembers the rows that came in and were not reported. */
  datatype Told = Told(race: State, orphans: set<int>)

  datatype Event =
    | Honest(step: Step)
    | Vanish(client: nat, row: Row)   // the row is in, the call reports a failure
    | Deny(client: nat, row: Row)     // the row is in, the call reports that it was taken

  ghost predicate Allowed(s: Told, e: Event) {
    match e
    case Honest(step) => Enabled(s.race, step)
    case Vanish(c, row) => Enabled(s.race, Offer(c, row)) && row.id !in s.race.rows
    case Deny(c, row) => Enabled(s.race, Offer(c, row)) && row.id !in s.race.rows
  }

  ghost function Happen(s: Told, e: Event): Told
    requires Allowed(s, e)
  {
    match e
    case Honest(step) => s.(race := Apply(s.race, step))
    case Vanish(c, row) =>
      Told(State(s.race.rows[row.id := row], s.race.clients[c := s.race.clients[c].(phase := Failed)]),
           s.orphans + {row.id})
    case Deny(c, row) =>
      Told(State(s.race.rows[row.id := row], s.race.clients[c := AfterRefusal(s.race.clients[c], row.id)]),
           s.orphans + {row.id})
  }

  ghost predicate Possible(s: Told, run: seq<Event>)
    decreases |run|
  {
    run != [] ==> Allowed(s, run[0]) && Possible(Happen(s, run[0]), run[1..])
  }

  ghost function Last(s: Told, run: seq<Event>): Told
    requires Possible(s, run)
    decreases |run|
  {
    if run == [] then s else Last(Happen(s, run[0]), run[1..])
  }

  predicate AllHonest(run: seq<Event>) {
    forall k :: 0 <= k < |run| ==> run[k].Honest?
  }

  // ----- what every event keeps

  /** The race's own account, with the orphans counted as if they had been there from the start. */
  ghost predicate Kept(s: Told, initial: set<int>) {
    && Inv(s.race, initial + s.orphans) && initial !! s.orphans && StartedAfter(s.race, initial)
  }

  lemma SilentInsertRows(s: Told, e: Event)
    requires Allowed(s, e) && !e.Honest?
    ensures Happen(s, e).race.rows.Keys == s.race.rows.Keys + {e.row.id}
    ensures Happen(s, e).race.clients.Keys == s.race.clients.Keys
    ensures forall c :: c in s.race.clients && c != e.client ==> Happen(s, e).race.clients[c] == s.race.clients[c]
    ensures Winners(Happen(s, e).race) == Winners(s.race)
  {}

  lemma SilentInsertKeepsClients(s: Told, e: Event)
    requires ClientsOk(s.race) && Allowed(s, e) && !e.Honest?
    ensures ClientsOk(Happen(s, e).race)
  {
    var t := Happen(s, e).race;
    SilentInsertRows(s, e);
    assert ClientOk(s.race, s.race.clients[e.client]);
    forall c | c in t.clients ensures ClientOk(t, t.clients[c]) {
      assert ClientOk(s.race, s.race.clients[c]);
      if c != e.client {
        InsertKeepsClientOk(s.race, t, s.race.clients[c], e.row.id);
      } else {
        OwnSilentInsert(s.race, t, s.race.clients[c], e.row.id);
      }
    }
  }

  lemma OwnSilentInsert(s: State, t: State, c: Client, id: int)
    requires ClientOk(s, c) && c.phase == Offering(id) && t.rows.Keys == s.rows.Keys + {id}
    ensures ClientOk(t, c.(phase := Failed)) && ClientOk(t, AfterRefusal(c, id))
  {
    assert id !in c.before + c.lost;
  }

  /** A row that nobody won counts as one that was there. */
  lemma OneMoreInitialRow(s: State, t: State, base: set<int>, id: int)
    requires NoTwoWinnersShare(s) && RowsAccountedFor(s, base) && id !in s.rows
    requires t.rows.Keys == s.rows.Keys + {id} && Winners(t) == Winners(s)
    requires forall c :: c in Winners(s) ==> t.clients[c] == s.clients[c]
    ensures NoTwoWinnersShare(t) && RowsAccountedFor(t, base + {id})
  {
    forall x | x in t.rows.Keys - (base + {id}) ensures exists c :: c in Winners(t) && t.clients[c].phase.id == x {
      assert x in s.rows.Keys - base;
      var c :| c in Winners(s) && s.clients[c].phase.id == x;
      assert c in Winners(t);
    }
    forall c | c in Winners(t) ensures t.clients[c].phase.id in t.rows.Keys - (base + {id}) {
      assert s.clients[c].phase.id in s.rows.Keys - base;
    }
  }

  lemma HonestKeeps(s: Told, step: Step, initial: set<int>)
    requires Kept(s, initial) && Enabled(s.race, step)
    ensures Kept(Happen(s, Honest(step)), initial)
  {
    StepKeepsInv(s.race, step, initial + s.orphans);
    StartedStays(s.race, step, initial);
  }

  lemma StartedStays(s: State, step: Step, initial: set<int>)
    requires StartedAfter(s, initial) && initial <= s.rows.Keys && Enabled(s, step)
    ensures StartedAfter(Apply(s, step), initial)
  {}

  lemma {:induction false} SilentKeepsAccount(s: Told, e: Event, initial: set<int>)
    requires Kept(s, initial) && Allowed(s, e) && !e.Honest?
    ensures NoTwoWinnersShare(Happen(s, e).race)
    ensures RowsAccountedFor(Happen(s, e).race, initial + Happen(s, e).orphans)
  {
    SilentInsertRows(s, e);
    assert e.client !in Winners(s.race);
    OneMoreInitialRow(s.race, Happen(s, e).race, initial + s.orphans, e.row.id);
    assert initial + Happen(s, e).orphans == initial + s.orphans + {e.row.id};
  }

  lemma SilentKeepsStarted(s: Told, e: Event, initial: set<int>)
    requires Kept(s, initial) && Allowed(s, e) && !e.Honest?
    ensures StartedAfter(Happen(s, e).race, initial) && initial !! Happen(s, e).orphans
  {
    assert initial <= s.race.rows.Keys;
  }

  lemma EventKeeps(s: Told, e: Event, initial: set<int>)
    requires Kept(s, initial) && Allowed(s, e)
    ensures Kept(Happen(s, e), initial)
  {
    if e.Honest? {
      HonestKeeps(s, e.step, initial);
    } else {
      SilentInsertKeepsClients(s, e);
      SilentKeepsAccount(s, e, initial);
      SilentKeepsStarted(s, e, initial);
    }
  }

  lemma {:induction false} RunKeeps(s: Told, run: seq<Event>, initial: set<int>)
    requires Kept(s, initial) && Possible(s, run)
    ensures Kept(Last(s, run), initial)
    decreases |run|
  {
    if run != [] {
      EventKeeps(s, run[0], initial);
      RunKeeps(Happen(s, run[0]), run[1..], initial);
    }
  }

  ghost predicate Fresh(s: Told) {
    Initial(s.race) && s.orphans == {}
  }

  lemma FreshIsKept(s: Told)
    requires Fresh(s)
    ensures Kept(s, s.race.rows.Keys)
  {
    assert Winners(s.race) == {};
  }

  /**
   Whatever is misreported: successful creates have different ids that were free when they
   started, and every row is an initial one, that of one success, or one that was not reported.
  */
  lemma CreatesStaySafe(s: Told, run: seq<Event>)
    requires Fresh(s) && Possible(s, run)
    ensures var t := Last(s, run);
            && NoTwoWinnersShare(t.race)
            && (forall c :: c in Winners(t.race) ==> t.race.clients[c].phase.id !in t.race.clients[c].before)
            && s.race.rows.Keys !! t.orphans
            && RowsAccountedFor(t.race, s.race.rows.Keys + t.orphans)
            && |t.race.rows.Keys| == |s.race.rows.Keys| + |t.orphans| + |Winners(t.race)|
  {
    FreshIsKept(s);
    RunKeeps(s, run, s.race.rows.Keys);
    var t := Last(s, run);
    forall c | c in Winners(t.race) ensures t.race.clients[c].phase.id !in t.race.clients[c].before {
      assert ClientOk(t.race, t.race.clients[c]);
    }
  }

  /** No row is overwritten by a create, reported or not. */
  lemma {:induction false} NoRowIsOverwritten(s: Told, run: seq<Event>, id: int)
    requires Possible(s, run) && id in s.race.rows
    ensures id in Last(s, run).race.rows && Last(s, run).race.rows[id].createdAt == s.race.rows[id].createdAt
    ensures (forall row :: Honest(Update(row)) in run ==> row.id != id) ==> Last(s, run).race.rows[id] == s.race.rows[id]
    decreases |run|
  {
    if run != [] {
      assert run[0] in run && forall e :: e in run[1..] ==> e in run;
      NoRowIsOverwritten(Happen(s, run[0]), run[1..], id);
    }
  }

  lemma {:induction false} OrphansAre(s: Told, run: seq<Event>)
    requires Possible(s, run)
    ensures s.orphans <= Last(s, run).orphans
    ensures AllHonest(run) ==> Last(s, run).orphans == s.orphans
    ensures !AllHonest(run) ==> Last(s, run).orphans != {}
    decreases |run|
  {
    if run != [] {
      OrphansAre(Happen(s, run[0]), run[1..]);
      assert AllHonest(run) <==> run[0].Honest? && AllHonest(run[1..]) by {
        assert run == [run[0]] + run[1..];
      }
      assert !run[0].Honest? ==> run[0].row.id in Happen(s, run[0]).orphans;
    }
  }

  /** The rows are the initial ones and one a success exactly when every insert reported what it did. */
  lemma AccountIsExactIff(s: Told, run: seq<Event>)
    requires Fresh(s) && Possible(s, run)
    ensures var t := Last(s, run);
            && (RowsAccountedFor(t.race, s.race.rows.Keys) <==> AllHonest(run))
            && (|t.race.rows.Keys| == |s.race.rows.Keys| + |Winners(t.race)| <==> AllHonest(run))
  {
    CreatesStaySafe(s, run);
    OrphansAre(s, run);
    var t := Last(s, run);
    if AllHonest(run) {
      assert s.race.rows.Keys + t.orphans == s.race.rows.Keys;
    } else {
      NoElementMeansEmpty(t.orphans);
    }
  }

  // ----- conflicts

  lemma SilentPart(lost: set<int>, orphans: set<int>, before: set<int>)
    requires lost !! before
    ensures |lost| <= |lost - orphans| + |orphans - before|
  {
    assert lost == (lost - orphans) + (lost * orphans);
    DecisionService.SubsetSize(lost * orphans, orphans - before);
  }

  lemma LostRowsCount(s: State, c: nat, initial: set<int>, orphans: set<int>)
    requires c in s.clients && ClientOk(s, s.clients[c]) && s.clients[c].phase.Conflict?
    requires RowsAccountedFor(s, initial + orphans) && initial <= s.clients[c].before
    ensures |Overtakers(s, c)| + |orphans - s.clients[c].before| >= DecisionService.CREATE_RETRIES
  {
    var client := s.clients[c];
    SilentPart(client.lost, orphans, client.before);
    var winners := WinnersOf(s, initial + orphans, client.lost - orphans);
    assert winners <= Overtakers(s, c);
    DecisionService.SubsetSize(winners, Overtakers(s, c));
  }

  /** A conflict means four rows that came in meanwhile: of other winners, or not reported. */
  lemma ConflictNeedsFourRows(s: Told, run: seq<Event>, c: nat)
    requires Fresh(s) && Possible(s, run)
    requires c in Last(s, run).race.clients && Last(s, run).race.clients[c].phase.Conflict?
    ensures var t := Last(s, run);
            |Overtakers(t.race, c)| + |t.orphans - t.race.clients[c].before| >= DecisionService.CREATE_RETRIES
  {
    FreshIsKept(s);
    RunKeeps(s, run, s.race.rows.Keys);
    LostRowsCount(Last(s, run).race, c, s.race.rows.Keys, Last(s, run).orphans);
  }

  /** One request alone can conflict with itself, when its own inserts are denied four times. */
  ghost predicate SelfDenied(s: Told, k: nat) {
    && s.race.clients.Keys == {0} && s.race.clients[0].attempts == k
    && s.race.clients[0].phase == (if k == DecisionService.CREATE_RETRIES then Conflict else Reading)
    && Dense(s.race.rows, k)
  }

  lemma TwoMore(s: Told, a: Event, b: Event)
    requires Allowed(s, a) && Allowed(Happen(s, a), b)
    ensures Possible(s, [a, b]) && Last(s, [a, b]) == Happen(Happen(s, a), b)
  {
    assert [a, b][1..] == [b] && [b][1..] == [];
    assert Last(Happen(Happen(s, a), b), []) == Happen(Happen(s, a), b);
  }

  lemma {:induction false} Joined(s: Told, a: seq<Event>, b: seq<Event>)
    requires Possible(s, a) && Possible(Last(s, a), b)
    ensures Possible(s, a + b) && Last(s, a + b) == Last(Last(s, a), b)
    decreases |a|
  {
    if a == [] {
      assert a + b == b;
    } else {
      assert (a + b)[0] == a[0] && (a + b)[1..] == a[1..] + b;
      Joined(Happen(s, a[0]), a[1..], b);
    }
  }

  lemma DeniedAgain(s: Told, k: nat, row: Row)
    requires SelfDenied(s, k) && k < DecisionService.CREATE_RETRIES && row.id == k + 1
    ensures Possible(s, [Honest(Read(0, k + 1)), Deny(0, row)])
    ensures SelfDenied(Last(s, [Honest(Read(0, k + 1)), Deny(0, row)]), k + 1)
  {
    NextOfDense(s.race.rows, k);
    var t := Happen(s, Honest(Read(0, k + 1)));
    TwoMore(s, Honest(Read(0, k + 1)), Deny(0, row));
    assert Happen(t, Deny(0, row)).race.rows == s.race.rows[k + 1 := row];
  }

  lemma {:induction false} SelfDeniedRun(row: Row, k: nat) returns (run: seq<Event>)
    requires k <= DecisionService.CREATE_RETRIES
    ensures Possible(Told(State(map[], map[]), {}), run) && SelfDenied(Last(Told(State(map[], map[]), {}), run), k)
    decreases k
  {
    var s := Told(State(map[], map[]), {});
    if k == 0 {
      run := [Honest(Start(0))];
      assert run[1..] == [];
      assert Last(s, run) == Last(Happen(s, run[0]), []);
    } else {
      var front := SelfDeniedRun(row, k - 1);
      var t := Last(s, front);
      var next := [Honest(Read(0, k)), Deny(0, row.(id := k))];
      DeniedAgain(t, k - 1, row.(id := k));
      Joined(s, front, next);
      run := front + next;
    }
  }

  /** A single request that ends in a conflict and leaves four rows. */
  lemma ALoneRequestCanConflict(row: Row) returns (run: seq<Event>)
    ensures var s := Told(State(map[], map[]), {});
            && Fresh(s) && Possible(s, run)
            && Last(s, run).race.clients.Keys == {0} && Last(s, run).race.clients[0].phase.Conflict?
            && Dense(Last(s, run).race.rows, 4)
  {
    run := SelfDeniedRun(row, DecisionService.CREATE_RETRIES);
  }
}
