/**
 Framework calibration: running means, updated impact by impact, against the means of everything
 recorded.
*/
module Calibration {
  import opened Wrappers
  import StableSort

  datatype Framework = Framework(id: string, calibration: real, usage: nat, deltaAvg: real)

  datatype Impact = Impact(frameworkId: string, delta: real)

  /** One call of `record_outcome`. */
  datatype Call = Call(achieved: bool, impacts: seq<Impact>)

  /** One use of one framework. */
  datatype Use = Use(achieved: bool, delta: real)

  type Frameworks = map<string, Framework>

  function Score(achieved: bool): real {
    if achieved then 1.0 else 0.0
  }

  // ----- the running update

  function Updated(fw: Framework, use: Use): Framework {
    var n := (fw.usage + 1) as real;
    fw.(usage := fw.usage + 1,
        calibration := (fw.calibration * fw.usage as real + Score(use.achieved)) / n,
        deltaAvg := (fw.deltaAvg * fw.usage as real + use.delta) / n)
  }

  /** The effect of a list of impacts: unknown frameworks are skipped. */
  function Recorded(fws: Frameworks, achieved: bool, impacts: seq<Impact>): Frameworks {
    if impacts == [] then fws
    else
      var k := |impacts| - 1;
      var before := Recorded(fws, achieved, impacts[..k]);
      var id := impacts[k].frameworkId;
      if id in before then before[id := Updated(before[id], Use(achieved, impacts[k].delta))] else before
  }

  class CalibrationEngine {
    var frameworks: Frameworks
    /** The store calls that failed so far, and the frameworks that were looked up. */
    ghost var failures: nat
    ghost var finds: nat

    /**
     The impacts in order, one find and one update each; a store failure stops the loop there, and
     nothing else does. What was updated before stays.
    */
    method RecordOutcome(achieved: bool, impacts: seq<Impact>) returns (r: Result<(), string>, ghost done: nat)
      modifies this
      ensures done <= |impacts| && frameworks == Recorded(old(frameworks), achieved, impacts[..done])
      ensures r.Success? ==> done == |impacts|
      ensures failures == old(failures) + if r.Failure? then 1 else 0
      ensures finds == old(finds) + done + if r.Failure? then 1 else 0
    {
      done := 0;
      for i := 0 to |impacts|
        invariant done == i && frameworks == Recorded(old(frameworks), achieved, impacts[..i])
        invariant failures == old(failures) && finds == old(finds) + i
      {
        assert impacts[..i + 1][..i] == impacts[..i];
        var impact := impacts[i];
        var failed: bool := *;
        finds := finds + 1;
        if failed {
          failures := failures + 1;
          return Failure("find"), done;
        }
        if impact.frameworkId in frameworks {
          var fw := frameworks[impact.frameworkId];
          var newUsage := fw.usage + 1;
          var outcomeScore := if achieved then 1.0 else 0.0;
          var newCalibration := (fw.calibration * fw.usage as real + outcomeScore) / newUsage as real;
          var newDeltaAvg := (fw.deltaAvg * fw.usage as real + impact.delta) / newUsage as real;
          failed := *;
          if failed {
            failures := failures + 1;
            return Failure("update_calibration"), done;
          }
          var updated := fw.(calibration := newCalibration, usage := newUsage, deltaAvg := newDeltaAvg);
          assert updated == Updated(fw, Use(achieved, impact.delta));
          frameworks := frameworks[impact.frameworkId := updated];
        }
        done := done + 1;
      }
      return Success(()), done;
    }

    /** The ids of the frameworks used often enough, most accurate first, ties in the order listed. */
    method TopFrameworks(all: seq<Framework>, minUsage: nat) returns (ids: seq<string>)
      ensures exists ranking :: IsRanking(ranking, all, minUsage) && AreIdsAt(ids, ranking, all)
    {
      var sorted: seq<Framework> := [];
      for i := 0 to |all|
        invariant sorted == UsedEnough(all[..i], minUsage)
      {
        assert all[..i + 1][..i] == all[..i];
        if all[i].usage >= minUsage {
          sorted := sorted + [all[i]];
        }
      }
      assert all[..|all|] == all;
      ghost var ranking := TopIsARanking(all, minUsage);
      sorted := StableSort.Sort(sorted, Accuracy);
      ids := [];
      for i := 0 to |sorted|
        invariant |ids| == i && forall k :: 0 <= k < i ==> ids[k] == sorted[k].id
      {
        ids := ids + [sorted[i].id];
      }
      assert AreIdsAt(ids, ranking, all);
    }
  }

  function Accuracy(fw: Framework): real {
    fw.calibration
  }

  function UsedEnough(all: seq<Framework>, minUsage: nat): seq<Framework> {
    if all == [] then []
    else UsedEnough(all[..|all| - 1], minUsage) + (if all[|all| - 1].usage >= minUsage then [all[|all| - 1]] else [])
  }

  // ----- the batch view

  /** The uses of one framework in a list of impacts, in order; it may occur more than once. */
  function UsesIn(impacts: seq<Impact>, achieved: bool, id: string): seq<Use> {
    if impacts == [] then []
    else
      var k := |impacts| - 1;
      UsesIn(impacts[..k], achieved, id)
      + (if impacts[k].frameworkId == id then [Use(achieved, impacts[k].delta)] else [])
  }

  function UsesOf(calls: seq<Call>, id: string): seq<Use> {
    if calls == [] then []
    else UsesOf(calls[..|calls| - 1], id) + UsesIn(calls[|calls| - 1].impacts, calls[|calls| - 1].achieved, id)
  }

  function AfterCalls(fws: Frameworks, calls: seq<Call>): Frameworks {
    if calls == [] then fws
    else Recorded(AfterCalls(fws, calls[..|calls| - 1]), calls[|calls| - 1].achieved, calls[|calls| - 1].impacts)
  }

  function AfterUses(fw: Framework, uses: seq<Use>): Framework {
    if uses == [] then fw else Updated(AfterUses(fw, uses[..|uses| - 1]), uses[|uses| - 1])
  }

  function Achieved(uses: seq<Use>): real {
    if uses == [] then 0.0 else Achieved(uses[..|uses| - 1]) + Score(uses[|uses| - 1].achieved)
  }

  function TotalDelta(uses: seq<Use>): real {
    if uses == [] then 0.0 else TotalDelta(uses[..|uses| - 1]) + uses[|uses| - 1].delta
  }

  lemma {:induction false} AfterUsesConcat(fw: Framework, a: seq<Use>, b: seq<Use>)
    ensures AfterUses(fw, a + b) == AfterUses(AfterUses(fw, a), b)
  {
    if b == [] {
      assert a + b == a;
    } else {
      assert (a + b)[..|a + b| - 1] == a + b[..|b| - 1];
      AfterUsesConcat(fw, a, b[..|b| - 1]);
    }
  }

  lemma {:induction false} RecordedIsPerFramework(fws: Frameworks, achieved: bool, impacts: seq<Impact>)
    ensures Recorded(fws, achieved, impacts).Keys == fws.Keys
    ensures forall id :: id in fws ==>
              Recorded(fws, achieved, impacts)[id] == AfterUses(fws[id], UsesIn(impacts, achieved, id))
  {
    if impacts != [] {
      var k := |impacts| - 1;
      RecordedIsPerFramework(fws, achieved, impacts[..k]);
      forall id | id in fws
        ensures Recorded(fws, achieved, impacts)[id] == AfterUses(fws[id], UsesIn(impacts, achieved, id))
      {
        var uses := UsesIn(impacts[..k], achieved, id);
        if impacts[k].frameworkId == id {
          assert (uses + [Use(achieved, impacts[k].delta)])[..|uses|] == uses;
        } else {
          assert uses + [] == uses;
        }
      }
    }
  }

  /**
   Calls reach every framework through its own uses alone: repeated ids count repeatedly, unknown
   ids add nothing, and frameworks do not influence each other.
  */
  lemma {:induction false} CallsArePerFramework(fws: Frameworks, calls: seq<Call>)
    ensures AfterCalls(fws, calls).Keys == fws.Keys
    ensures forall id :: id in fws ==> AfterCalls(fws, calls)[id] == AfterUses(fws[id], UsesOf(calls, id))
  {
    if calls != [] {
      var k := |calls| - 1;
      CallsArePerFramework(fws, calls[..k]);
      RecordedIsPerFramework(AfterCalls(fws, calls[..k]), calls[k].achieved, calls[k].impacts);
      forall id | id in fws ensures AfterCalls(fws, calls)[id] == AfterUses(fws[id], UsesOf(calls, id)) {
        AfterUsesConcat(fws[id], UsesOf(calls[..k], id), UsesIn(calls[k].impacts, calls[k].achieved, id));
      }
    }
  }

  // ----- running means are means

  /** The sum behind a mean. */
  function Total(mean: real, n: nat): real {
    mean * n as real
  }

  lemma UpdateAddsToTotals(fw: Framework, use: Use)
    ensures var after := Updated(fw, use);
            && Total(after.calibration, after.usage) == Total(fw.calibration, fw.usage) + Score(use.achieved)
            && Total(after.deltaAvg, after.usage) == Total(fw.deltaAvg, fw.usage) + use.delta
  {
    DivideAndMultiply(fw.calibration * fw.usage as real + Score(use.achieved), (fw.usage + 1) as real);
    DivideAndMultiply(fw.deltaAvg * fw.usage as real + use.delta, (fw.usage + 1) as real);
  }

  lemma DivideAndMultiply(x: real, n: real)
    requires n > 0.0
    ensures x / n * n == x
  {}

  /** Mean times count is the total: what was there before plus everything recorded. */
  lemma {:induction false} TotalsAreKept(fw: Framework, uses: seq<Use>)
    ensures var after := AfterUses(fw, uses);
            && after.usage == fw.usage + |uses| && after.id == fw.id
            && Total(after.calibration, after.usage) == Total(fw.calibration, fw.usage) + Achieved(uses)
            && Total(after.deltaAvg, after.usage) == Total(fw.deltaAvg, fw.usage) + TotalDelta(uses)
  {
    if uses != [] {
      TotalsAreKept(fw, uses[..|uses| - 1]);
      UpdateAddsToTotals(AfterUses(fw, uses[..|uses| - 1]), uses[|uses| - 1]);
    }
  }

  lemma MeanFromTotal(mean: real, n: nat, total: real)
    requires n > 0 && Total(mean, n) == total
    ensures mean == total / n as real
  {
    MultiplyAndDivide(mean, n as real);
  }

  lemma MultiplyAndDivide(x: real, n: real)
    requires n > 0.0
    ensures x * n / n == x
  {}

  lemma MeansAgree(mean: real, other: real, n: nat)
    requires n > 0 && Total(mean, n) == Total(other, n)
    ensures mean == other
  {
    MultiplyAndDivide(mean, n as real);
    MultiplyAndDivide(other, n as real);
  }

  /** The positions of the uses that achieved their outcome. */
  function Successes(uses: seq<Use>): (s: set<nat>)
    ensures |s| <= |uses|
  {
    var s := set i: nat | i < |uses| && uses[i].achieved;
    SubsetIsNoLarger(s, |uses|);
    s
  }

  lemma {:induction false} SubsetIsNoLarger(s: set<nat>, n: nat)
    requires forall i :: i in s ==> i < n
    ensures |s| <= n
  {
    if n == 0 {
      assert s == {};
    } else {
      SubsetIsNoLarger(s - {n - 1}, n - 1);
    }
  }

  /** The sum of the scores counts the uses that achieved their outcome. */
  lemma {:induction false} AchievedIsACount(uses: seq<Use>)
    ensures Achieved(uses) == |Successes(uses)| as real
    ensures 0.0 <= Achieved(uses) <= |uses| as real
  {
    if uses != [] {
      var n := |uses| - 1;
      AchievedIsACount(uses[..n]);
      assert Successes(uses) == Successes(uses[..n]) + (if uses[n].achieved then {n} else {});
    }
  }

  /**
   On a framework that starts unused, after any calls that use it: calibration is the share of
   achieved outcomes and lies in [0,1], and the delta average is the mean of all deltas.
  */
  lemma FreshFrameworksAreBatchMeans(fws: Frameworks, calls: seq<Call>, id: string)
    requires id in fws && fws[id].usage == 0 && UsesOf(calls, id) != []
    ensures id in AfterCalls(fws, calls)
    ensures var fw, uses := AfterCalls(fws, calls)[id], UsesOf(calls, id);
            && fw.usage == |uses|
            && fw.calibration == |Successes(uses)| as real / |uses| as real && 0.0 <= fw.calibration <= 1.0
            && fw.deltaAvg == TotalDelta(uses) / |uses| as real
  {
    CallsArePerFramework(fws, calls);
    var fw, uses := AfterCalls(fws, calls)[id], UsesOf(calls, id);
    TotalsAreKept(fws[id], uses);
    MeanFromTotal(fw.calibration, |uses|, Achieved(uses));
    MeanFromTotal(fw.deltaAvg, |uses|, TotalDelta(uses));
    AchievedIsACount(uses);
    ShareIsInUnit(Achieved(uses), |uses|);
  }

  lemma ShareIsInUnit(x: real, n: nat)
    requires 0.0 <= x <= n as real && n > 0
    ensures 0.0 <= x / n as real <= 1.0
  {}

  /** Calibration never leaves [0,1], from any start inside it. */
  lemma CalibrationStaysInUnit(fw: Framework, uses: seq<Use>)
    requires 0.0 <= fw.calibration <= 1.0
    ensures 0.0 <= AfterUses(fw, uses).calibration <= 1.0
  {
    TotalsAreKept(fw, uses);
    AchievedIsACount(uses);
    WeightIsInRange(fw.calibration, fw.usage);
    var after := AfterUses(fw, uses);
    if after.usage > 0 {
      MeanFromTotal(after.calibration, after.usage, Total(fw.calibration, fw.usage) + Achieved(uses));
      ShareIsInUnit(Total(fw.calibration, fw.usage) + Achieved(uses), after.usage);
    } else {
      assert uses == [];
    }
  }

  lemma WeightIsInRange(x: real, n: nat)
    requires 0.0 <= x <= 1.0
    ensures 0.0 <= Total(x, n) <= n as real
  {
    NotNegative(x, n as real);
    NotNegative(1.0 - x, n as real);
    assert (1.0 - x) * n as real == n as real - x * n as real;
  }

  lemma NotNegative(a: real, b: real)
    requires a >= 0.0 && b >= 0.0
    ensures a * b >= 0.0
  {}

  // ----- order does not matter

  lemma {:induction false} TotalsAt(uses: seq<Use>, i: nat)
    requires i < |uses|
    ensures Achieved(uses) == Achieved(uses[..i] + uses[i + 1..]) + Score(uses[i].achieved)
    ensures TotalDelta(uses) == TotalDelta(uses[..i] + uses[i + 1..]) + uses[i].delta
  {
    var k := |uses| - 1;
    if i == k {
      assert uses[..i] + uses[i + 1..] == uses[..k];
    } else {
      TotalsAt(uses[..k], i);
      var rest := uses[..i] + uses[i + 1..];
      assert rest[..|rest| - 1] == uses[..k][..i] + uses[..k][i + 1..];
      assert rest[|rest| - 1] == uses[k];
    }
  }

  lemma {:induction false} TotalsOfPermutation(a: seq<Use>, b: seq<Use>)
    requires multiset(a) == multiset(b)
    ensures Achieved(a) == Achieved(b) && TotalDelta(a) == TotalDelta(b) && |a| == |b|
    decreases |a|
  {
    assert |a| == |multiset(a)| == |multiset(b)| == |b|;
    if a != [] {
      var x, k := a[|a| - 1], |a| - 1;
      assert a == a[..k] + [x];
      assert x in multiset(b);
      var i :| 0 <= i < |b| && b[i] == x;
      assert b == b[..i] + [x] + b[i + 1..];
      assert multiset(a[..k]) == multiset(a) - multiset{x};
      assert multiset(b[..i] + b[i + 1..]) == multiset(b) - multiset{x};
      TotalsOfPermutation(a[..k], b[..i] + b[i + 1..]);
      TotalsAt(b, i);
    }
  }

  /** The same uses in any order, over any split into calls, leave the same calibration. */
  lemma OrderDoesNotMatter(fws: Frameworks, calls: seq<Call>, others: seq<Call>, id: string)
    requires id in fws && multiset(UsesOf(calls, id)) == multiset(UsesOf(others, id))
    ensures id in AfterCalls(fws, calls) && id in AfterCalls(fws, others)
    ensures AfterCalls(fws, calls)[id] == AfterCalls(fws, others)[id]
  {
    CallsArePerFramework(fws, calls);
    CallsArePerFramework(fws, others);
    SameTotalsSameFramework(fws[id], UsesOf(calls, id), UsesOf(others, id));
  }

  lemma SameTotalsSameFramework(fw: Framework, a: seq<Use>, b: seq<Use>)
    requires multiset(a) == multiset(b)
    ensures AfterUses(fw, a) == AfterUses(fw, b)
  {
    TotalsOfPermutation(a, b);
    TotalsAreKept(fw, a);
    TotalsAreKept(fw, b);
    if a != [] {
      MeansAgree(AfterUses(fw, a).calibration, AfterUses(fw, b).calibration, fw.usage + |a|);
      MeansAgree(AfterUses(fw, a).deltaAvg, AfterUses(fw, b).deltaAvg, fw.usage + |a|);
    } else {
      assert b == [];
    }
  }

  // ----- the ranking

  /**
   The positions of the frameworks used often enough: higher calibration first, and in the order
   listed where it is equal.
  */
  ghost predicate IsRanking(ranking: seq<nat>, all: seq<Framework>, minUsage: nat) {
    && (forall k :: 0 <= k < |ranking| ==> ranking[k] < |all|)
    && (forall j, k :: 0 <= j < k < |ranking| ==> IsAhead(all, ranking[j], ranking[k]))
    && (forall i: nat :: i < |all| ==> (i in ranking <==> all[i].usage >= minUsage))
  }

  predicate AreIdsAt(ids: seq<string>, ranking: seq<nat>, all: seq<Framework>) {
    |ids| == |ranking| && forall k :: 0 <= k < |ids| ==> ranking[k] < |all| && ids[k] == all[ranking[k]].id
  }

  predicate IsAhead(all: seq<Framework>, i: nat, j: nat)
    requires i < |all| && j < |all|
  {
    all[i].calibration > all[j].calibration || (all[i].calibration == all[j].calibration && i < j)
  }

  /** The positions of the frameworks used often enough, in order. */
  ghost predicate AreKept(kept: seq<nat>, all: seq<Framework>, minUsage: nat) {
    && (forall k :: 0 <= k < |kept| ==> kept[k] < |all|)
    && (forall j, k :: 0 <= j < k < |kept| ==> kept[j] < kept[k])
    && (forall i: nat :: i < |all| ==> (i in kept <==> all[i].usage >= minUsage))
  }

  lemma KeptWithLast(kept: seq<nat>, all: seq<Framework>, minUsage: nat)
    requires all != [] && AreKept(kept, all[..|all| - 1], minUsage)
    ensures AreKept(kept + (if all[|all| - 1].usage >= minUsage then [|all| - 1] else []), all, minUsage)
  {
    var n := |all| - 1;
    var more := kept + (if all[n].usage >= minUsage then [n] else []);
    forall i: nat | i < |all| ensures i in more <==> all[i].usage >= minUsage {
      assert i in more <==> i in kept || (i == n && all[n].usage >= minUsage);
      assert i < n ==> all[..n][i] == all[i];
    }
  }

  /** Every framework used often enough is listed, and only those, in the order they came. */
  lemma {:induction false} UsedEnoughKeeps(all: seq<Framework>, minUsage: nat) returns (kept: seq<nat>)
    ensures AreKept(kept, all, minUsage)
    ensures UsedEnough(all, minUsage) == StableSort.At(all, kept)
  {
    kept := [];
    if all != [] {
      var n := |all| - 1;
      var before := UsedEnoughKeeps(all[..n], minUsage);
      KeptWithLast(before, all, minUsage);
      var last := if all[n].usage >= minUsage then [n] else [];
      kept := before + last;
      assert StableSort.At(all, kept) == StableSort.At(all[..n], before) + StableSort.At(all, last);
    }
  }

  lemma KeptOrder(all: seq<Framework>, minUsage: nat, kept: seq<nat>, order: seq<nat>)
    requires AreKept(kept, all, minUsage)
    requires StableSort.IsOrder(order, StableSort.At(all, kept), Accuracy)
    ensures forall j, k :: 0 <= j < k < |order| ==> IsAhead(all, kept[order[j]], kept[order[k]])
    ensures forall i :: i in kept <==> i in StableSort.At(kept, order)
  {
    var used := StableSort.At(all, kept);
    forall j, k | 0 <= j < k < |order| ensures IsAhead(all, kept[order[j]], kept[order[k]]) {
      assert StableSort.Precedes(used, Accuracy, order[j], order[k]);
    }
    forall i | i in kept ensures i in StableSort.At(kept, order) {
      var k :| 0 <= k < |kept| && kept[k] == i;
      assert k in order;
      var m :| 0 <= m < |order| && order[m] == k;
      assert StableSort.At(kept, order)[m] == i;
    }
  }

  /** The stable sort of the kept frameworks is the ranking. */
  lemma TopIsARanking(all: seq<Framework>, minUsage: nat) returns (ranking: seq<nat>)
    ensures IsRanking(ranking, all, minUsage)
    ensures StableSort.Sort(UsedEnough(all, minUsage), Accuracy) == StableSort.At(all, ranking)
  {
    var kept := UsedEnoughKeeps(all, minUsage);
    var order := StableSort.SortOrder(UsedEnough(all, minUsage), Accuracy);
    KeptOrder(all, minUsage, kept, order);
    ranking := StableSort.At(kept, order);
  }
}
