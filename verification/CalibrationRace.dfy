/**
 Any number of outcomes recorded for one framework at once, with the find and the update as
 separate steps. Either may fail, and a request may stop in between.
*/
module CalibrationRace {
  import opened Calibration

  /** A request between its find and its update; `at` counts the updates before its find. */
  datatype Held = Held(use: Use, seen: Framework, at: nat)

  /** `written` remembers the uses whose updates went through, in order. */
  datatype Race = Race(row: Framework, holding: map<nat, Held>, written: seq<Use>)

  datatype Step =
    | Find(request: nat, use: Use)
    | Put(request: nat)
    | Stop(request: nat)

  predicate Initial(s: Race) {
    s.holding == map[] && s.written == []
  }

  predicate Enabled(s: Race, step: Step) {
    match step
    case Find(c, _) => c !in s.holding
    case Put(c) => c in s.holding
    case Stop(c) => c in s.holding
  }

  function Apply(s: Race, step: Step): Race
    requires Enabled(s, step)
  {
    match step
    case Find(c, use) => s.(holding := s.holding[c := Held(use, s.row, |s.written|)])
    case Put(c) =>
      Race(Updated(s.holding[c].seen, s.holding[c].use), s.holding - {c}, s.written + [s.holding[c].use])
    case Stop(c) => s.(holding := s.holding - {c})
  }

  predicate Legal(s: Race, run: seq<Step>)
    decreases |run|
  {
    run != [] ==> Enabled(s, run[0]) && Legal(Apply(s, run[0]), run[1..])
  }

  function End(s: Race, run: seq<Step>): Race
    requires Legal(s, run)
    decreases |run|
  {
    if run == [] then s else End(Apply(s, run[0]), run[1..])
  }

  // ----- which uses are counted

  /** An update is stale when another one came between its find and itself. */
  predicate IsStale(s: Race, step: Step)
    requires Enabled(s, step)
  {
    step.Put? && s.holding[step.request].at < |s.written|
  }

  predicate NoneStale(s: Race, run: seq<Step>)
    requires Legal(s, run)
    decreases |run|
  {
    run != [] ==> !IsStale(s, run[0]) && NoneStale(Apply(s, run[0]), run[1..])
  }

  /** What was found is the row itself unless an update came since, and counts no more than was written. */
  predicate HeldOk(s: Race, start: Framework, h: Held) {
    && h.at <= |s.written|
    && h.seen.usage <= start.usage + h.at
    && (h.at == |s.written| ==> h.seen == s.row)
  }

  predicate Inv(s: Race, start: Framework) {
    s.row.usage <= start.usage + |s.written| && forall c :: c in s.holding ==> HeldOk(s, start, s.holding[c])
  }

  lemma StepKeepsInv(s: Race, step: Step, start: Framework)
    requires Inv(s, start) && Enabled(s, step)
    ensures Inv(Apply(s, step), start)
    ensures IsStale(s, step) ==> Apply(s, step).row.usage < start.usage + |Apply(s, step).written|
    ensures s.row.usage < start.usage + |s.written| ==>
              Apply(s, step).row.usage < start.usage + |Apply(s, step).written|
    ensures s.row == AfterUses(start, s.written) && !IsStale(s, step) ==>
              Apply(s, step).row == AfterUses(start, Apply(s, step).written)
  {
    var t := Apply(s, step);
    if step.Put? {
      var h := s.holding[step.request];
      assert HeldOk(s, start, h);
      assert t.written[..|t.written| - 1] == s.written;
    }
    forall c | c in t.holding ensures HeldOk(t, start, t.holding[c]) {
      assert c in s.holding ==> HeldOk(s, start, s.holding[c]);
    }
  }

  lemma {:induction false} LossesStay(s: Race, run: seq<Step>, start: Framework)
    requires Inv(s, start) && Legal(s, run) && s.row.usage < start.usage + |s.written|
    ensures End(s, run).row.usage < start.usage + |End(s, run).written|
    decreases |run|
  {
    if run != [] {
      StepKeepsInv(s, run[0], start);
      LossesStay(Apply(s, run[0]), run[1..], start);
    }
  }

  lemma {:induction false} CountedFrom(s: Race, run: seq<Step>, start: Framework)
    requires Inv(s, start) && Legal(s, run) && s.row == AfterUses(start, s.written)
    ensures NoneStale(s, run) ==> End(s, run).row == AfterUses(start, End(s, run).written)
    ensures !NoneStale(s, run) ==> End(s, run).row.usage < start.usage + |End(s, run).written|
    decreases |run|
  {
    if run != [] {
      StepKeepsInv(s, run[0], start);
      if IsStale(s, run[0]) {
        LossesStay(Apply(s, run[0]), run[1..], start);
      } else {
        CountedFrom(Apply(s, run[0]), run[1..], start);
      }
    }
  }

  /**
   The stored values count every use that was written exactly when no update came between the find
   and the update of another; then they are what one request after the other would have left, with
   all totals kept.
  */
  lemma AllCountedIff(s: Race, run: seq<Step>)
    requires Initial(s) && Legal(s, run)
    ensures var t := End(s, run);
            && (t.row.usage == s.row.usage + |t.written| <==> NoneStale(s, run))
            && (t.row == AfterUses(s.row, t.written) <==> NoneStale(s, run))
            && (NoneStale(s, run) ==>
                  Total(t.row.calibration, t.row.usage) == Total(s.row.calibration, s.row.usage) + Achieved(t.written))
            && (NoneStale(s, run) ==>
                  Total(t.row.deltaAvg, t.row.usage) == Total(s.row.deltaAvg, s.row.usage) + TotalDelta(t.written))
  {
    CountedFrom(s, run, s.row);
    TotalsAreKept(s.row, End(s, run).written);
  }

  // ----- what is stored when uses are lost

  /** The means over the start and some of the given uses. */
  ghost predicate MeansOfSome(fw: Framework, start: Framework, uses: seq<Use>) {
    exists kept :: fw == AfterUses(start, kept) && multiset(kept) <= multiset(uses)
  }

  ghost predicate AllMeans(s: Race, start: Framework) {
    && MeansOfSome(s.row, start, s.written)
    && forall c :: c in s.holding ==> MeansOfSome(s.holding[c].seen, start, s.written)
  }

  lemma MoreUses(fw: Framework, start: Framework, uses: seq<Use>, use: Use)
    requires MeansOfSome(fw, start, uses)
    ensures MeansOfSome(fw, start, uses + [use]) && MeansOfSome(Updated(fw, use), start, uses + [use])
  {
    var kept :| fw == AfterUses(start, kept) && multiset(kept) <= multiset(uses);
    assert (kept + [use])[..|kept|] == kept;
    assert multiset(kept + [use]) == multiset(kept) + multiset{use};
    assert Updated(fw, use) == AfterUses(start, kept + [use]);
  }

  lemma StepKeepsMeans(s: Race, step: Step, start: Framework)
    requires AllMeans(s, start) && Enabled(s, step)
    ensures AllMeans(Apply(s, step), start)
  {
    if step.Put? {
      var h := s.holding[step.request];
      MoreUses(h.seen, start, s.written, h.use);
      forall c | c in Apply(s, step).holding ensures MeansOfSome(s.holding[c].seen, start, s.written + [h.use]) {
        MoreUses(s.holding[c].seen, start, s.written, h.use);
      }
    }
  }

  lemma {:induction false} RunKeepsMeans(s: Race, run: seq<Step>, start: Framework)
    requires AllMeans(s, start) && Legal(s, run)
    ensures AllMeans(End(s, run), start)
    decreases |run|
  {
    if run != [] {
      StepKeepsMeans(s, run[0], start);
      RunKeepsMeans(Apply(s, run[0]), run[1..], start);
    }
  }

  /**
   In every interleaving the stored values are the running means over some of the uses written, so
   the calibration stays in [0,1] whatever is lost.
  */
  lemma StoredMeansAreOfUses(s: Race, run: seq<Step>)
    requires Initial(s) && Legal(s, run)
    ensures MeansOfSome(End(s, run).row, s.row, End(s, run).written)
    ensures 0.0 <= s.row.calibration <= 1.0 ==> 0.0 <= End(s, run).row.calibration <= 1.0
  {
    assert s.row == AfterUses(s.row, []);
    RunKeepsMeans(s, run, s.row);
    var kept :| End(s, run).row == AfterUses(s.row, kept) && multiset(kept) <= multiset(End(s, run).written);
    if 0.0 <= s.row.calibration <= 1.0 {
      CalibrationStaysInUnit(s.row, kept);
    }
  }
}
