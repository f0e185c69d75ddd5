/**
 The advisor's decision evidence: plan, list, filter by domain, score and rank.
*/
module ContextEngine {
  import opened Wrappers
  import opened Evidence
  import Ids
  import StableSort

  datatype DecisionQuery = DecisionQuery(domain: Option<string>, statuses: seq<string>, limit: nat)

  datatype RankComponents = RankComponents(
    queryAlignment: real,
    confidence: real,
    recency: real,
    usageFrequency: real,
    userSpecificity: real)

  datatype ScoredDecision = ScoredDecision(
    id: string,
    title: string,
    decisionType: string,
    status: string,
    confidence: real,
    relevanceScore: real,
    rankComponents: RankComponents)

  /** A store reply to one query: the rows, or None for a store error. */
  type Reply = Option<seq<Decision>>

  predicate AllAnswered(replies: seq<Reply>) {
    forall i :: 0 <= i < |replies| ==> replies[i].Some?
  }

  function Rows(replies: seq<Reply>): seq<seq<Decision>>
    requires AllAnswered(replies)
  {
    seq(|replies|, i requires 0 <= i < |replies| => replies[i].value)
  }

  // ----- the repository

  /** The queries in order: an error ends them, otherwise the answers are put behind each other. */
  method JoinAnswers(replies: seq<Reply>) returns (r: Result<seq<Decision>, string>)
    ensures r.Success? <==> AllAnswered(replies)
    ensures r.Success? ==> r.value == Concat(Rows(replies))
  {
    var rows: seq<Decision> := [];
    for i := 0 to |replies|
      invariant AllAnswered(replies[..i])
      invariant rows == Concat(Rows(replies[..i]))
    {
      match replies[i]
      case None =>
        return Failure("list_decisions");
      case Some(answer) =>
        assert Rows(replies[..i + 1])[..i] == Rows(replies[..i]);
        rows := rows + answer;
    }
    assert replies[..|replies|] == replies;
    return Success(rows);
  }

  /**
   One query for each status, merged. It fails exactly when a query fails; otherwise the rows
   carry the times of the global query, and they are its rows when every winner is forced.
  */
  method ListDecisions(statuses: seq<string>, limit: nat, replies: seq<Reply>, ghost t: Table)
    returns (r: Result<seq<Decision>, string>)
    requires UniqueIds(t) && DistinctStatuses(statuses) && |replies| == |statuses|
    requires forall i :: 0 <= i < |replies| && replies[i].Some? ==> ValidAnswer(replies[i].value, t, statuses[i], limit)
    ensures r.Success? <==> AllAnswered(replies)
    ensures r.Success? ==> r.value == MergeEligible(Concat(Rows(replies)), limit)
    ensures r.Success? ==> WeaklyTop(r.value, Eligible(t, statuses), limit)
    ensures r.Success? ==>
              var g := Newest(Eligible(t, statuses), limit);
              |r.value| == |g| && forall i :: 0 <= i < |g| ==> r.value[i].createdAt == g[i].createdAt
    ensures r.Success? && AllForced(t, statuses, limit) ==> r.value == Newest(Eligible(t, statuses), limit)
  {
    if statuses == [] {
      assert Eligible(t, statuses) == {} && Rows(replies) == [];
      return Success([]);
    }
    var rows := JoinAnswers(replies);
    if rows.Failure? {
      return rows;
    }
    ghost var qs := Rows(replies);
    assert ValidAnswers(qs, t, statuses, limit);
    ListedIs(qs, t, statuses, limit);
    return Success(MergeEligible(rows.value, limit));
  }

  lemma ListedIs(qs: seq<seq<Decision>>, t: Table, statuses: seq<string>, limit: nat)
    requires UniqueIds(t) && DistinctStatuses(statuses) && ValidAnswers(qs, t, statuses, limit)
    ensures var m, g := MergeEligible(Concat(qs), limit), Newest(Eligible(t, statuses), limit);
            && WeaklyTop(m, Eligible(t, statuses), limit)
            && |m| == |g| && (forall i :: 0 <= i < |g| ==> m[i].createdAt == g[i].createdAt)
            && (AllForced(t, statuses, limit) ==> m == g)
  {
    MergeIsWeaklyTop(qs, t, statuses, limit);
    MergeTimesAreExact(qs, t, statuses, limit);
    if AllForced(t, statuses, limit) {
      ForcedMerge(qs, t, statuses, limit);
    }
  }

  // ----- the domain filter

  predicate Contains(s: string, part: string) {
    exists i :: 0 <= i <= |s| && part <= s[i..]
  }

  predicate InDomain(d: Decision, domain: Option<string>, lower: string -> string) {
    domain.None?
    || Contains(d.decisionType, domain.value)
    || Contains(lower(d.title), lower(domain.value))
  }

  function Scored(d: Decision): ScoredDecision {
    ScoredDecision(Ids.DecisionId(d.id), d.title, d.decisionType, d.status, d.confidence, 0.0,
                   RankComponents(0.0, d.confidence, 0.0, 0.0, 1.0))
  }

  function RetrieveDecisions(rows: seq<Decision>, domain: Option<string>, lower: string -> string): seq<ScoredDecision> {
    if rows == [] then []
    else (if InDomain(rows[0], domain, lower) then [Scored(rows[0])] else [])
         + RetrieveDecisions(rows[1..], domain, lower)
  }

  // ----- the stable rank

  function Relevance(x: ScoredDecision): real {
    x.relevanceScore
  }

  /** The stable sort by relevance, highest first. */
  function Rank(items: seq<ScoredDecision>): seq<ScoredDecision> {
    StableSort.Sort(items, Relevance)
  }

  /** Ranking sorts, loses nothing, and keeps the order of items of equal relevance. */
  lemma RankIsStable(items: seq<ScoredDecision>, v: real)
    ensures multiset(Rank(items)) == multiset(items)
    ensures forall i, j :: 0 <= i < j < |Rank(items)| ==> Rank(items)[i].relevanceScore >= Rank(items)[j].relevanceScore
    ensures StableSort.WithKey(Rank(items), Relevance, v) == StableSort.WithKey(items, Relevance, v)
  {
    StableSort.SortIsASort(items, Relevance);
    StableSort.SortIsStable(items, Relevance, v);
    assert forall x: ScoredDecision :: Relevance(x) == x.relevanceScore;
  }

  /** Items of one relevance stay as they are. */
  lemma RankKeepsEqualScores(items: seq<ScoredDecision>, v: real)
    requires forall x :: x in items ==> x.relevanceScore == v
    ensures Rank(items) == items
  {
    StableSort.SortOfSorted(items, Relevance);
  }

  lemma {:induction false} RetrievedRowsComeFromRows(rows: seq<Decision>, domain: Option<string>, lower: string -> string)
    ensures |RetrieveDecisions(rows, domain, lower)| <= |rows|
    ensures forall x :: x in RetrieveDecisions(rows, domain, lower) ==>
              x.relevanceScore == 0.0 && exists d :: d in rows && InDomain(d, domain, lower) && x == Scored(d)
    ensures forall d :: d in rows && InDomain(d, domain, lower) ==> Scored(d) in RetrieveDecisions(rows, domain, lower)
  {
    if rows != [] {
      RetrievedRowsComeFromRows(rows[1..], domain, lower);
      forall x | x in RetrieveDecisions(rows, domain, lower)
        ensures x.relevanceScore == 0.0 && exists d :: d in rows && InDomain(d, domain, lower) && x == Scored(d)
      {
        if x in RetrieveDecisions(rows[1..], domain, lower) {
          var d :| d in rows[1..] && InDomain(d, domain, lower) && x == Scored(d);
          assert d in rows;
        }
      }
    }
  }

  // ----- what the filter keeps

  /** No domain is asked for, or the type holds it, or the title holds it in lowercase. */
  ghost predicate IsAbout(d: Decision, domain: Option<string>, lower: string -> string) {
    || domain.None?
    || (exists a, b :: d.decisionType == a + domain.value + b)
    || (exists a, b :: lower(d.title) == a + lower(domain.value) + b)
  }

  /** The item of a row: its fields, and the score of every retrieved decision. */
  predicate ShowsRow(x: ScoredDecision, d: Decision) {
    && x.id == Ids.DecisionId(d.id) && x.title == d.title && x.decisionType == d.decisionType
    && x.status == d.status && x.confidence == d.confidence && x.relevanceScore == 0.0
    && x.rankComponents.queryAlignment == x.rankComponents.recency == x.rankComponents.usageFrequency == 0.0
    && x.rankComponents.confidence == d.confidence && x.rankComponents.userSpecificity == 1.0
  }

  /** The items are those of the rows at the picked positions: of all that are about the domain, in order. */
  ghost predicate ArePicked(
    picks: seq<nat>, items: seq<ScoredDecision>, rows: seq<Decision>, domain: Option<string>, lower: string -> string)
  {
    && |picks| == |items|
    && (forall k :: 0 <= k < |picks| ==> picks[k] < |rows| && ShowsRow(items[k], rows[picks[k]]))
    && (forall j, k :: 0 <= j < k < |picks| ==> picks[j] < picks[k])
    && (forall i: nat :: i < |rows| ==> (i in picks <==> IsAbout(rows[i], domain, lower)))
  }

  /** The positions that are set, in order. */
  predicate ArePositions(picks: seq<nat>, wanted: seq<bool>) {
    && (forall k :: 0 <= k < |picks| ==> picks[k] < |wanted|)
    && (forall j, k :: 0 <= j < k < |picks| ==> picks[j] < picks[k])
    && (forall i: nat :: i < |wanted| ==> (i in picks <==> wanted[i]))
  }

  ghost predicate IsFiltered(items: seq<ScoredDecision>, rows: seq<Decision>, domain: Option<string>, lower: string -> string) {
    exists picks :: ArePicked(picks, items, rows, domain, lower)
  }

  lemma ContainsIff(s: string, part: string)
    ensures Contains(s, part) <==> exists a, b :: s == a + part + b
  {
    if i :| 0 <= i <= |s| && part <= s[i..] {
      assert s == s[..i] + part + s[i..][|part|..];
    }
    if a, b :| s == a + part + b {
      assert s[|a|..] == part + b;
    }
  }

  lemma InDomainIff(d: Decision, domain: Option<string>, lower: string -> string)
    ensures InDomain(d, domain, lower) <==> IsAbout(d, domain, lower)
  {
    if domain.Some? {
      ContainsIff(d.decisionType, domain.value);
      ContainsIff(lower(d.title), lower(domain.value));
    }
  }

  function Shifted(picks: seq<nat>): seq<nat> {
    seq(|picks|, k requires 0 <= k < |picks| => picks[k] + 1)
  }

  lemma ShiftedHas(picks: seq<nat>, i: nat)
    ensures i in Shifted(picks) <==> i > 0 && i - 1 in picks
  {
    if i > 0 && i - 1 in picks {
      var k :| 0 <= k < |picks| && picks[k] == i - 1;
      assert Shifted(picks)[k] == i;
    }
  }

  lemma OneMorePosition(picks: seq<nat>, wanted: seq<bool>)
    requires wanted != [] && ArePositions(picks, wanted[1..])
    ensures ArePositions((if wanted[0] then [0] else []) + Shifted(picks), wanted)
  {
    var all := (if wanted[0] then [0] else []) + Shifted(picks);
    forall i: nat | i < |wanted| ensures i in all <==> wanted[i] {
      ShiftedHas(picks, i);
      assert i > 0 ==> wanted[i] == wanted[1..][i - 1];
    }
  }

  ghost function Wanted(rows: seq<Decision>, domain: Option<string>, lower: string -> string): seq<bool> {
    seq(|rows|, i requires 0 <= i < |rows| => IsAbout(rows[i], domain, lower))
  }

  predicate AllShown(picks: seq<nat>, items: seq<ScoredDecision>, rows: seq<Decision>) {
    |picks| == |items| && forall k :: 0 <= k < |picks| ==> picks[k] < |rows| && ShowsRow(items[k], rows[picks[k]])
  }

  lemma ShownBehind(picks: seq<nat>, rest: seq<ScoredDecision>, rows: seq<Decision>)
    requires rows != [] && AllShown(picks, rest, rows[1..])
    ensures AllShown(Shifted(picks), rest, rows) && AllShown([0] + Shifted(picks), [Scored(rows[0])] + rest, rows)
  {
    assert forall k :: 0 <= k < |picks| ==> rows[Shifted(picks)[k]] == rows[1..][picks[k]];
  }

  lemma {:induction false} RetrievedPositions(rows: seq<Decision>, domain: Option<string>, lower: string -> string)
    returns (picks: seq<nat>)
    ensures ArePositions(picks, Wanted(rows, domain, lower))
    ensures AllShown(picks, RetrieveDecisions(rows, domain, lower), rows)
  {
    picks := [];
    if rows != [] {
      var behind := RetrievedPositions(rows[1..], domain, lower);
      var rest := RetrieveDecisions(rows[1..], domain, lower);
      assert Wanted(rows, domain, lower)[1..] == Wanted(rows[1..], domain, lower);
      OneMorePosition(behind, Wanted(rows, domain, lower));
      ShownBehind(behind, rest, rows);
      InDomainIff(rows[0], domain, lower);
      picks := (if IsAbout(rows[0], domain, lower) then [0] else []) + Shifted(behind);
      assert [] + Shifted(behind) == Shifted(behind) && [] + rest == rest;
    }
  }

  /** The retrieved items are the rows about the domain, in order and with their fields. */
  lemma RetrievedAreFiltered(rows: seq<Decision>, domain: Option<string>, lower: string -> string)
    ensures IsFiltered(RetrieveDecisions(rows, domain, lower), rows, domain, lower)
  {
    var picks := RetrievedPositions(rows, domain, lower);
    assert forall i: nat :: i < |rows| ==> Wanted(rows, domain, lower)[i] == IsAbout(rows[i], domain, lower);
    assert ArePicked(picks, RetrieveDecisions(rows, domain, lower), rows, domain, lower);
  }

  // ----- the whole pipeline

  /** Planner, repository, retriever and ranker in sequence. */
  method EvidenceFor(query: DecisionQuery, replies: seq<Reply>, lower: string -> string, ghost t: Table)
    returns (r: Result<seq<ScoredDecision>, string>)
    requires UniqueIds(t) && DistinctStatuses(query.statuses) && |replies| == |query.statuses|
    requires forall i :: 0 <= i < |replies| && replies[i].Some? ==>
               ValidAnswer(replies[i].value, t, query.statuses[i], query.limit)
    ensures r.Success? <==> AllAnswered(replies)
    ensures r.Success? ==>
              r.value == RetrieveDecisions(MergeEligible(Concat(Rows(replies)), query.limit), query.domain, lower)
    ensures r.Success? ==>
              IsFiltered(r.value, MergeEligible(Concat(Rows(replies)), query.limit), query.domain, lower)
    ensures r.Success? ==> |r.value| <= query.limit
    ensures r.Success? ==> forall x :: x in r.value ==>
              exists d :: d in t && d.status in query.statuses && InDomain(d, query.domain, lower) && x == Scored(d)
    ensures r.Success? && AllForced(t, query.statuses, query.limit) ==>
              r.value == RetrieveDecisions(Newest(Eligible(t, query.statuses), query.limit), query.domain, lower)
  {
    var listed := ListDecisions(query.statuses, query.limit, replies, t);
    if listed.Failure? {
      return Failure(listed.error);
    }
    var retrieved := RetrieveDecisions(listed.value, query.domain, lower);
    RetrievedRowsComeFromRows(listed.value, query.domain, lower);
    RetrievedAreFiltered(listed.value, query.domain, lower);
    RankKeepsEqualScores(retrieved, 0.0);
    var ranked := Rank(retrieved);
    forall x | x in ranked
      ensures exists d :: d in t && d.status in query.statuses && InDomain(d, query.domain, lower) && x == Scored(d)
    {
      var d :| d in listed.value && InDomain(d, query.domain, lower) && x == Scored(d);
      assert d in Elements(listed.value) && d in Eligible(t, query.statuses);
    }
    return Success(ranked);
  }

  /** The allowlist and the cap of every plan. */
  function PlanDecisions(domain: Option<string>): DecisionQuery {
    DecisionQuery(domain, ["active", "completed"], 10)
  }

  /**
   For the planner's own query: the evidence is the newest ten exactly when no winner shares its
   status with more than ten rows at least as new.
  */
  lemma PlannedEvidenceIsExactIff(t: Table, domain: Option<string>)
    requires UniqueIds(t)
    ensures var q := PlanDecisions(domain);
            && q.domain == domain && q.statuses == ["active", "completed"] && q.limit == 10
            && ((forall qs :: ValidAnswers(qs, t, q.statuses, q.limit) ==>
                   MergeEligible(Concat(qs), q.limit) == Newest(Eligible(t, q.statuses), q.limit))
                <==> (forall r :: r in Newest(Eligible(t, ["active", "completed"]), 10) ==> |AtLeastAsNew(t, r)| <= 10))
  {
    var q := PlanDecisions(domain);
    assert "active" != "completed" by { assert |"active"| != |"completed"|; }
    MergeIsExactIff(t, q.statuses, q.limit);
  }
}
