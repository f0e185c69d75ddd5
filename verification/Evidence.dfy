/**
 Evidence selection: one capped query for each allowed status, a merge, and the question when
 that is the capped query over all of them.
*/
module Evidence {
  import Decimal
  import Ids

  datatype Decision = Decision(
    id: int,
    createdAt: int,
    status: string,
    title: string,
    decisionType: string,
    confidence: real)

  type Table = set<Decision>

  ghost predicate UniqueIds(t: Table) {
    forall a, b :: a in t && b in t && a.id == b.id ==> a == b
  }

  /** The order of the merge: `created_at` descending, then `id` descending. */
  predicate Newer(a: Decision, b: Decision) {
    a.createdAt > b.createdAt || (a.createdAt == b.createdAt && a.id > b.id)
  }

  function Elements(s: seq<Decision>): set<Decision> {
    set r | r in s
  }

  function Min(a: nat, b: nat): nat {
    if a < b then a else b
  }

  function Take(s: seq<Decision>, k: nat): seq<Decision> {
    s[..Min(k, |s|)]
  }

  // ----- the merge, as the source computes it

  function Insert(r: Decision, s: seq<Decision>): seq<Decision> {
    if s == [] then [r]
    else if Newer(s[0], r) then [s[0]] + Insert(r, s[1..])
    else [r] + s
  }

  /** The library's stable sort under `Newer`. */
  function Sort(s: seq<Decision>): seq<Decision> {
    if s == [] then [] else Insert(s[0], Sort(s[1..]))
  }

  function MergeEligible(rows: seq<Decision>, limit: nat): seq<Decision> {
    Take(Sort(rows), limit)
  }

  // ----- what a capped query may answer

  function Matching(t: Table, status: string): set<Decision> {
    set r | r in t && r.status == status
  }

  ghost predicate Distinct(s: seq<Decision>) {
    forall i, j :: 0 <= i < j < |s| ==> s[i] != s[j]
  }

  /**
   An answer the database may give to the query for one status: it is ordered and cut by
   `created_at` alone, so rows of one second may come in any order and any of them may be cut.
  */
  ghost predicate ValidAnswer(q: seq<Decision>, t: Table, status: string, limit: nat) {
    && Distinct(q)
    && (forall r :: r in q ==> r in Matching(t, status))
    && (forall i, j :: 0 <= i < j < |q| ==> q[i].createdAt >= q[j].createdAt)
    && |q| == Min(limit, |Matching(t, status)|)
    && (forall r, x :: r in Matching(t, status) && r !in q && x in q ==> x.createdAt >= r.createdAt)
  }

  ghost predicate ValidAnswers(qs: seq<seq<Decision>>, t: Table, statuses: seq<string>, limit: nat) {
    |qs| == |statuses| && forall i :: 0 <= i < |qs| ==> ValidAnswer(qs[i], t, statuses[i], limit)
  }

  function Concat(qs: seq<seq<Decision>>): seq<Decision> {
    if qs == [] then [] else Concat(qs[..|qs| - 1]) + qs[|qs| - 1]
  }

  function Eligible(t: Table, statuses: seq<string>): set<Decision> {
    set r | r in t && r.status in statuses
  }

  // ----- the reference: one query over all allowed statuses

  ghost predicate IsNewestOf(m: Decision, s: set<Decision>) {
    m in s && forall r :: r in s && r != m ==> Newer(m, r)
  }

  lemma {:induction false} NewestExists(s: set<Decision>)
    requires s != {} && UniqueIds(s)
    ensures exists m :: IsNewestOf(m, s)
  {
    var r :| r in s;
    if s == {r} {
      assert IsNewestOf(r, s);
    } else {
      NewestExists(s - {r});
      var m :| IsNewestOf(m, s - {r});
      var best := if Newer(m, r) then m else r;
      forall x | x in s && x != best ensures Newer(best, x) {
        assert x == r || x == m || x in s - {r};
      }
      assert IsNewestOf(best, s);
    }
  }

  /** `ORDER BY created_at DESC, id DESC LIMIT limit` over a set of rows. */
  ghost function Newest(s: set<Decision>, limit: nat): seq<Decision>
    requires UniqueIds(s)
  {
    if s == {} || limit == 0 then []
    else
      NewestExists(s);
      var m :| IsNewestOf(m, s);
      [m] + Newest(s - {m}, limit - 1)
  }

  // ----- top sets and their listing

  ghost predicate Descending(l: seq<Decision>) {
    forall i, j :: 0 <= i < j < |l| ==> Newer(l[i], l[j])
  }

  /** By time, and by id where the times are equal: the rows of a top list, and those it leaves out. */
  lemma TopComesFirst(l: seq<Decision>, s: set<Decision>, limit: nat, i: nat, r: Decision)
    requires IsTop(l, s, limit) && i < |l| && (r in l[i + 1..] || (r in s && r !in l))
    ensures l[i].createdAt > r.createdAt || (l[i].createdAt == r.createdAt && l[i].id > r.id)
  {
    assert l[i] in l;
    if r in l[i + 1..] {
      var j :| i + 1 <= j < |l| && l[j] == r;
      assert Newer(l[i], l[j]);
    }
  }

  /** `l` lists the `limit` newest rows of `s`, newest first. */
  ghost predicate IsTop(l: seq<Decision>, s: set<Decision>, limit: nat) {
    && Descending(l)
    && Elements(l) <= s
    && |l| == Min(limit, |s|)
    && forall t, r :: t in l && r in s && r !in l ==> Newer(t, r)
  }

  lemma {:induction false} SizeOfDistinct(l: seq<Decision>)
    requires Distinct(l)
    ensures |Elements(l)| == |l|
  {
    if l != [] {
      var f := l[..|l| - 1];
      SizeOfDistinct(f);
      assert Elements(l) == Elements(f) + {l[|l| - 1]};
    }
  }

  lemma SubsetSize(a: set<Decision>, b: set<Decision>)
    requires a <= b
    ensures |a| <= |b|
    ensures |a| == |b| ==> a == b
  {
    assert b == a + (b - a);
  }

  lemma TopsContainEachOther(l: seq<Decision>, m: seq<Decision>, s: set<Decision>, limit: nat)
    requires IsTop(l, s, limit) && IsTop(m, s, limit) && |Elements(l)| == |Elements(m)|
    ensures Elements(l) <= Elements(m)
  {
    if Elements(m) <= Elements(l) {
      SubsetSize(Elements(m), Elements(l));
    } else {
      var b :| b in Elements(m) && b !in Elements(l);
      assert forall a :: a in l ==> Newer(a, b);
    }
  }

  /** A set has one top list only. */
  lemma TopIsUnique(l: seq<Decision>, m: seq<Decision>, s: set<Decision>, limit: nat)
    requires IsTop(l, s, limit) && IsTop(m, s, limit)
    ensures l == m
  {
    SizeOfDistinct(l);
    SizeOfDistinct(m);
    TopsContainEachOther(l, m, s, limit);
    TopsContainEachOther(m, l, s, limit);
    SameElementsSameList(l, m);
  }

  lemma {:induction false} SameElementsSameList(l: seq<Decision>, m: seq<Decision>)
    requires Descending(l) && Descending(m) && Elements(l) == Elements(m) && |l| == |m|
    ensures l == m
  {
    if l != [] {
      assert l[0] in Elements(m) && m[0] in Elements(l);
      assert l[0] == m[0];
      assert Elements(l[1..]) == Elements(l) - {l[0]};
      assert Elements(m[1..]) == Elements(m) - {m[0]};
      SameElementsSameList(l[1..], m[1..]);
    }
  }

  lemma {:induction false} NewestIsTop(s: set<Decision>, limit: nat)
    requires UniqueIds(s)
    ensures IsTop(Newest(s, limit), s, limit)
    decreases limit
  {
    if s != {} && limit > 0 {
      NewestExists(s);
      var l := Newest(s, limit);
      var rest := s - {l[0]};
      NewestIsTop(rest, limit - 1);
      assert IsTop(l[1..], rest, limit - 1);
      assert forall i :: 1 <= i < |l| ==> l[i] in Elements(l[1..]);
    }
  }

  // ----- the sort

  lemma {:induction false} InsertAdds(r: Decision, s: seq<Decision>)
    ensures Elements(Insert(r, s)) == Elements(s) + {r} && |Insert(r, s)| == |s| + 1
  {
    if s != [] && Newer(s[0], r) {
      InsertAdds(r, s[1..]);
      assert s == [s[0]] + s[1..];
      ElementsOfCons(s[0], s[1..]);
      ElementsOfCons(s[0], Insert(r, s[1..]));
    } else {
      ElementsOfCons(r, s);
    }
  }

  lemma ElementsOfCons(x: Decision, s: seq<Decision>)
    ensures Elements([x] + s) == {x} + Elements(s)
  {
    assert forall y :: y in [x] + s <==> y == x || y in s;
  }

  lemma {:induction false} InsertSorts(r: Decision, s: seq<Decision>)
    requires Descending(s) && (forall x :: x in s ==> x.id != r.id)
    ensures Descending(Insert(r, s))
  {
    if s != [] && Newer(s[0], r) {
      InsertSorts(r, s[1..]);
      InsertAdds(r, s[1..]);
      var rest := Insert(r, s[1..]);
      forall i | 0 <= i < |rest| ensures Newer(s[0], rest[i]) {
        assert rest[i] in Elements(rest);
        assert rest[i] == r || rest[i] in s[1..];
      }
    } else {
      assert Insert(r, s) == [r] + s;
      assert s != [] ==> Newer(r, s[0]);
    }
  }

  ghost predicate DistinctIds(s: seq<Decision>) {
    forall i, j :: 0 <= i < j < |s| ==> s[i].id != s[j].id
  }

  lemma {:induction false} SortSorts(s: seq<Decision>)
    requires DistinctIds(s)
    ensures Descending(Sort(s)) && Elements(Sort(s)) == Elements(s) && |Sort(s)| == |s|
  {
    if s != [] {
      SortSorts(s[1..]);
      assert forall x :: x in Sort(s[1..]) ==> x in Elements(Sort(s[1..]));
      InsertSorts(s[0], Sort(s[1..]));
      InsertAdds(s[0], Sort(s[1..]));
      assert Elements(s) == {s[0]} + Elements(s[1..]);
    }
  }

  /** The merge lists the newest rows among those it is given. */
  lemma MergeIsTop(rows: seq<Decision>, limit: nat)
    requires DistinctIds(rows)
    ensures IsTop(MergeEligible(rows, limit), Elements(rows), limit)
  {
    SortSorts(rows);
    var s := Sort(rows);
    var m := MergeEligible(rows, limit);
    SizeOfDistinct(s);
    forall t, r | t in m && r in Elements(rows) && r !in m ensures Newer(t, r) {
      assert r in Elements(s);
      var i :| 0 <= i < |m| && m[i] == t;
      var j :| 0 <= j < |s| && s[j] == r;
      assert j >= |m|;
    }
    assert forall x :: x in m ==> x in Elements(s);
  }

  // ----- merging answers

  ghost predicate DistinctStatuses(statuses: seq<string>) {
    forall i, j :: 0 <= i < j < |statuses| ==> statuses[i] != statuses[j]
  }

  lemma {:induction false} ConcatElements(qs: seq<seq<Decision>>, r: Decision)
    ensures r in Concat(qs) <==> exists i :: 0 <= i < |qs| && r in qs[i]
  {
    if qs != [] {
      var f := qs[..|qs| - 1];
      ConcatElements(f, r);
      assert forall i :: 0 <= i < |f| ==> f[i] == qs[i];
      if r in qs[|qs| - 1] {
        assert r in Concat(qs);
      }
    }
  }

  lemma {:induction false} ConcatHasDistinctIds(
    qs: seq<seq<Decision>>, t: Table, statuses: seq<string>, limit: nat)
    requires UniqueIds(t) && DistinctStatuses(statuses) && ValidAnswers(qs, t, statuses, limit)
    ensures DistinctIds(Concat(qs))
  {
    if qs != [] {
      var n := |qs| - 1;
      ConcatHasDistinctIds(qs[..n], t, statuses[..n], limit);
      var front, last := Concat(qs[..n]), qs[n];
      forall i, j | 0 <= i < |front| && 0 <= j < |last| ensures front[i].id != last[j].id {
        AnswersDoNotShareIds(qs, t, statuses, limit, front[i], last[j]);
      }
      forall i, j | 0 <= i < j < |last| ensures last[i].id != last[j].id {
        assert last[i] in Matching(t, statuses[n]) && last[j] in Matching(t, statuses[n]);
      }
    }
  }

  lemma AnswersDoNotShareIds(
    qs: seq<seq<Decision>>, t: Table, statuses: seq<string>, limit: nat, x: Decision, y: Decision)
    requires UniqueIds(t) && DistinctStatuses(statuses) && ValidAnswers(qs, t, statuses, limit) && qs != []
    requires x in Concat(qs[..|qs| - 1]) && y in qs[|qs| - 1]
    ensures x.id != y.id
  {
    var n := |qs| - 1;
    ConcatElements(qs[..n], x);
    var k :| 0 <= k < n && x in qs[..n][k];
    assert x in Matching(t, statuses[k]) && y in Matching(t, statuses[n]);
  }

  lemma AnswersAreEligible(qs: seq<seq<Decision>>, t: Table, statuses: seq<string>, limit: nat)
    requires ValidAnswers(qs, t, statuses, limit)
    ensures Elements(Concat(qs)) <= Eligible(t, statuses)
  {
    forall r | r in Concat(qs) ensures r in Eligible(t, statuses) {
      ConcatElements(qs, r);
      var i :| 0 <= i < |qs| && r in qs[i];
      assert r in Matching(t, statuses[i]);
    }
  }

  // ----- when the merge is the global query

  /** The rows of the status of `r` that are at least as new as `r`, itself included. */
  function AtLeastAsNew(t: Table, r: Decision): set<Decision> {
    set x | x in t && x.status == r.status && x.createdAt >= r.createdAt
  }

  lemma ForcedRowIsReturned(q: seq<Decision>, t: Table, r: Decision, limit: nat)
    requires ValidAnswer(q, t, r.status, limit) && r in t && |AtLeastAsNew(t, r)| <= limit
    ensures r in q
  {
    SizeOfDistinct(q);
    assert r in Matching(t, r.status);
    if r !in q {
      if |q| == limit {
        assert Elements(q) + {r} <= AtLeastAsNew(t, r);
        SubsetSize(Elements(q) + {r}, AtLeastAsNew(t, r));
      } else {
        SubsetSize(Elements(q), Matching(t, r.status));
      }
    }
  }

  lemma NewestIsAValidAnswer(t: Table, status: string, limit: nat)
    requires UniqueIds(t)
    ensures ValidAnswer(Newest(Matching(t, status), limit), t, status, limit)
  {
    NewestIsTop(Matching(t, status), limit);
  }

  /** Every row at least as new as `r` would beat an older one, and they do not all fit. */
  lemma KeptRowIsAsNew(t: Table, r: Decision, x: Decision, q: seq<Decision>, limit: nat)
    requires UniqueIds(t) && r in t && |AtLeastAsNew(t, r)| > limit
    requires IsTop(q, Matching(t, r.status) - {r}, limit) && x in q
    ensures x.createdAt >= r.createdAt
  {
    if x.createdAt < r.createdAt {
      SizeOfDistinct(q);
      assert AtLeastAsNew(t, r) - {r} + {x} <= Elements(q);
      SubsetSize(AtLeastAsNew(t, r) - {r} + {x}, Elements(q));
    }
  }

  /** A row that is not forced is left out by some answer. */
  lemma UnforcedRowCanBeCut(t: Table, r: Decision, limit: nat) returns (q: seq<Decision>)
    requires UniqueIds(t) && r in t && |AtLeastAsNew(t, r)| > limit
    ensures ValidAnswer(q, t, r.status, limit) && r !in q
  {
    var others := Matching(t, r.status) - {r};
    q := Newest(others, limit);
    NewestIsTop(others, limit);
    SubsetSize(AtLeastAsNew(t, r), Matching(t, r.status));
    assert Elements(q) <= others;
    forall x | x in q ensures x in others && x.createdAt >= r.createdAt {
      assert x in Elements(q);
      KeptRowIsAsNew(t, r, x, q, limit);
    }
    TopWithoutIsValid(q, t, r, limit);
  }

  /** The newest rows of a status besides one are an answer when that one is no newer than any of them. */
  lemma TopWithoutIsValid(q: seq<Decision>, t: Table, r: Decision, limit: nat)
    requires r in t && |Matching(t, r.status)| > limit
    requires IsTop(q, Matching(t, r.status) - {r}, limit)
    requires forall x :: x in q ==> x in Matching(t, r.status) - {r} && x.createdAt >= r.createdAt
    ensures ValidAnswer(q, t, r.status, limit)
  {
    var all := Matching(t, r.status);
    assert |all - {r}| == |all| - 1;
    forall y, x | y in all && y !in q && x in q ensures x.createdAt >= y.createdAt {
      assert y == r || Newer(x, y);
    }
  }

  ghost predicate AllForced(t: Table, statuses: seq<string>, limit: nat)
    requires UniqueIds(t)
  {
    forall r :: r in Newest(Eligible(t, statuses), limit) ==> |AtLeastAsNew(t, r)| <= limit
  }

  lemma ForcedMerge(qs: seq<seq<Decision>>, t: Table, statuses: seq<string>, limit: nat)
    requires UniqueIds(t) && DistinctStatuses(statuses) && ValidAnswers(qs, t, statuses, limit)
    requires AllForced(t, statuses, limit)
    ensures MergeEligible(Concat(qs), limit) == Newest(Eligible(t, statuses), limit)
  {
    var all, rows := Eligible(t, statuses), Elements(Concat(qs));
    var global := Newest(all, limit);
    NewestIsTop(all, limit);
    AnswersAreEligible(qs, t, statuses, limit);
    forall r | r in global ensures r in rows {
      assert r in Elements(global);
      var i :| 0 <= i < |statuses| && statuses[i] == r.status;
      ForcedRowIsReturned(qs[i], t, r, limit);
      ConcatElements(qs, r);
    }
    SizeOfDistinct(global);
    assert Elements(global) <= rows;
    SubsetSize(Elements(global), rows);
    SubsetSize(rows, all);
    ConcatHasDistinctIds(qs, t, statuses, limit);
    MergeIsTop(Concat(qs), limit);
    TopIsUnique(MergeEligible(Concat(qs), limit), global, rows, limit);
  }

  /**
   The merge equals the global query for every answer the database may give exactly when each
   row of the global answer is within the first `limit` of its own status, ties included.
  */
  lemma MergeIsExactIff(t: Table, statuses: seq<string>, limit: nat)
    requires UniqueIds(t) && DistinctStatuses(statuses)
    ensures (forall qs :: ValidAnswers(qs, t, statuses, limit) ==>
               MergeEligible(Concat(qs), limit) == Newest(Eligible(t, statuses), limit))
       <==> AllForced(t, statuses, limit)
  {
    if AllForced(t, statuses, limit) {
      forall qs | ValidAnswers(qs, t, statuses, limit)
        ensures MergeEligible(Concat(qs), limit) == Newest(Eligible(t, statuses), limit)
      {
        ForcedMerge(qs, t, statuses, limit);
      }
    } else {
      var global := Newest(Eligible(t, statuses), limit);
      NewestIsTop(Eligible(t, statuses), limit);
      var r :| r in global && |AtLeastAsNew(t, r)| > limit;
      assert r in Elements(global);
      var qs := AnswersWithout(t, statuses, limit, r);
      MergeKeepsToItsRows(Concat(qs), limit, r);
    }
  }

  lemma MergeKeepsToItsRows(rows: seq<Decision>, limit: nat, r: Decision)
    requires DistinctIds(rows) && r !in rows
    ensures r !in MergeEligible(rows, limit)
  {
    MergeIsTop(rows, limit);
    assert r !in Elements(MergeEligible(rows, limit));
  }

  lemma AnswersWithout(t: Table, statuses: seq<string>, limit: nat, r: Decision) returns (qs: seq<seq<Decision>>)
    requires UniqueIds(t) && DistinctStatuses(statuses) && r in t && |AtLeastAsNew(t, r)| > limit
    ensures ValidAnswers(qs, t, statuses, limit) && DistinctIds(Concat(qs)) && r !in Concat(qs)
  {
    var q := UnforcedRowCanBeCut(t, r, limit);
    qs := seq(|statuses|, i requires 0 <= i < |statuses| =>
      if statuses[i] == r.status then q else Newest(Matching(t, statuses[i]), limit));
    forall i | 0 <= i < |qs| ensures ValidAnswer(qs[i], t, statuses[i], limit) && r !in qs[i] {
      if statuses[i] != r.status {
        NewestIsAValidAnswer(t, statuses[i], limit);
        assert forall x :: x in qs[i] ==> x in Matching(t, statuses[i]);
      }
    }
    ConcatElements(qs, r);
    ConcatHasDistinctIds(qs, t, statuses, limit);
  }

  /** Under the same condition, and only then, the evidence is the same on every call. */
  lemma EvidenceIsReproducibleIff(t: Table, statuses: seq<string>, limit: nat)
    requires UniqueIds(t) && DistinctStatuses(statuses)
    ensures (forall qs, qs' :: ValidAnswers(qs, t, statuses, limit) && ValidAnswers(qs', t, statuses, limit) ==>
               MergeEligible(Concat(qs), limit) == MergeEligible(Concat(qs'), limit))
       <==> AllForced(t, statuses, limit)
  {
    MergeIsExactIff(t, statuses, limit);
    if !AllForced(t, statuses, limit) {
      var best := TieBrokenAnswers(t, statuses, limit);
      var qs :| ValidAnswers(qs, t, statuses, limit)
                && MergeEligible(Concat(qs), limit) != Newest(Eligible(t, statuses), limit);
    }
  }

  lemma GlobalRowIsAnswered(t: Table, statuses: seq<string>, limit: nat, qs: seq<seq<Decision>>, r: Decision)
    requires UniqueIds(t) && |qs| == |statuses| && r in Newest(Eligible(t, statuses), limit)
    requires forall i :: 0 <= i < |qs| ==> qs[i] == Newest(Matching(t, statuses[i]), limit)
    ensures r in Concat(qs)
  {
    var global := Newest(Eligible(t, statuses), limit);
    NewestIsTop(Eligible(t, statuses), limit);
    assert r in Elements(global);
    var i :| 0 <= i < |statuses| && statuses[i] == r.status;
    TopOfPart(global, Eligible(t, statuses), Matching(t, r.status), limit, r);
    ConcatElements(qs, r);
  }

  /** Queries that break ties by id, as the merge does, always give the global answer. */
  lemma {:induction false} TieBrokenAnswers(t: Table, statuses: seq<string>, limit: nat) returns (qs: seq<seq<Decision>>)
    requires UniqueIds(t) && DistinctStatuses(statuses)
    ensures |qs| == |statuses|
    ensures forall i :: 0 <= i < |qs| ==> qs[i] == Newest(Matching(t, statuses[i]), limit)
    ensures ValidAnswers(qs, t, statuses, limit)
    ensures MergeEligible(Concat(qs), limit) == Newest(Eligible(t, statuses), limit)
  {
    qs := seq(|statuses|, i requires 0 <= i < |statuses| => Newest(Matching(t, statuses[i]), limit));
    forall i | 0 <= i < |qs| ensures ValidAnswer(qs[i], t, statuses[i], limit) {
      NewestIsAValidAnswer(t, statuses[i], limit);
    }
    var all, rows := Eligible(t, statuses), Elements(Concat(qs));
    var global := Newest(all, limit);
    NewestIsTop(all, limit);
    SizeOfDistinct(global);
    forall r | r in global ensures r in rows {
      GlobalRowIsAnswered(t, statuses, limit, qs, r);
    }
    AnswersAreEligible(qs, t, statuses, limit);
    assert Elements(global) <= rows;
    SubsetSize(Elements(global), rows);
    SubsetSize(rows, all);
    ConcatHasDistinctIds(qs, t, statuses, limit);
    MergeIsTop(Concat(qs), limit);
    TopIsUnique(MergeEligible(Concat(qs), limit), global, rows, limit);
  }

  /** A row among the newest of a set is among the newest of any part it lies in. */
  lemma TopOfPart(global: seq<Decision>, all: set<Decision>, part: set<Decision>, limit: nat, r: Decision)
    requires UniqueIds(all) && part <= all && r in part && IsTop(global, all, limit) && r in global
    ensures r in Newest(part, limit)
  {
    var l := Newest(part, limit);
    NewestIsTop(part, limit);
    SizeOfDistinct(l);
    SizeOfDistinct(global);
    if r !in l {
      SubsetSize(Elements(l), part);
      assert |l| == limit;
      forall x | x in l ensures x in global {
        assert x in Elements(l);
        assert Newer(x, r);
      }
      assert Elements(l) + {r} <= Elements(global);
      SubsetSize(Elements(l) + {r}, Elements(global));
    }
  }

  // ----- what holds for every answer: the times

  /** The first `|l|` places go to rows none of which is older than a row left out. */
  ghost predicate WeaklyTop(l: seq<Decision>, s: set<Decision>, limit: nat) {
    && Distinct(l)
    && Elements(l) <= s
    && |l| == Min(limit, |s|)
    && (forall i, j :: 0 <= i < j < |l| ==> l[i].createdAt >= l[j].createdAt)
    && (forall x, r :: x in l && r in s && r !in l ==> x.createdAt >= r.createdAt)
  }

  lemma MergeIsWeaklyTop(qs: seq<seq<Decision>>, t: Table, statuses: seq<string>, limit: nat)
    requires UniqueIds(t) && DistinctStatuses(statuses) && ValidAnswers(qs, t, statuses, limit)
    ensures WeaklyTop(MergeEligible(Concat(qs), limit), Eligible(t, statuses), limit)
  {
    var all, rows := Eligible(t, statuses), Elements(Concat(qs));
    var m := MergeEligible(Concat(qs), limit);
    ConcatHasDistinctIds(qs, t, statuses, limit);
    MergeIsTop(Concat(qs), limit);
    AnswersAreEligible(qs, t, statuses, limit);
    forall r | r in all && r !in rows ensures forall x :: x in m ==> x.createdAt >= r.createdAt {
      CutRowIsOld(qs, t, statuses, limit, r);
    }
    if |rows| < limit {
      forall r | r in all ensures r in rows {
        UncutWhenShort(qs, t, statuses, limit, r);
      }
      assert rows == all;
    }
    TopIsWeaklyTop(m, rows, all, limit);
  }

  lemma TopIsWeaklyTop(m: seq<Decision>, rows: set<Decision>, all: set<Decision>, limit: nat)
    requires IsTop(m, rows, limit) && rows <= all && (|rows| < limit ==> rows == all)
    requires forall r, x :: r in all && r !in rows && x in m ==> x.createdAt >= r.createdAt
    ensures WeaklyTop(m, all, limit)
  {
    SubsetSize(rows, all);
  }

  lemma UncutWhenShort(qs: seq<seq<Decision>>, t: Table, statuses: seq<string>, limit: nat, r: Decision)
    requires ValidAnswers(qs, t, statuses, limit) && r in Eligible(t, statuses) && |Elements(Concat(qs))| < limit
    ensures r in Elements(Concat(qs))
  {
    var i :| 0 <= i < |statuses| && statuses[i] == r.status;
    AnswerInMerge(qs, i);
    SizeOfDistinct(qs[i]);
    SubsetSize(Elements(qs[i]), Elements(Concat(qs)));
    SubsetSize(Elements(qs[i]), Matching(t, statuses[i]));
    assert r in Matching(t, statuses[i]);
  }

  lemma AnswerInMerge(qs: seq<seq<Decision>>, i: nat)
    requires i < |qs|
    ensures Elements(qs[i]) <= Elements(Concat(qs))
  {
    forall x | x in qs[i] ensures x in Concat(qs) {
      ConcatElements(qs, x);
    }
  }

  lemma CutRowIsOld(qs: seq<seq<Decision>>, t: Table, statuses: seq<string>, limit: nat, r: Decision)
    requires DistinctIds(Concat(qs)) && ValidAnswers(qs, t, statuses, limit)
    requires r in Eligible(t, statuses) && r !in Concat(qs)
    ensures forall x :: x in MergeEligible(Concat(qs), limit) ==> x.createdAt >= r.createdAt
  {
    var i :| 0 <= i < |statuses| && statuses[i] == r.status;
    AnswerInMerge(qs, i);
    SizeOfDistinct(qs[i]);
    assert r !in Elements(Concat(qs));
    assert r in Matching(t, statuses[i]) && r !in Elements(qs[i]);
    SubsetSize(Elements(qs[i]), Matching(t, statuses[i]));
    MergeIsTop(Concat(qs), limit);
    FullAnswerDominates(MergeEligible(Concat(qs), limit), Elements(Concat(qs)), qs[i], limit, r);
  }

  /** A full answer with no row older than `r` leaves no room for one in the top list. */
  lemma FullAnswerDominates(m: seq<Decision>, rows: set<Decision>, q: seq<Decision>, limit: nat, r: Decision)
    requires IsTop(m, rows, limit) && Elements(q) <= rows && Distinct(q) && |q| == limit
    requires forall y :: y in q ==> y.createdAt >= r.createdAt
    ensures forall x :: x in m ==> x.createdAt >= r.createdAt
  {
    SizeOfDistinct(q);
    SizeOfDistinct(m);
    forall x | x in m ensures x.createdAt >= r.createdAt {
      if x.createdAt < r.createdAt {
        forall y | y in Elements(q) ensures y in Elements(m) {
          assert y in rows;
        }
        SubsetSize(Elements(q) + {x}, Elements(m));
      }
    }
  }

  /** Two such lists of one set show the same times, place by place. */
  lemma WeaklyTopTimes(l: seq<Decision>, m: seq<Decision>, s: set<Decision>, limit: nat, i: nat)
    requires WeaklyTop(l, s, limit) && WeaklyTop(m, s, limit) && i < |l|
    ensures l[i].createdAt <= m[i].createdAt
  {
    if l[i].createdAt > m[i].createdAt {
      var newer, before := l[..i + 1], m[..i];
      forall x | x in newer ensures x in before {
        assert x.createdAt > m[i].createdAt;
        assert x in Elements(l) && m[i] in m;
        var j :| 0 <= j < |m| && m[j] == x;
      }
      SizeOfDistinct(newer);
      SizeOfDistinct(before);
      assert Elements(newer) <= Elements(before);
      SubsetSize(Elements(newer), Elements(before));
    }
  }

  /** Whatever the database answers, the merge shows the times of the global query. */
  lemma MergeTimesAreExact(qs: seq<seq<Decision>>, t: Table, statuses: seq<string>, limit: nat)
    requires UniqueIds(t) && DistinctStatuses(statuses) && ValidAnswers(qs, t, statuses, limit)
    ensures var m, g := MergeEligible(Concat(qs), limit), Newest(Eligible(t, statuses), limit);
            |m| == |g| && forall i :: 0 <= i < |m| ==> m[i].createdAt == g[i].createdAt
  {
    var all := Eligible(t, statuses);
    MergeIsWeaklyTop(qs, t, statuses, limit);
    NewestIsTop(all, limit);
    SameTimes(MergeEligible(Concat(qs), limit), Newest(all, limit), all, limit);
  }

  lemma SameTimes(m: seq<Decision>, g: seq<Decision>, s: set<Decision>, limit: nat)
    requires WeaklyTop(m, s, limit) && IsTop(g, s, limit)
    ensures |m| == |g| && forall i :: 0 <= i < |m| ==> m[i].createdAt == g[i].createdAt
  {
    assert WeaklyTop(g, s, limit);
    forall i | 0 <= i < |m| ensures m[i].createdAt == g[i].createdAt {
      WeaklyTopTimes(m, g, s, limit, i);
      WeaklyTopTimes(g, m, s, limit, i);
    }
  }

  // ----- witnesses

  /** Three rows of one second and a limit of two: the newest row by id may be missing. */
  lemma TiesCanLoseTheNewestRow()
    ensures ValidAnswer([Tied(1), Tied(2)], {Tied(1), Tied(2), Tied(3)}, "active", 2)
    ensures MergeEligible([Tied(1), Tied(2)], 2) == [Tied(2), Tied(1)]
    ensures Newest({Tied(1), Tied(2), Tied(3)}, 2) == [Tied(3), Tied(2)]
  {
    TiedTable();
    PairMerge(Tied(1), Tied(2));
    var t: Table := {Tied(1), Tied(2), Tied(3)};
    NewestIsTop(t, 2);
    TopIsUnique([Tied(3), Tied(2)], Newest(t, 2), t, 2);
  }

  lemma PairMerge(a: Decision, b: Decision)
    requires Newer(b, a)
    ensures MergeEligible([a, b], 2) == [b, a]
  {
    assert [a, b][1..] == [b] && [b][1..] == [];
    assert Sort([b]) == Insert(b, Sort([])) == [b];
    assert Sort([a, b]) == Insert(a, [b]) == [b] + Insert(a, []);
  }

  lemma TiedTable()
    ensures ValidAnswer([Tied(1), Tied(2)], {Tied(1), Tied(2), Tied(3)}, "active", 2)
    ensures IsTop([Tied(3), Tied(2)], {Tied(1), Tied(2), Tied(3)}, 2)
  {
    TiedTableSize();
    TiedAnswer();
    TiedTop();
  }

  lemma TiedTableSize()
    ensures |{Tied(1), Tied(2), Tied(3)}| == 3
  {
    assert {Tied(1), Tied(2), Tied(3)} == {Tied(1), Tied(2)} + {Tied(3)} && |{Tied(1), Tied(2)}| == 2;
  }

  lemma TiedAnswer()
    ensures ValidAnswer([Tied(1), Tied(2)], {Tied(1), Tied(2), Tied(3)}, "active", 2)
  {
    var t: Table := {Tied(1), Tied(2), Tied(3)};
    TiedTableSize();
    assert Matching(t, "active") == t;
    TiesAreValid([Tied(1), Tied(2)], t, "active", 2);
  }

  /** Among rows of one second any choice of the right size is an answer, in any order. */
  lemma TiesAreValid(q: seq<Decision>, t: Table, status: string, limit: nat)
    requires Distinct(q) && |q| == Min(limit, |Matching(t, status)|)
    requires forall r :: r in q ==> r in Matching(t, status)
    requires forall r, x :: r in Matching(t, status) && x in Matching(t, status) ==> r.createdAt == x.createdAt
    ensures ValidAnswer(q, t, status, limit)
  {
    forall i, j | 0 <= i < j < |q| ensures q[i].createdAt >= q[j].createdAt {
      assert q[i] in q && q[j] in q;
    }
  }

  lemma TiedTop()
    ensures IsTop([Tied(3), Tied(2)], {Tied(1), Tied(2), Tied(3)}, 2)
  {
    TiedTableSize();
    assert Elements([Tied(3), Tied(2)]) == {Tied(3), Tied(2)};
  }

  function Tied(id: int): Decision {
    Decision(id, 100, "active", "t", "test", 0.5)
  }

  // ----- no row twice

  lemma {:induction false} SortKeepsAll(s: seq<Decision>)
    ensures Elements(Sort(s)) == Elements(s) && |Sort(s)| == |s|
  {
    if s != [] {
      SortKeepsAll(s[1..]);
      InsertAdds(s[0], Sort(s[1..]));
      assert s == [s[0]] + s[1..];
      ElementsOfCons(s[0], s[1..]);
    }
  }

  /** Answers of a table with the one row `a`. */
  ghost predicate AreCopies(qs: seq<seq<Decision>>, a: Decision) {
    forall i :: 0 <= i < |qs| ==> qs[i] == [a] || qs[i] == []
  }

  lemma {:induction false} CopiesAddUp(qs: seq<seq<Decision>>, a: Decision, i: nat, j: nat)
    requires AreCopies(qs, a) && i < j < |qs| && qs[i] == qs[j] == [a]
    ensures |Concat(qs)| >= 2 && forall x :: x in Concat(qs) ==> x == a
  {
    var k := |qs| - 1;
    CopiesOnly(qs, a);
    if j < k {
      CopiesAddUp(qs[..k], a, i, j);
    } else {
      OneCopy(qs[..k], a, i);
    }
  }

  lemma {:induction false} CopiesOnly(qs: seq<seq<Decision>>, a: Decision)
    requires AreCopies(qs, a)
    ensures forall x :: x in Concat(qs) ==> x == a
  {
    if qs != [] {
      CopiesOnly(qs[..|qs| - 1], a);
    }
  }

  lemma {:induction false} OneCopy(qs: seq<seq<Decision>>, a: Decision, i: nat)
    requires AreCopies(qs, a) && i < |qs| && qs[i] == [a]
    ensures |Concat(qs)| >= 1
  {
    if i < |qs| - 1 {
      OneCopy(qs[..|qs| - 1], a, i);
    }
  }

  lemma CopiesMerge(rows: seq<Decision>, a: Decision, limit: nat)
    requires |rows| >= 2 && limit >= 2 && forall x :: x in rows ==> x == a
    ensures !DistinctIds(MergeEligible(rows, limit))
  {
    SortKeepsAll(rows);
    var m := MergeEligible(rows, limit);
    assert m[0] in Elements(Sort(rows)) && m[1] in Elements(Sort(rows));
    assert m[0] == a && m[1] == a;
  }

  lemma {:induction false} RepeatedStatusDoublesARow(statuses: seq<string>, limit: nat, i: nat, j: nat)
    returns (t: Table, qs: seq<seq<Decision>>)
    requires limit >= 2 && i < j < |statuses| && statuses[i] == statuses[j]
    ensures UniqueIds(t) && ValidAnswers(qs, t, statuses, limit) && !DistinctIds(MergeEligible(Concat(qs), limit))
  {
    var a := Decision(1, 0, statuses[i], "", "", 0.0);
    t := {a};
    qs := seq(|statuses|, k requires 0 <= k < |statuses| => if statuses[k] == a.status then [a] else []);
    forall k | 0 <= k < |qs| ensures ValidAnswer(qs[k], t, statuses[k], limit) {
      assert Matching(t, statuses[k]) == if statuses[k] == a.status then {a} else {};
    }
    CopiesAddUp(qs, a, i, j);
    CopiesMerge(Concat(qs), a, limit);
  }

  lemma DistinctStatusesNoRowTwice(qs: seq<seq<Decision>>, t: Table, statuses: seq<string>, limit: nat)
    requires UniqueIds(t) && DistinctStatuses(statuses) && ValidAnswers(qs, t, statuses, limit)
    ensures DistinctIds(MergeEligible(Concat(qs), limit))
  {
    ConcatHasDistinctIds(qs, t, statuses, limit);
    MergeIsTop(Concat(qs), limit);
    AnswersAreEligible(qs, t, statuses, limit);
    var m := MergeEligible(Concat(qs), limit);
    forall i, j | 0 <= i < j < |m| ensures m[i].id != m[j].id {
      assert m[i] in Elements(m) && m[j] in Elements(m) && Newer(m[i], m[j]);
      assert m[i] in t && m[j] in t;
    }
  }

  ghost predicate NoRowTwice(statuses: seq<string>, limit: nat) {
    forall t, qs :: UniqueIds(t) && ValidAnswers(qs, t, statuses, limit) ==> DistinctIds(MergeEligible(Concat(qs), limit))
  }

  /**
   The merge lists no row twice, for every table and answer, exactly when no status is asked twice
   or the limit leaves no room for two.
  */
  lemma NoRowTwiceIff(statuses: seq<string>, limit: nat)
    ensures NoRowTwice(statuses, limit) <==> DistinctStatuses(statuses) || limit < 2
  {
    if DistinctStatuses(statuses) {
      forall t, qs | UniqueIds(t) && ValidAnswers(qs, t, statuses, limit)
        ensures DistinctIds(MergeEligible(Concat(qs), limit))
      {
        DistinctStatusesNoRowTwice(qs, t, statuses, limit);
      }
    } else if limit >= 2 {
      var i, j :| 0 <= i < j < |statuses| && statuses[i] == statuses[j];
      var t, qs := RepeatedStatusDoublesARow(statuses, limit, i, j);
    }
  }
}
