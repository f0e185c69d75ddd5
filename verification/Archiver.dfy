/**
 The archive worker: each run drains the oldest pending entries up to a limit, writes them to the
 object store and marks them. What stays pending is drained again by the next run.
*/
module Archiver {
  import opened EventStream

  const DRAIN_LIMIT: nat := 100

  // ----- the drain

  function CountPending(outbox: Outbox): nat {
    if outbox == [] then 0
    else CountPending(outbox[..|outbox| - 1]) + (if outbox[|outbox| - 1].status == Pending then 1 else 0)
  }

  function CountPoison(outbox: Outbox): nat {
    if outbox == [] then 0
    else CountPoison(outbox[..|outbox| - 1])
         + (if outbox[|outbox| - 1].status == Pending && IsPoison(outbox[|outbox| - 1]) then 1 else 0)
  }

  /** The entry is pending and fewer than `limit` older entries are. */
  predicate IsDrained(outbox: Outbox, i: nat, limit: nat) {
    i < |outbox| && outbox[i].status == Pending && CountPending(outbox[..i]) < limit
  }

  lemma CountPendingStep(outbox: Outbox, i: nat)
    requires i < |outbox|
    ensures CountPending(outbox[..i + 1]) == CountPending(outbox[..i]) + (if outbox[i].status == Pending then 1 else 0)
    ensures CountPoison(outbox[..i + 1])
            == CountPoison(outbox[..i]) + (if outbox[i].status == Pending && IsPoison(outbox[i]) then 1 else 0)
  {
    assert outbox[..i + 1][..i] == outbox[..i];
  }

  // ----- one run of the worker

  /**
   What a run does to an entry: a drained entry is archived or left as it is, and it is left as it
   is when it is poison; any other entry is left alone.
  */
  predicate Treated(before: Outbox, after: Outbox, i: nat, limit: nat)
    requires i < |before| <= |after|
  {
    || after[i] == before[i]
    || (IsDrained(before, i, limit) && !IsPoison(before[i]) && after[i] == before[i].(status := Archived))
  }

  /** A run, with new entries behind the old ones. */
  predicate IsRound(before: Outbox, after: Outbox, limit: nat) {
    |before| <= |after| && forall i :: 0 <= i < |before| ==> Treated(before, after, i, limit)
  }

  /** A run in which no store call failed. */
  predicate IsCleanRound(before: Outbox, after: Outbox, limit: nat) {
    && IsRound(before, after, limit)
    && forall i :: 0 <= i < |before| && IsDrained(before, i, limit) && !IsPoison(before[i]) ==> after[i].status == Archived
  }

  predicate NeverRetried(outbox: Outbox) {
    forall i :: 0 <= i < |outbox| ==> outbox[i].retryCount == 0
  }

  /** The drained positions, in order. */
  ghost predicate AreDrained(entries: seq<nat>, outbox: Outbox, limit: nat) {
    && (forall k :: 0 <= k < |entries| ==> IsDrained(outbox, entries[k], limit))
    && (forall j, k :: 0 <= j < k < |entries| ==> entries[j] < entries[k])
    && (forall i: nat :: IsDrained(outbox, i, limit) ==> i in entries)
  }

  // ----- what handling an entry does

  /** Which of the store calls for an entry succeeded: index insert, object write, marking. */
  datatype Luck = Luck(indexed: bool, written: bool, marked: bool)

  /** How many of the calls failed. */
  function Misses(luck: Luck): nat {
    (if luck.indexed then 0 else 1) + (if luck.written then 0 else 1) + (if luck.marked then 0 else 1)
  }

  function AllMisses(lucks: seq<Luck>): nat {
    if lucks == [] then 0 else AllMisses(lucks[..|lucks| - 1]) + Misses(lucks[|lucks| - 1])
  }

  lemma {:induction false} NoneMissedIff(lucks: seq<Luck>)
    ensures AllMisses(lucks) == 0 <==> AllLucky(lucks)
  {
    if lucks != [] {
      NoneMissedIff(lucks[..|lucks| - 1]);
    }
  }

  ghost function Listed(s: State, i: nat, indexed: bool): State
    requires i < |s.outbox| && s.outbox[i].payload.OfEvent?
  {
    if indexed then Apply(s, WorkerIndex(i)) else s
  }

  function Stored(s: State, i: nat, written: bool): (t: State)
    requires i < |s.outbox|
    ensures |t.outbox| == |s.outbox|
  {
    if written then
      s.(objects := s.objects[s.outbox[i].objectKey := s.outbox[i].payload], written := s.written + {i})
    else s
  }

  function Marked(s: State, i: nat, written: bool, marked: bool): State
    requires i < |s.outbox|
  {
    if !marked then s
    else s.(outbox := if written then WithStatus(s.outbox, i, Archived) else MarkedFailed(s.outbox, i))
  }

  /** Poison is neither listed nor stored. */
  ghost function Handled(s: State, i: nat, luck: Luck): State
    requires i < |s.outbox|
  {
    if IsPoison(s.outbox[i]) then Marked(s, i, false, luck.marked)
    else
      var listed := if IsEventType(s.outbox[i].objectType) then Listed(s, i, luck.indexed) else s;
      Marked(Stored(listed, i, luck.written), i, luck.written, luck.marked)
  }

  ghost function HandledAll(s: State, entries: seq<nat>, lucks: seq<Luck>): (t: State)
    requires |lucks| == |entries|
    ensures |t.outbox| == |s.outbox|
  {
    if entries == [] then s
    else
      var k := |entries| - 1;
      var before := HandledAll(s, entries[..k], lucks[..k]);
      if entries[k] < |before.outbox| then Handled(before, entries[k], lucks[k]) else before
  }

  lemma HandledKeepsLength(s: State, i: nat)
    requires i < |s.outbox|
    ensures forall luck :: |Handled(s, i, luck).outbox| == |s.outbox|
  {}

  class ArchiveWorker {
    const store: EventBackend

    constructor (store: EventBackend)
      ensures this.store == store
    {
      this.store := store;
    }

    /** The positions of the oldest pending entries. */
    method DrainOutbox(limit: nat) returns (entries: seq<nat>)
      ensures AreDrained(entries, store.outbox, limit)
    {
      entries := [];
      var taken := 0;
      var outbox := store.outbox;
      for i := 0 to |outbox|
        invariant taken == CountPending(outbox[..i])
        invariant forall k :: 0 <= k < |entries| ==> entries[k] < i && IsDrained(outbox, entries[k], limit)
        invariant forall j, k :: 0 <= j < k < |entries| ==> entries[j] < entries[k]
        invariant forall j: nat :: j < i && IsDrained(outbox, j, limit) ==> j in entries
      {
        CountPendingStep(outbox, i);
        if outbox[i].status == Pending {
          if taken < limit {
            entries := entries + [i];
          }
          taken := taken + 1;
        }
      }
    }

    /** Index, then object. A failed index insert does not stop the write. */
    method HandleEventOutbox(i: nat) returns (ok: bool, ghost indexed: bool)
      requires i < |store.outbox|
      modifies store`index, store`objects, store`written, store`failures
      ensures store.outbox[i].payload.OfEvent? ==>
                store.failures == old(store.failures) + (if indexed then 0 else 1) + (if ok then 0 else 1)
      ensures store.outbox[i].payload.Raw? ==>
                !ok && store.View() == old(store.View()) && store.failures == old(store.failures)
      ensures store.outbox[i].payload.OfEvent? ==> store.View() == Stored(Listed(old(store.View()), i, indexed), i, ok)
    {
      var entry := store.outbox[i];
      if entry.payload.Raw? {
        return false, false;
      }
      var failed: bool := *;
      indexed := !failed;
      if failed {
        store.failures := store.failures + 1;
      } else {
        store.index := Indexed(store.index, RowAt(entry.payload.event, entry.objectKey));
      }
      failed := *;
      if failed {
        store.failures := store.failures + 1;
        return false, indexed;
      }
      store.objects := store.objects[entry.objectKey := entry.payload];
      store.written := store.written + {i};
      return true, indexed;
    }

    method HandleArchiveOutbox(i: nat) returns (ok: bool)
      requires i < |store.outbox|
      modifies store`objects, store`written, store`failures
      ensures store.failures == old(store.failures) + if ok then 0 else 1
      ensures store.View() == Stored(old(store.View()), i, ok)
    {
      var failed: bool := *;
      if failed {
        store.failures := store.failures + 1;
        return false;
      }
      store.objects := store.objects[store.outbox[i].objectKey := store.outbox[i].payload];
      store.written := store.written + {i};
      return true;
    }

    /**
     One drained entry: handle it, then mark it. `luck` says which of the store calls succeeded.
    */
    method Process(i: nat) returns (ghost luck: Luck)
      requires i < |store.outbox|
      modifies store
      ensures store.View() == Handled(old(store.View()), i, luck)
      ensures store.failures == old(store.failures) + Misses(luck)
    {
      var ok;
      ghost var indexed := true;
      ghost var poison := IsPoison(store.outbox[i]);
      if IsEventType(store.outbox[i].objectType) {
        ok, indexed := HandleEventOutbox(i);
      } else {
        ok := HandleArchiveOutbox(i);
      }
      var failed: bool := *;
      luck := if poison then Luck(true, true, !failed) else Luck(indexed, ok, !failed);
      if failed {
        store.failures := store.failures + 1;
        return luck;
      }
      if ok {
        store.outbox := WithStatus(store.outbox, i, Archived);
      } else {
        store.outbox := MarkedFailed(store.outbox, i);
      }
    }

    /**
     One run: exactly the drained entries are handled, in order, and the stores end up as the
     handling of each, with its luck, leaves them. `entries` is empty when the drain fails, and bad
     luck is a failed call each time, so nothing goes wrong when none fails.
    */
    method ArchiveOutbox() returns (drained: bool, ghost entries: seq<nat>, ghost lucks: seq<Luck>)
      modifies store
      ensures store.failures == old(store.failures) + AllMisses(lucks) + if drained then 0 else 1
      ensures store.failures == old(store.failures) ==> drained && AllLucky(lucks)
      ensures |lucks| == |entries|
      ensures if drained then AreDrained(entries, old(store.outbox), 100) else entries == []
      ensures store.View() == HandledAll(old(store.View()), entries, lucks)
    {
      entries, lucks := [], [];
      var failed: bool := *;
      if failed {
        store.failures := store.failures + 1;
        return false, entries, lucks;
      }
      var found := DrainOutbox(DRAIN_LIMIT);
      for k := 0 to |found|
        invariant |lucks| == k && |store.outbox| == |old(store.outbox)|
        invariant store.View() == HandledAll(old(store.View()), found[..k], lucks)
        invariant store.failures == old(store.failures) + AllMisses(lucks)
      {
        HandledKeepsLength(store.View(), found[k]);
        ghost var luck := Process(found[k]);
        assert found[..k + 1][..k] == found[..k] && (lucks + [luck])[..k] == lucks;
        lucks := lucks + [luck];
      }
      assert found[..|found|] == found;
      NoneMissedIff(lucks);
      return true, found, lucks;
    }
  }

  // ----- a run of the worker is a run of the step system

  function HandlingSteps(entry: OutboxEntry, i: nat, luck: Luck): seq<Step> {
    if IsPoison(entry) then (if luck.marked then [WorkerFail(i)] else [])
    else
      (if IsEventType(entry.objectType) && luck.indexed then [WorkerIndex(i)] else [])
      + ((if luck.written then [WorkerWrite(i)] else [])
         + (if luck.marked then [if luck.written then WorkerMark(i) else WorkerFail(i)] else []))
  }

  lemma MarkingIsARun(s: State, i: nat, written: bool, marked: bool)
    requires i < |s.outbox| && (written ==> i in s.written)
    ensures var run := if marked then [if written then WorkerMark(i) else WorkerFail(i)] else [];
            Legal(s, run) && End(s, run) == Marked(s, i, written, marked)
  {
    if marked {
      OneStep(s, if written then WorkerMark(i) else WorkerFail(i));
    }
  }

  lemma StoringIsARun(s: State, i: nat, luck: Luck)
    requires i < |s.outbox| && !IsPoison(s.outbox[i])
    ensures var run := (if luck.written then [WorkerWrite(i)] else [])
                       + (if luck.marked then [if luck.written then WorkerMark(i) else WorkerFail(i)] else []);
            Legal(s, run) && End(s, run) == Marked(Stored(s, i, luck.written), i, luck.written, luck.marked)
  {
    var t := Stored(s, i, luck.written);
    var rest := if luck.marked then [if luck.written then WorkerMark(i) else WorkerFail(i)] else [];
    MarkingIsARun(t, i, luck.written, luck.marked);
    if luck.written {
      OneStep(s, WorkerWrite(i));
      Joined(s, [WorkerWrite(i)], rest);
    } else {
      assert [] + rest == rest;
    }
  }

  lemma HandledIsARun(s: State, i: nat, luck: Luck)
    requires i < |s.outbox|
    ensures var run := HandlingSteps(s.outbox[i], i, luck);
            Legal(s, run) && End(s, run) == Handled(s, i, luck)
  {
    var entry := s.outbox[i];
    if IsPoison(entry) {
      MarkingIsARun(s, i, false, luck.marked);
    } else {
      var rest := (if luck.written then [WorkerWrite(i)] else [])
                  + (if luck.marked then [if luck.written then WorkerMark(i) else WorkerFail(i)] else []);
      if IsEventType(entry.objectType) && luck.indexed {
        StoringIsARun(Listed(s, i, true), i, luck);
        OneStep(s, WorkerIndex(i));
        Joined(s, [WorkerIndex(i)], rest);
      } else {
        StoringIsARun(s, i, luck);
        assert [] + rest == rest;
      }
    }
  }

  /**
   What one run of the worker does is a run of the step system, so everything proved of those runs
   holds of the worker: with it the appends of the event store keep the stream's invariant.
  */
  lemma {:induction false} WorkerRunIsARun(s: State, entries: seq<nat>, lucks: seq<Luck>) returns (run: seq<Step>)
    requires |lucks| == |entries|
    ensures Legal(s, run) && End(s, run) == HandledAll(s, entries, lucks)
  {
    run := [];
    if entries != [] {
      var k := |entries| - 1;
      var front := WorkerRunIsARun(s, entries[..k], lucks[..k]);
      var before := HandledAll(s, entries[..k], lucks[..k]);
      run := front;
      if entries[k] < |before.outbox| {
        HandledIsARun(before, entries[k], lucks[k]);
        Joined(s, front, HandlingSteps(before.outbox[entries[k]], entries[k], lucks[k]));
        run := front + HandlingSteps(before.outbox[entries[k]], entries[k], lucks[k]);
      }
    }
  }

  // ----- a run of the worker is a round

  /** An entry after its handling. */
  function Outcome(entry: OutboxEntry, luck: Luck): OutboxEntry {
    if !IsPoison(entry) && luck.written && luck.marked then entry.(status := Archived) else entry
  }

  lemma HandledOutbox(s: State, i: nat, luck: Luck)
    requires i < |s.outbox| && s.outbox[i].retryCount == 0
    ensures Handled(s, i, luck).outbox == s.outbox[i := Outcome(s.outbox[i], luck)]
  {}

  ghost predicate AreHandled(before: Outbox, after: Outbox, entries: seq<nat>, lucks: seq<Luck>)
    requires |lucks| == |entries|
  {
    && |after| == |before|
    && (forall k :: 0 <= k < |entries| ==>
          entries[k] < |before| && after[entries[k]] == Outcome(before[entries[k]], lucks[k]))
    && (forall i: nat :: i < |before| && i !in entries ==> after[i] == before[i])
  }

  lemma {:induction false} HandledAllOutbox(s: State, entries: seq<nat>, lucks: seq<Luck>)
    requires |lucks| == |entries| && NeverRetried(s.outbox)
    requires forall k :: 0 <= k < |entries| ==> entries[k] < |s.outbox|
    requires forall j, k :: 0 <= j < k < |entries| ==> entries[j] < entries[k]
    ensures AreHandled(s.outbox, HandledAll(s, entries, lucks).outbox, entries, lucks)
  {
    if entries != [] {
      var k := |entries| - 1;
      HandledAllOutbox(s, entries[..k], lucks[..k]);
      var mid := HandledAll(s, entries[..k], lucks[..k]);
      assert entries[k] !in entries[..k];
      HandledOutbox(mid, entries[k], lucks[k]);
      LastHandled(s.outbox, mid.outbox, entries, lucks);
    }
  }

  lemma LastHandled(before: Outbox, mid: Outbox, entries: seq<nat>, lucks: seq<Luck>)
    requires |lucks| == |entries| && entries != [] && entries[|entries| - 1] < |before|
    requires AreHandled(before, mid, entries[..|entries| - 1], lucks[..|entries| - 1])
    requires forall j :: 0 <= j < |entries| - 1 ==> entries[j] != entries[|entries| - 1]
    ensures var i := entries[|entries| - 1];
            AreHandled(before, mid[i := Outcome(before[i], lucks[|entries| - 1])], entries, lucks) && mid[i] == before[i]
  {
    var k := |entries| - 1;
    assert entries[k] !in entries[..k];
    assert entries == entries[..k] + [entries[k]];
    forall j | 0 <= j < k ensures mid[entries[j]] == Outcome(before[entries[j]], lucks[j]) {
      assert entries[..k][j] == entries[j] && lucks[..k][j] == lucks[j];
    }
  }

  predicate AllLucky(lucks: seq<Luck>) {
    forall k :: 0 <= k < |lucks| ==> lucks[k] == Luck(true, true, true)
  }

  /** A run of the worker is a round of the queue, and a clean one when no store call failed. */
  lemma WorkerRunIsARound(s: State, entries: seq<nat>, lucks: seq<Luck>, limit: nat)
    requires |lucks| == |entries| && NeverRetried(s.outbox) && AreDrained(entries, s.outbox, limit)
    ensures IsRound(s.outbox, HandledAll(s, entries, lucks).outbox, limit)
    ensures AllLucky(lucks) ==> IsCleanRound(s.outbox, HandledAll(s, entries, lucks).outbox, limit)
  {
    HandledAllOutbox(s, entries, lucks);
    var after := HandledAll(s, entries, lucks).outbox;
    forall i | 0 <= i < |s.outbox| ensures Treated(s.outbox, after, i, limit) {
      if i in entries {
        var k :| 0 <= k < |entries| && entries[k] == i;
        assert IsDrained(s.outbox, entries[k], limit);
      }
    }
    if AllLucky(lucks) {
      forall i | 0 <= i < |s.outbox| && IsDrained(s.outbox, i, limit) && !IsPoison(s.outbox[i])
        ensures after[i].status == Archived
      {
        var k :| 0 <= k < |entries| && entries[k] == i;
        assert lucks[k] == Luck(true, true, true);
      }
    }
  }

  // ----- starvation

  /** Poison is never archived and nothing else turns into it. */
  lemma {:induction false} RoundsKeepPoison(before: Outbox, after: Outbox, limit: nat, p: nat)
    requires IsRound(before, after, limit) && p <= |before|
    ensures CountPoison(after[..p]) == CountPoison(before[..p])
  {
    if p > 0 {
      RoundsKeepPoison(before, after, limit, p - 1);
      CountPendingStep(before, p - 1);
      CountPendingStep(after, p - 1);
      assert Treated(before, after, p - 1, limit);
    }
  }

  lemma {:induction false} PoisonIsPending(outbox: Outbox)
    ensures CountPoison(outbox) <= CountPending(outbox)
  {
    if outbox != [] {
      PoisonIsPending(outbox[..|outbox| - 1]);
    }
  }

  /** A clean round frees at least the slots that no poison takes. */
  lemma {:induction false} CleanRoundsShortenTheQueue(before: Outbox, after: Outbox, limit: nat, p: nat)
    requires IsCleanRound(before, after, limit) && p <= |before|
    ensures CountPending(after[..p]) + Min(CountPending(before[..p]), limit)
            <= CountPending(before[..p]) + CountPoison(before[..p])
  {
    if p > 0 {
      CleanRoundsShortenTheQueue(before, after, limit, p - 1);
      CountPendingStep(before, p - 1);
      CountPendingStep(after, p - 1);
      assert Treated(before, after, p - 1, limit);
    }
  }

  /** The outbox after each of a number of runs. */
  predicate AreRounds(os: seq<Outbox>, limit: nat)
    decreases |os|
  {
    os != [] && (|os| > 1 ==> IsRound(os[0], os[1], limit) && AreRounds(os[1..], limit))
  }

  predicate AreCleanRounds(os: seq<Outbox>, limit: nat)
    decreases |os|
  {
    os != [] && (|os| > 1 ==> IsCleanRound(os[0], os[1], limit) && AreCleanRounds(os[1..], limit))
  }

  /** Whatever the luck: behind `limit` poison entries nothing moves, ever. */
  lemma {:induction false} StarvedForever(os: seq<Outbox>, p: nat, limit: nat)
    requires AreRounds(os, limit) && p < |os[0]| && CountPoison(os[0][..p]) >= limit
    ensures p < |os[|os| - 1]| && os[|os| - 1][p] == os[0][p]
    decreases |os|
  {
    if |os| > 1 {
      assert IsRound(os[0], os[1], limit) && Treated(os[0], os[1], p, limit);
      PoisonIsPending(os[0][..p]);
      RoundsKeepPoison(os[0], os[1], limit, p);
      StarvedForever(os[1..], p, limit);
    }
  }

  lemma {:induction false} ArchivedForever(os: seq<Outbox>, p: nat, limit: nat)
    requires AreRounds(os, limit) && p < |os[0]| && os[0][p].status == Archived
    ensures p < |os[|os| - 1]| && os[|os| - 1][p].status == Archived
    decreases |os|
  {
    if |os| > 1 {
      assert IsRound(os[0], os[1], limit) && Treated(os[0], os[1], p, limit);
      ArchivedForever(os[1..], p, limit);
    }
  }

  lemma {:induction false} CleanRoundsAreRounds(os: seq<Outbox>, limit: nat)
    requires AreCleanRounds(os, limit)
    ensures AreRounds(os, limit)
    decreases |os|
  {
    if |os| > 1 {
      CleanRoundsAreRounds(os[1..], limit);
    }
  }

  /**
   With fewer than `limit` poison entries ahead, every clean run moves the entry forward by the
   slots left, and a run for which it is near enough archives it.
  */
  lemma {:induction false} ArchivedInTime(os: seq<Outbox>, p: nat, limit: nat, rounds: nat)
    requires AreCleanRounds(os, limit) && |os| == rounds + 2
    requires p < |os[0]| && os[0][p].status == Pending && !IsPoison(os[0][p])
    requires CountPoison(os[0][..p]) < limit
    requires CountPending(os[0][..p]) < limit + rounds * (limit - CountPoison(os[0][..p]))
    ensures p < |os[|os| - 1]| && os[|os| - 1][p].status == Archived
    decreases rounds
  {
    CleanRoundsAreRounds(os, limit);
    assert IsCleanRound(os[0], os[1], limit) && Treated(os[0], os[1], p, limit);
    if os[1][p].status == Archived {
      ArchivedForever(os[1..], p, limit);
    } else {
      CleanRoundsShortenTheQueue(os[0], os[1], limit, p);
      RoundsKeepPoison(os[0], os[1], limit, p);
      OneRoundLess(rounds, limit - CountPoison(os[0][..p]));
      ArchivedInTime(os[1..], p, limit, rounds - 1);
    }
  }

  lemma OneRoundLess(rounds: nat, slots: int)
    requires rounds > 0
    ensures rounds * slots == (rounds - 1) * slots + slots
  {}

  /**
   A sound pending entry is archived in the end exactly when fewer than `limit` poison entries are
   ahead of it; as many rounds as there are pending entries ahead are enough, plus two.
  */
  lemma ArchivedEventuallyIff(os: seq<Outbox>, p: nat, limit: nat)
    requires AreCleanRounds(os, limit) && p < |os[0]| && os[0][p].status == Pending && !IsPoison(os[0][p])
    requires |os| == CountPending(os[0][..p]) + 2
    ensures p < |os[|os| - 1]|
    ensures os[|os| - 1][p].status == Archived <==> CountPoison(os[0][..p]) < limit
  {
    CleanRoundsAreRounds(os, limit);
    if CountPoison(os[0][..p]) < limit {
      AtLeast(CountPending(os[0][..p]), limit - CountPoison(os[0][..p]));
      ArchivedInTime(os, p, limit, CountPending(os[0][..p]));
    } else {
      StarvedForever(os, p, limit);
    }
  }

  lemma AtLeast(n: nat, slots: int)
    requires slots >= 1
    ensures n * slots >= n
  {}

  // ----- from the outbox to the reader

  /** Steps of others than the worker: appends that begin, finish or stop, and other entries. */
  predicate IsProducerStep(step: Step) {
    step.BeginAppend? || step.FinishAppend? || step.Stop? || step.Enqueue?
  }

  const LUCKY := Luck(true, true, true)

  /** The steps of a worker that handles the entries without a failing store call. */
  function Chores(outbox: Outbox, entries: seq<nat>): seq<Step> {
    if entries == [] then []
    else
      var i := entries[|entries| - 1];
      Chores(outbox, entries[..|entries| - 1]) + (if i < |outbox| then HandlingSteps(outbox[i], i, LUCKY) else [])
  }

  /** The chores in their order, with steps of producers before, between and after any two of them. */
  predicate Interleaves(run: seq<Step>, chores: seq<Step>)
    decreases |run|
  {
    if run == [] then chores == []
    else
      || (IsProducerStep(run[0]) && Interleaves(run[1..], chores))
      || (chores != [] && run[0] == chores[0] && Interleaves(run[1..], chores[1..]))
  }

  /** A run of the worker in which no store call fails, while producers go on at every moment. */
  ghost predicate IsShift(s: State, t: State, limit: nat) {
    exists entries, run ::
      && AreDrained(entries, s.outbox, limit)
      && Legal(s, run) && Interleaves(run, Chores(s.outbox, entries)) && t == End(s, run)
  }

  lemma {:induction false} InterleavedHas(run: seq<Step>, chores: seq<Step>, step: Step)
    requires Interleaves(run, chores) && !IsProducerStep(step)
    ensures step in run <==> step in chores
    decreases |run|
  {
    if run != [] {
      assert run == [run[0]] + run[1..];
      if IsProducerStep(run[0]) && Interleaves(run[1..], chores) {
        InterleavedHas(run[1..], chores, step);
      } else {
        assert chores == [chores[0]] + chores[1..];
        InterleavedHas(run[1..], chores[1..], step);
      }
    }
  }

  lemma StepTreats(s: State, step: Step, i: nat)
    requires Enabled(s, step) && NeverRetried(s.outbox) && i < |s.outbox|
    ensures NeverRetried(Apply(s, step).outbox) && |s.outbox| <= |Apply(s, step).outbox|
    ensures Apply(s, step).outbox[i] == if step == WorkerMark(i) then s.outbox[i].(status := Archived) else s.outbox[i]
  {}

  /** Every run whatsoever leaves an entry as it is, or archives it when the worker marks it. */
  lemma {:induction false} RunTreats(s: State, run: seq<Step>, i: nat)
    requires Legal(s, run) && NeverRetried(s.outbox) && i < |s.outbox|
    ensures |s.outbox| <= |End(s, run).outbox|
    ensures End(s, run).outbox[i] == if WorkerMark(i) in run then s.outbox[i].(status := Archived) else s.outbox[i]
    decreases |run|
  {
    if run != [] {
      assert run == [run[0]] + run[1..];
      StepTreats(s, run[0], i);
      RunTreats(Apply(s, run[0]), run[1..], i);
    }
  }

  /** The lucky handling of a sound entry marks it, and indexes it when it is an event. */
  lemma LuckyHandling(entry: OutboxEntry, j: nat)
    ensures HandlingSteps(entry, j, LUCKY)
         == if IsPoison(entry) then [WorkerFail(j)]
            else if IsEventType(entry.objectType) then [WorkerIndex(j), WorkerWrite(j), WorkerMark(j)]
            else [WorkerWrite(j), WorkerMark(j)]
  {}

  lemma HandlingHas(entry: OutboxEntry, j: nat, i: nat)
    ensures WorkerMark(i) in HandlingSteps(entry, j, LUCKY) <==> i == j && !IsPoison(entry)
    ensures WorkerIndex(i) in HandlingSteps(entry, j, LUCKY) <==>
              i == j && IsEventType(entry.objectType) && !IsPoison(entry)
  {
    LuckyHandling(entry, j);
  }

  lemma {:induction false} ChoresHave(outbox: Outbox, entries: seq<nat>, i: nat)
    requires i < |outbox|
    ensures WorkerMark(i) in Chores(outbox, entries) <==> i in entries && !IsPoison(outbox[i])
    ensures WorkerIndex(i) in Chores(outbox, entries) <==>
              i in entries && IsEventType(outbox[i].objectType) && !IsPoison(outbox[i])
  {
    if entries != [] {
      var k := |entries| - 1;
      ChoresHave(outbox, entries[..k], i);
      assert entries == entries[..k] + [entries[k]];
      if entries[k] < |outbox| {
        HandlingHas(outbox[entries[k]], entries[k], i);
        InBoth(Chores(outbox, entries[..k]), HandlingSteps(outbox[entries[k]], entries[k], LUCKY), WorkerMark(i));
        InBoth(Chores(outbox, entries[..k]), HandlingSteps(outbox[entries[k]], entries[k], LUCKY), WorkerIndex(i));
      }
    }
  }

  lemma InBoth(a: seq<Step>, b: seq<Step>, step: Step)
    ensures step in a + b <==> step in a || step in b
  {}

  /** What a shift does: a run of the step system, a clean round of the queue. */
  lemma ShiftIsARun(s: State, t: State, limit: nat) returns (run: seq<Step>)
    requires IsShift(s, t, limit) && NeverRetried(s.outbox)
    ensures Legal(s, run) && End(s, run) == t && IsCleanRound(s.outbox, t.outbox, limit)
  {
    var entries, r :|
      AreDrained(entries, s.outbox, limit) && Legal(s, r) && Interleaves(r, Chores(s.outbox, entries)) && t == End(s, r);
    run := r;
    RunGrows(s, run);
    forall i | 0 <= i < |s.outbox|
      ensures t.outbox[i] == if IsDrained(s.outbox, i, limit) && !IsPoison(s.outbox[i])
                             then s.outbox[i].(status := Archived) else s.outbox[i]
    {
      RunTreats(s, run, i);
      ChoresHave(s.outbox, entries, i);
      InterleavedHas(run, Chores(s.outbox, entries), WorkerMark(i));
    }
  }

  lemma {:induction false} RunGrows(s: State, run: seq<Step>)
    requires Legal(s, run)
    ensures |s.outbox| <= |End(s, run).outbox|
    decreases |run|
  {
    if run != [] {
      RunGrows(Apply(s, run[0]), run[1..]);
    }
  }

  predicate CarriesId(entry: OutboxEntry, id: string) {
    IsEventType(entry.objectType) && entry.payload.OfEvent? && entry.payload.event.eventId == id
  }

  lemma {:induction false} IndexStepIndexes(s: State, run: seq<Step>, p: nat, id: string)
    requires Legal(s, run) && NeverRetried(s.outbox) && p < |s.outbox| && CarriesId(s.outbox[p], id)
    requires WorkerIndex(p) in run
    ensures Indexes(s, run, id)
    decreases |run|
  {
    if run[0] == WorkerIndex(p) {
      assert StepIndexes(s, run[0], id);
    } else {
      assert WorkerIndex(p) in run[1..];
      StepTreats(s, run[0], p);
      IndexStepIndexes(Apply(s, run[0]), run[1..], p, id);
    }
  }

  /** A shift indexes the events it drains, and unindexes nothing. */
  lemma ShiftIndexes(s: State, t: State, limit: nat, p: nat, id: string)
    requires IsShift(s, t, limit) && NeverRetried(s.outbox) && p < |s.outbox|
    requires CarriesId(s.outbox[p], id)
    ensures HasId(s.index, id) || IsDrained(s.outbox, p, limit) ==> HasId(t.index, id)
  {
    var entries, run :|
      AreDrained(entries, s.outbox, limit) && Legal(s, run) && Interleaves(run, Chores(s.outbox, entries)) && t == End(s, run);
    RunIndexesIff(s, run, id);
    if IsDrained(s.outbox, p, limit) {
      DrainedIsIndexed(s.outbox, entries, run, p, id);
      IndexStepIndexes(s, run, p, id);
    }
  }

  lemma DrainedIsIndexed(outbox: Outbox, entries: seq<nat>, run: seq<Step>, p: nat, id: string)
    requires p < |outbox| && p in entries && CarriesId(outbox[p], id) && Interleaves(run, Chores(outbox, entries))
    ensures WorkerIndex(p) in run
  {
    ChoresHave(outbox, entries, p);
    InterleavedHas(run, Chores(outbox, entries), WorkerIndex(p));
  }

  // ----- the worker's run is a shift

  lemma {:induction false} InterleavesItself(chores: seq<Step>)
    ensures Interleaves(chores, chores)
    decreases |chores|
  {
    if chores != [] {
      InterleavesItself(chores[1..]);
    }
  }

  lemma {:induction false} LuckyRunIsChores(s: State, entries: seq<nat>, lucks: seq<Luck>)
    requires |lucks| == |entries| && AllLucky(lucks) && NeverRetried(s.outbox)
    requires forall k :: 0 <= k < |entries| ==> entries[k] < |s.outbox|
    ensures Legal(s, Chores(s.outbox, entries)) && End(s, Chores(s.outbox, entries)) == HandledAll(s, entries, lucks)
  {
    if entries != [] {
      var k := |entries| - 1;
      var i, front := entries[k], Chores(s.outbox, entries[..k]);
      LuckyRunIsChores(s, entries[..k], lucks[..k]);
      RunTreats(s, front, i);
      var mid := End(s, front);
      assert HandlingSteps(mid.outbox[i], i, LUCKY) == HandlingSteps(s.outbox[i], i, LUCKY);
      HandledIsARun(mid, i, LUCKY);
      Joined(s, front, HandlingSteps(mid.outbox[i], i, LUCKY));
    }
  }

  /** What the worker class does without a failing call is a shift. */
  lemma WorkerRunIsAShift(s: State, entries: seq<nat>, lucks: seq<Luck>, limit: nat)
    requires |lucks| == |entries| && AllLucky(lucks) && NeverRetried(s.outbox) && AreDrained(entries, s.outbox, limit)
    ensures IsShift(s, HandledAll(s, entries, lucks), limit)
  {
    assert forall k :: 0 <= k < |entries| ==> IsDrained(s.outbox, entries[k], limit);
    LuckyRunIsChores(s, entries, lucks);
    InterleavesItself(Chores(s.outbox, entries));
  }

  ghost predicate AreShifts(states: seq<State>, limit: nat)
    decreases |states|
  {
    states != [] && (|states| > 1 ==> IsShift(states[0], states[1], limit) && AreShifts(states[1..], limit))
  }

  function Outboxes(states: seq<State>): (os: seq<Outbox>)
    ensures |os| == |states|
    ensures states != [] ==> os[0] == states[0].outbox && os[|os| - 1] == states[|states| - 1].outbox
  {
    if states == [] then [] else [states[0].outbox] + Outboxes(states[1..])
  }

  lemma InvIsNeverRetried(s: State)
    requires Inv(s)
    ensures NeverRetried(s.outbox)
  {
    forall i | 0 <= i < |s.outbox| ensures s.outbox[i].retryCount == 0 {
      assert EntryOk(s.outbox[i]);
    }
  }

  lemma {:induction false} ShiftsAreCleanRounds(states: seq<State>, limit: nat)
    requires AreShifts(states, limit) && Inv(states[0])
    ensures AreCleanRounds(Outboxes(states), limit) && Inv(states[|states| - 1])
    decreases |states|
  {
    if |states| > 1 {
      InvIsNeverRetried(states[0]);
      var run := ShiftIsARun(states[0], states[1], limit);
      RunKeepsInv(states[0], run);
      ShiftsAreCleanRounds(states[1..], limit);
      assert Outboxes(states)[1..] == Outboxes(states[1..]);
    }
  }

  /** An event that is archived in the end was drained on the way, and is indexed from then on. */
  lemma {:induction false} ArchivedMeansIndexed(states: seq<State>, limit: nat, p: nat, e: Envelope)
    requires AreShifts(states, limit) && Inv(states[0]) && p < |states[0].outbox|
    requires IsEventType(states[0].outbox[p].objectType) && states[0].outbox[p].payload == OfEvent(e)
    requires states[0].outbox[p].status == Pending || HasId(states[0].index, e.eventId)
    ensures p < |states[|states| - 1].outbox| && states[|states| - 1].outbox[p].payload == OfEvent(e)
    ensures states[|states| - 1].outbox[p].status == Archived && |states| > 1 ==> HasId(states[|states| - 1].index, e.eventId)
    ensures HasId(states[0].index, e.eventId) ==> HasId(states[|states| - 1].index, e.eventId)
    decreases |states|
  {
    if |states| > 1 {
      InvIsNeverRetried(states[0]);
      var run := ShiftIsARun(states[0], states[1], limit);
      RunKeepsInv(states[0], run);
      ShiftIndexes(states[0], states[1], limit, p, e.eventId);
      assert Treated(states[0].outbox, states[1].outbox, p, limit);
      ArchivedMeansIndexed(states[1..], limit, p, e);
    }
  }

  /** An event whose entry is archived and whose id is indexed is found. */
  lemma ArchivedAndIndexedIsLoaded(
    s: State, p: nat, e: Envelope, rows: Index, readable: seq<bool>, limit: nat)
    requires Inv(s) && UniqueIds(s.outbox) && p < |s.outbox|
    requires s.outbox[p].payload == OfEvent(e) && s.outbox[p].status == Archived && HasId(s.index, e.eventId)
    requires IsKeysAnswer(rows, s.index, e.aggregateType, e.aggregateId, limit)
    requires |readable| == |rows| < limit && AllRead(readable)
    ensures e in Loaded(rows, s.objects, readable, limit)
  {
    assert EntryOk(s.outbox[p]) && p in s.written;
    OwnRowIff(s, e);
    FoundIff(s, rows, readable, limit, e);
  }

  /** The entry is near enough to be archived within so many rounds and one. */
  predicate IsReached(outbox: Outbox, p: nat, limit: nat, rounds: nat) {
    && p < |outbox| && outbox[p].status == Pending
    && CountPoison(outbox[..p]) < limit
    && CountPending(outbox[..p]) < limit + rounds * (limit - CountPoison(outbox[..p]))
  }

  lemma ReachedIsArchived(os: seq<Outbox>, p: nat, limit: nat, rounds: nat)
    requires AreCleanRounds(os, limit) && |os| == rounds + 2
    requires IsReached(os[0], p, limit, rounds) && !IsPoison(os[0][p])
    ensures p < |os[|os| - 1]| && os[|os| - 1][p].status == Archived
  {
    ArchivedInTime(os, p, limit, rounds);
  }

  lemma ShiftsArchive(states: seq<State>, p: nat, limit: nat, rounds: nat)
    requires AreShifts(states, limit) && |states| == rounds + 2 && Inv(states[0])
    requires IsReached(states[0].outbox, p, limit, rounds) && !IsPoison(states[0].outbox[p])
    ensures Inv(states[rounds + 1])
    ensures p < |states[rounds + 1].outbox| && states[rounds + 1].outbox[p].status == Archived
  {
    ShiftsAreCleanRounds(states, limit);
    ReachedIsArchived(Outboxes(states), p, limit, rounds);
  }

  lemma SoundEventsAreArchived(states: seq<State>, p: nat, e: Envelope, limit: nat, rounds: nat, last: State)
    requires AreShifts(states, limit) && |states| == rounds + 2 && Inv(states[0]) && last == states[rounds + 1]
    requires IsReached(states[0].outbox, p, limit, rounds)
    requires states[0].outbox[p].payload == OfEvent(e) && IsEventType(states[0].outbox[p].objectType)
    ensures Inv(last) && p < |last.outbox| && last.outbox[p].payload == OfEvent(e)
    ensures last.outbox[p].status == Archived && HasId(last.index, e.eventId)
  {
    ShiftsArchive(states, p, limit, rounds);
    ArchivedMeansIndexed(states, limit, p, e);
  }

  /**
   End to end: an event in the outbox with fewer than `limit` poison entries ahead of it, even one
   whose append stopped before its index insert, is loaded after the shifts that its place in the
   queue takes, whatever is appended meanwhile, also between two calls of the worker.
  */
  lemma SoundEventsAreLoaded(
    states: seq<State>, p: nat, e: Envelope, limit: nat, rounds: nat, last: State,
    rows: Index, readable: seq<bool>, loadLimit: nat)
    requires AreShifts(states, limit) && |states| == rounds + 2 && Inv(states[0]) && last == states[rounds + 1]
    requires IsReached(states[0].outbox, p, limit, rounds)
    requires states[0].outbox[p].payload == OfEvent(e) && IsEventType(states[0].outbox[p].objectType)
    requires UniqueIds(last.outbox)
    requires IsKeysAnswer(rows, last.index, e.aggregateType, e.aggregateId, loadLimit)
    requires |readable| == |rows| < loadLimit && AllRead(readable)
    ensures e in Loaded(rows, last.objects, readable, loadLimit)
  {
    SoundEventsAreArchived(states, p, e, limit, rounds, last);
    ArchivedAndIndexedIsLoaded(last, p, e, rows, readable, loadLimit);
  }

  // ----- a source of poison

  /**
   The entry that a generated reflection leaves: typed as an event, with a payload that lacks the
   fields of an envelope.
  */
  function ReflectionEntry(key: string, payload: string): OutboxEntry {
    OutboxEntry("event:reflection", key, Raw(payload), Pending, 0)
  }

  /** After a hundred of them, nothing appended later is archived, in any number of runs. */
  lemma ReflectionsStarveTheStream(os: seq<Outbox>, p: nat)
    requires AreRounds(os, DRAIN_LIMIT) && DRAIN_LIMIT <= p < |os[0]|
    requires forall i :: 0 <= i < DRAIN_LIMIT ==>
                           exists key, payload :: os[0][i] == ReflectionEntry(key, payload)
    ensures p < |os[|os| - 1]| && os[|os| - 1][p] == os[0][p]
  {
    forall i | 0 <= i < DRAIN_LIMIT ensures os[0][i].status == Pending && IsPoison(os[0][i]) {
      var key, payload :| os[0][i] == ReflectionEntry(key, payload);
    }
    AllPoison(os[0], DRAIN_LIMIT);
    CountPoisonGrows(os[0], DRAIN_LIMIT, p);
    StarvedForever(os, p, DRAIN_LIMIT);
  }

  lemma {:induction false} AllPoison(outbox: Outbox, n: nat)
    requires n <= |outbox| && forall i :: 0 <= i < n ==> outbox[i].status == Pending && IsPoison(outbox[i])
    ensures CountPoison(outbox[..n]) == n
  {
    if n > 0 {
      AllPoison(outbox, n - 1);
      CountPendingStep(outbox, n - 1);
    }
  }

  lemma {:induction false} CountPoisonGrows(outbox: Outbox, m: nat, n: nat)
    requires m <= n <= |outbox|
    ensures CountPoison(outbox[..m]) <= CountPoison(outbox[..n])
  {
    if m < n {
      CountPoisonGrows(outbox, m, n - 1);
      CountPendingStep(outbox, n - 1);
    }
  }
}
