/**
 What loads return without any assumption on ids: two appends of one aggregate type, day and event
 id share an object key, and then the first index row stands over the last object written.
*/
module EventLoads {
  import opened Wrappers
  import opened EventStream
  import StableSort

  // ----- the object under a key

  /** What the step writes under the key. */
  function StepWrites(s: State, step: Step, key: string): Option<Text>
    requires Enabled(s, step)
  {
    if step.WorkerWrite? && s.outbox[step.entry].objectKey == key then Some(s.outbox[step.entry].payload) else None
  }

  /** The last payload that a run writes under the key. */
  ghost function LastWritten(s: State, run: seq<Step>, key: string): Option<Text>
    requires Legal(s, run)
    decreases |run|
  {
    if run == [] then None
    else
      var later := LastWritten(Apply(s, run[0]), run[1..], key);
      if later.Some? then later else StepWrites(s, run[0], key)
  }

  function Stored(objects: Objects, key: string): Option<Text> {
    if key in objects then Some(objects[key]) else None
  }

  lemma {:induction false} ObjectIsLastWritten(s: State, run: seq<Step>, key: string)
    requires Legal(s, run)
    ensures var last := LastWritten(s, run, key);
            Stored(End(s, run).objects, key) == if last.Some? then last else Stored(s.objects, key)
    decreases |run|
  {
    if run != [] {
      ObjectIsLastWritten(Apply(s, run[0]), run[1..], key);
    }
  }

  // ----- the row of an id

  /** The row the step offers to the index. */
  ghost function StepRow(s: State, step: Step): Option<IndexRow>
    requires Enabled(s, step)
  {
    match step
    case FinishAppend(c) => Some(RowOf(s.appends[c]))
    case WorkerIndex(i) => Some(RowAt(s.outbox[i].payload.event, s.outbox[i].objectKey))
    case _ => None
  }

  /** The first row that a run offers for the id. */
  ghost function FirstRow(s: State, run: seq<Step>, id: string): Option<IndexRow>
    requires Legal(s, run)
    decreases |run|
  {
    if run == [] then None
    else
      var row := StepRow(s, run[0]);
      if row.Some? && row.value.eventId == id then row else FirstRow(Apply(s, run[0]), run[1..], id)
  }

  lemma OfferedRow(s: State, step: Step, r: IndexRow)
    requires Enabled(s, step)
    ensures var row := StepRow(s, step);
            r in Apply(s, step).index <==> r in s.index || (row == Some(r) && !HasId(s.index, r.eventId))
    ensures HasId(Apply(s, step).index, r.eventId) <==>
              HasId(s.index, r.eventId) || (StepRow(s, step).Some? && StepRow(s, step).value.eventId == r.eventId)
  {
    StepIndexesIff(s, step, r.eventId);
  }

  /** A row is in the index exactly when it was, or was the first one offered for an id that had none. */
  lemma {:induction false} IndexHoldsFirstRows(s: State, run: seq<Step>, r: IndexRow)
    requires Legal(s, run)
    ensures r in End(s, run).index <==>
              r in s.index || (!HasId(s.index, r.eventId) && FirstRow(s, run, r.eventId) == Some(r))
    decreases |run|
  {
    if run != [] {
      OfferedRow(s, run[0], r);
      IndexHoldsFirstRows(Apply(s, run[0]), run[1..], r);
      assert r in s.index ==> HasId(s.index, r.eventId);
    }
  }

  // ----- loads

  /** A row of the aggregate that came first for its id, over an object last written from `e`. */
  ghost predicate LeadsTo(s: State, run: seq<Step>, aggregateType: string, aggregateId: string, r: IndexRow, e: Envelope)
    requires Legal(s, run)
  {
    && r.aggregateType == aggregateType && r.aggregateId == aggregateId
    && FirstRow(s, run, r.eventId) == Some(r)
    && LastWritten(s, run, r.objectKey) == Some(OfEvent(e))
  }

  /** A row is answered over `e` exactly when it leads there. */
  lemma AnsweredIffLeadsTo(
    s: State, run: seq<Step>, t: State, rows: Index, aggregateType: string, aggregateId: string, limit: nat,
    r: IndexRow, e: Envelope)
    requires Initial(s) && Legal(s, run) && t == End(s, run) && |rows| < limit
    requires IsKeysAnswer(rows, t.index, aggregateType, aggregateId, limit)
    ensures r in rows && Fetched(t.objects, r.objectKey, true) == Some(e)
       <==> LeadsTo(s, run, aggregateType, aggregateId, r, e)
  {
    AnsweredIff(s, run, t, rows, aggregateType, aggregateId, limit, r);
    IndexHoldsFirstRows(s, run, r);
    ObjectIsLastWritten(s, run, r.objectKey);
  }

  lemma AnsweredIff(
    s: State, run: seq<Step>, t: State, rows: Index, aggregateType: string, aggregateId: string, limit: nat, r: IndexRow)
    requires Initial(s) && Legal(s, run) && t == End(s, run) && |rows| < limit
    requires IsKeysAnswer(rows, t.index, aggregateType, aggregateId, limit)
    ensures r in rows <==> r in t.index && r.aggregateType == aggregateType && r.aggregateId == aggregateId
  {
    RunKeepsInv(s, run);
    AnswerRows(t.index, rows, aggregateType, aggregateId, limit);
    if r in t.index && r.aggregateType == aggregateType && r.aggregateId == aggregateId {
      AnswerIsTop(t.index, rows, aggregateType, aggregateId, limit, r);
    }
  }

  lemma SortOfShort(es: seq<Envelope>, limit: nat, e: Envelope)
    requires |es| <= limit
    ensures var sorted := StableSort.Sort(es, EventTime);
            e in sorted[..EventStream.Min(limit, |sorted|)] <==> e in es
  {
    var sorted := StableSort.Sort(es, EventTime);
    StableSort.SortIsASort(es, EventTime);
    assert |sorted| == |multiset(sorted)| == |es|;
    assert sorted[..|sorted|] == sorted;
    assert e in sorted <==> e in multiset(sorted);
    assert e in es <==> e in multiset(es);
  }

  lemma UncutIsFetched(rows: Index, objects: Objects, readable: seq<bool>, limit: nat, e: Envelope)
    requires |readable| == |rows| < limit && AllRead(readable)
    ensures e in Loaded(rows, objects, readable, limit)
       <==> exists r :: r in rows && Fetched(objects, r.objectKey, true) == Some(e)
  {
    FetchAllIsShort(rows, objects, readable);
    FetchAllMembers(rows, objects, readable, e);
    SortOfShort(FetchAll(rows, objects, readable), limit, e);
  }

  ghost predicate SomeRowLeadsTo(s: State, run: seq<Step>, aggregateType: string, aggregateId: string, e: Envelope)
    requires Legal(s, run)
  {
    exists r :: LeadsTo(s, run, aggregateType, aggregateId, r, e)
  }

  /**
   After any run from an empty stream, with an answer that is not cut and objects that can be read:
   an event is loaded exactly when it was the last one written under the key of the first row of
   some id. Ids may repeat and keys may be shared.
  */
  lemma LoadedIsLastWrittenIff(
    s: State, run: seq<Step>, t: State, rows: Index, readable: seq<bool>, aggregateType: string, aggregateId: string,
    limit: nat, e: Envelope)
    requires Initial(s) && Legal(s, run) && t == End(s, run)
    requires IsKeysAnswer(rows, t.index, aggregateType, aggregateId, limit)
    requires |readable| == |rows| < limit && AllRead(readable)
    ensures e in Loaded(rows, t.objects, readable, limit) <==> SomeRowLeadsTo(s, run, aggregateType, aggregateId, e)
  {
    UncutIsFetched(rows, t.objects, readable, limit, e);
    forall r: IndexRow
      ensures r in rows && Fetched(t.objects, r.objectKey, true) == Some(e)
         <==> LeadsTo(s, run, aggregateType, aggregateId, r, e)
    {
      AnsweredIffLeadsTo(s, run, t, rows, aggregateType, aggregateId, limit, r, e);
    }
  }
}
