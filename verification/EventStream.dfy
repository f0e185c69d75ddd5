/**
 The memory event stream: an append writes the outbox and then the index, the archive worker
 moves payloads to the object store, and a load joins index and objects. Each write is a step.
*/
module EventStream {
  import opened Wrappers
  import Decimal
  import EventKeys
  import EventIds
  import StableSort

  // ----- entries, index rows and objects

  datatype Envelope = Envelope(
    eventId: string,
    aggregateType: string,
    aggregateId: string,
    eventType: string,
    payload: string,
    occurredAt: int)

  /** A JSON text: the encoding of an envelope, or any text that does not decode to one. */
  datatype Text = OfEvent(event: Envelope) | Raw(text: string)

  datatype EntryStatus = Pending | Archived | Failed

  datatype OutboxEntry = OutboxEntry(
    objectType: string,
    objectKey: string,
    payload: Text,
    status: EntryStatus,
    retryCount: nat)

  datatype IndexRow = IndexRow(
    eventId: string,
    aggregateType: string,
    aggregateId: string,
    eventType: string,
    objectKey: string,
    occurredAt: int)

  type Outbox = seq<OutboxEntry>
  type Index = seq<IndexRow>
  type Objects = map<string, Text>

  ghost function KeyOfEvent(e: Envelope): string {
    EventKeys.EventKey(e.aggregateType, e.occurredAt, e.eventId)
  }

  ghost function EntryOf(e: Envelope): OutboxEntry {
    OutboxEntry("event:" + e.aggregateType, KeyOfEvent(e), OfEvent(e), Pending, 0)
  }

  function RowAt(e: Envelope, key: string): IndexRow {
    IndexRow(e.eventId, e.aggregateType, e.aggregateId, e.eventType, key, e.occurredAt)
  }

  ghost function RowOf(e: Envelope): IndexRow {
    RowAt(e, KeyOfEvent(e))
  }

  predicate HasId(index: Index, eventId: string) {
    exists r :: r in index && r.eventId == eventId
  }

  /** `INSERT OR IGNORE` on the unique event id. */
  function Indexed(index: Index, r: IndexRow): Index {
    if HasId(index, r.eventId) then index else index + [r]
  }

  function WithStatus(outbox: Outbox, i: nat, status: EntryStatus): Outbox
    requires i < |outbox|
  {
    outbox[i := outbox[i].(status := status)]
  }

  /** The update behind `mark_outbox_failed`: it is guarded by three earlier retries. */
  function MarkedFailed(outbox: Outbox, i: nat): Outbox
    requires i < |outbox|
  {
    if outbox[i].retryCount >= 3 then
      outbox[i := outbox[i].(status := Failed, retryCount := outbox[i].retryCount + 1)]
    else outbox
  }

  /** An entry after a number of failures. */
  function FailedTimes(outbox: Outbox, i: nat, n: nat): (after: Outbox)
    requires i < |outbox|
    ensures |after| == |outbox|
  {
    if n == 0 then outbox else MarkedFailed(FailedTimes(outbox, i, n - 1), i)
  }

  /** No number of failures gives up an entry with fewer than three counted retries, or counts one. */
  lemma {:induction false} GivenUpIff(outbox: Outbox, i: nat, n: nat)
    requires i < |outbox| && outbox[i].status == Pending
    ensures FailedTimes(outbox, i, n)
         == if outbox[i].retryCount < 3 || n == 0 then outbox
            else outbox[i := outbox[i].(status := Failed, retryCount := outbox[i].retryCount + n)]
  {
    if n > 0 {
      GivenUpIff(outbox, i, n - 1);
    }
  }

  predicate IsEventType(objectType: string) {
    "event:" <= objectType
  }

  predicate IsEventKey(key: string) {
    "memory/events/" <= key
  }

  /** An entry the worker can never write: typed as an event, with a payload that is none. */
  predicate IsPoison(entry: OutboxEntry) {
    IsEventType(entry.objectType) && entry.payload.Raw?
  }

  // ----- the step system

  /**
   `appends` holds the events between their outbox insert and their index insert; `written` and
   `completed` remember which entries reached the object store and which appends finished.
  */
  datatype State = State(
    outbox: Outbox,
    index: Index,
    objects: Objects,
    appends: map<nat, Envelope>,
    written: set<nat>,
    completed: set<Envelope>)

  ghost predicate Initial(s: State) {
    s == State([], [], map[], map[], {}, {})
  }

  datatype Step =
    | BeginAppend(client: nat, event: Envelope)
    | FinishAppend(client: nat)
    | Stop(client: nat)                            // a failed index insert or a crash
    | Enqueue(objectType: string, key: string, text: string)
    | WorkerIndex(entry: nat)
    | WorkerWrite(entry: nat)
    | WorkerMark(entry: nat)
    | WorkerFail(entry: nat)

  predicate ValidEvent(e: Envelope) {
    !EventKeys.HasSlash(e.eventId) && Decimal.IsI64(e.occurredAt)
  }

  /** Worker runs may overlap, so a worker may still hold an entry that another one archived. */
  predicate Enabled(s: State, step: Step) {
    match step
    case BeginAppend(c, e) => c !in s.appends && ValidEvent(e)
    case FinishAppend(c) => c in s.appends
    case Stop(c) => c in s.appends
    case Enqueue(objectType, key, _) => IsEventType(objectType) || !IsEventKey(key)
    case WorkerIndex(i) => i < |s.outbox| && s.outbox[i].payload.OfEvent?
    case WorkerWrite(i) => i < |s.outbox| && !IsPoison(s.outbox[i])
    case WorkerMark(i) => i < |s.outbox| && i in s.written
    case WorkerFail(i) => i < |s.outbox|
  }

  ghost function Apply(s: State, step: Step): State
    requires Enabled(s, step)
  {
    match step
    case BeginAppend(c, e) => s.(outbox := s.outbox + [EntryOf(e)], appends := s.appends[c := e])
    case FinishAppend(c) =>
      s.(index := Indexed(s.index, RowOf(s.appends[c])), appends := s.appends - {c},
         completed := s.completed + {s.appends[c]})
    case Stop(c) => s.(appends := s.appends - {c})
    case Enqueue(objectType, key, text) =>
      s.(outbox := s.outbox + [OutboxEntry(objectType, key, Raw(text), Pending, 0)])
    case WorkerIndex(i) =>
      s.(index := Indexed(s.index, RowAt(s.outbox[i].payload.event, s.outbox[i].objectKey)))
    case WorkerWrite(i) =>
      s.(objects := s.objects[s.outbox[i].objectKey := s.outbox[i].payload], written := s.written + {i})
    case WorkerMark(i) => s.(outbox := WithStatus(s.outbox, i, Archived))
    case WorkerFail(i) => s.(outbox := MarkedFailed(s.outbox, i))
  }

  ghost predicate Legal(s: State, run: seq<Step>)
    decreases |run|
  {
    run != [] ==> Enabled(s, run[0]) && Legal(Apply(s, run[0]), run[1..])
  }

  ghost function End(s: State, run: seq<Step>): State
    requires Legal(s, run)
    decreases |run|
  {
    if run == [] then s else End(Apply(s, run[0]), run[1..])
  }

  lemma OneMore(s: State, step: Step, rest: seq<Step>)
    requires Enabled(s, step) && Legal(Apply(s, step), rest)
    ensures Legal(s, [step] + rest) && End(s, [step] + rest) == End(Apply(s, step), rest)
  {
    assert ([step] + rest)[1..] == rest;
  }

  lemma {:induction false} Joined(s: State, a: seq<Step>, b: seq<Step>)
    requires Legal(s, a) && Legal(End(s, a), b)
    ensures Legal(s, a + b) && End(s, a + b) == End(End(s, a), b)
    decreases |a|
  {
    if a == [] {
      assert a + b == b;
    } else {
      assert (a + b)[0] == a[0] && (a + b)[1..] == a[1..] + b;
      Joined(Apply(s, a[0]), a[1..], b);
    }
  }

  lemma OneStep(s: State, step: Step)
    requires Enabled(s, step)
    ensures Legal(s, [step]) && End(s, [step]) == Apply(s, step)
  {
    OneMore(s, step, []);
    assert [step] + [] == [step];
  }

  lemma {:induction false} FreshNumber(used: set<nat>) returns (c: nat)
    ensures forall k :: k in used ==> k < c
    decreases |used|
  {
    c := 0;
    if used != {} {
      var k :| k in used;
      var other := FreshNumber(used - {k});
      c := if other > k then other else k + 1;
      forall j | j in used ensures j < c {
        assert j == k || j in used - {k};
      }
    }
  }

  lemma FreshClient(appends: map<nat, Envelope>) returns (c: nat)
    ensures c !in appends
  {
    c := FreshNumber(appends.Keys);
  }

  /** The two ways an append goes once its entry is in the outbox. */
  lemma AppendRuns(s: State, c: nat, e: Envelope)
    requires c !in s.appends && ValidEvent(e)
    ensures Legal(s, [BeginAppend(c, e)] + [Stop(c)])
    ensures End(s, [BeginAppend(c, e)] + [Stop(c)]) == s.(outbox := s.outbox + [EntryOf(e)])
    ensures Legal(s, [BeginAppend(c, e)] + [FinishAppend(c)])
    ensures End(s, [BeginAppend(c, e)] + [FinishAppend(c)])
            == s.(outbox := s.outbox + [EntryOf(e)], index := Indexed(s.index, RowOf(e)), completed := s.completed + {e})
  {
    var t := Apply(s, BeginAppend(c, e));
    assert s.appends[c := e] - {c} == s.appends;
    OneStep(t, Stop(c));
    OneStep(t, FinishAppend(c));
    OneMore(s, BeginAppend(c, e), [Stop(c)]);
    OneMore(s, BeginAppend(c, e), [FinishAppend(c)]);
  }

  // ----- what every step keeps

  /** The event was appended: an outbox entry carries it. */
  predicate Appended(outbox: Outbox, e: Envelope) {
    exists i :: 0 <= i < |outbox| && outbox[i].payload == OfEvent(e)
  }

  /**
   An entry that carries an event sits at the event's key; one that does not stays away from the
   event keys or is never written. No entry has been retried or given up.
  */
  ghost predicate EntryOk(entry: OutboxEntry) {
    && entry.retryCount == 0 && entry.status != Failed
    && (match entry.payload
        case OfEvent(e) => entry.objectKey == KeyOfEvent(e) && ValidEvent(e)
        case Raw(_) => IsEventType(entry.objectType) || !IsEventKey(entry.objectKey))
  }

  ghost predicate OutboxOk(outbox: Outbox) {
    forall i :: 0 <= i < |outbox| ==> EntryOk(outbox[i])
  }

  ghost predicate RowOk(outbox: Outbox, r: IndexRow) {
    exists e :: Appended(outbox, e) && RowOf(e) == r
  }

  function RowId(r: IndexRow): string {
    r.eventId
  }

  ghost predicate DistinctIds<T>(l: seq<T>, id: T -> string) {
    forall i, j :: 0 <= i < j < |l| ==> id(l[i]) != id(l[j])
  }

  ghost predicate IndexOk(outbox: Outbox, index: Index) {
    && (forall r :: r in index ==> RowOk(outbox, r))
    && DistinctIds(index, RowId)
  }

  ghost predicate ObjectOk(outbox: Outbox, key: string, t: Text) {
    IsEventKey(key) ==> t.OfEvent? && Appended(outbox, t.event) && KeyOfEvent(t.event) == key
  }

  ghost predicate ObjectsOk(outbox: Outbox, objects: Objects) {
    forall key :: key in objects ==> ObjectOk(outbox, key, objects[key])
  }

  predicate WrittenOk(s: State) {
    && (forall i :: i in s.written ==> i < |s.outbox| && s.outbox[i].objectKey in s.objects)
    && (forall i :: 0 <= i < |s.outbox| && s.outbox[i].status == Archived ==> i in s.written)
  }

  predicate AppendsOk(s: State) {
    && (forall c :: c in s.appends ==> Appended(s.outbox, s.appends[c]))
    && (forall e :: e in s.completed ==> Appended(s.outbox, e))
  }

  predicate CompletedOk(s: State) {
    forall e :: e in s.completed ==> HasId(s.index, e.eventId)
  }

  ghost predicate Inv(s: State) {
    && OutboxOk(s.outbox) && IndexOk(s.outbox, s.index) && ObjectsOk(s.outbox, s.objects)
    && WrittenOk(s) && AppendsOk(s) && CompletedOk(s)
  }

  /** The outbox grew at its end, or entries changed in status only. */
  predicate Extends(outbox: Outbox, outbox': Outbox) {
    && |outbox| <= |outbox'|
    && forall i :: 0 <= i < |outbox| ==>
         outbox'[i].payload == outbox[i].payload && outbox'[i].objectKey == outbox[i].objectKey
  }

  lemma ExtendsKeepsAppended(outbox: Outbox, outbox': Outbox)
    requires Extends(outbox, outbox')
    ensures forall e :: Appended(outbox, e) ==> Appended(outbox', e)
  {
    forall e | Appended(outbox, e) ensures Appended(outbox', e) {
      var i :| 0 <= i < |outbox| && outbox[i].payload == OfEvent(e);
      assert outbox'[i].payload == OfEvent(e);
    }
  }

  lemma ExtendsKeepsIndexAndObjects(outbox: Outbox, outbox': Outbox, index: Index, objects: Objects)
    requires Extends(outbox, outbox') && IndexOk(outbox, index) && ObjectsOk(outbox, objects)
    ensures IndexOk(outbox', index) && ObjectsOk(outbox', objects)
  {
    ExtendsKeepsAppended(outbox, outbox');
    forall r | r in index ensures RowOk(outbox', r) {
      assert RowOk(outbox, r);
    }
    forall key | key in objects ensures ObjectOk(outbox', key, objects[key]) {
      assert ObjectOk(outbox, key, objects[key]);
    }
  }

  lemma IndexedKeepsIndexOk(outbox: Outbox, index: Index, e: Envelope)
    requires IndexOk(outbox, index) && Appended(outbox, e)
    ensures IndexOk(outbox, Indexed(index, RowOf(e)))
  {
    var index' := Indexed(index, RowOf(e));
    if !HasId(index, e.eventId) {
      assert RowOk(outbox, RowOf(e));
      forall i, j | 0 <= i < j < |index'| ensures RowId(index'[i]) != RowId(index'[j]) {
        assert index[i] in index;
      }
    }
  }

  lemma IndexedHasId(index: Index, row: IndexRow)
    ensures HasId(Indexed(index, row), row.eventId)
    ensures forall id :: HasId(index, id) ==> HasId(Indexed(index, row), id)
  {
    var index' := Indexed(index, row);
    assert index' == index || index'[|index|] == row;
    forall id | HasId(index, id) ensures HasId(index', id) {
      var r :| r in index && r.eventId == id;
      assert r in index';
    }
  }

  lemma {:induction false} EventKeysAreEventKeys(e: Envelope)
    ensures IsEventKey(KeyOfEvent(e))
  {
    var rest := e.aggregateType + "/" + EventKeys.DateText(EventKeys.Decompose(e.occurredAt)) + e.eventId + ".json";
    assert KeyOfEvent(e) == "memory/events/" + rest;
  }

  lemma StepExtends(s: State, step: Step)
    requires Enabled(s, step)
    ensures Extends(s.outbox, Apply(s, step).outbox)
  {}

  lemma StepKeepsOutboxOk(s: State, step: Step)
    requires OutboxOk(s.outbox) && Enabled(s, step)
    ensures OutboxOk(Apply(s, step).outbox)
  {}

  lemma StepKeepsIndexOk(s: State, step: Step)
    requires Inv(s) && Enabled(s, step)
    ensures IndexOk(Apply(s, step).outbox, Apply(s, step).index)
  {
    var t := Apply(s, step);
    StepExtends(s, step);
    ExtendsKeepsIndexAndObjects(s.outbox, t.outbox, s.index, s.objects);
    match step {
      case FinishAppend(c) => IndexedKeepsIndexOk(s.outbox, s.index, s.appends[c]);
      case WorkerIndex(i) =>
        assert EntryOk(s.outbox[i]);
        IndexedKeepsIndexOk(s.outbox, s.index, s.outbox[i].payload.event);
      case _ =>
    }
  }

  lemma StepKeepsObjectsOk(s: State, step: Step)
    requires Inv(s) && Enabled(s, step)
    ensures ObjectsOk(Apply(s, step).outbox, Apply(s, step).objects)
  {
    var t := Apply(s, step);
    StepExtends(s, step);
    ExtendsKeepsIndexAndObjects(s.outbox, t.outbox, s.index, s.objects);
    if step.WorkerWrite? {
      assert EntryOk(s.outbox[step.entry]);
      assert ObjectOk(s.outbox, s.outbox[step.entry].objectKey, s.outbox[step.entry].payload);
    }
  }

  lemma StepKeepsAppendsOk(s: State, step: Step)
    requires AppendsOk(s) && Enabled(s, step)
    ensures AppendsOk(Apply(s, step))
  {
    var t := Apply(s, step);
    StepExtends(s, step);
    ExtendsKeepsAppended(s.outbox, t.outbox);
    if step.BeginAppend? {
      assert t.outbox[|s.outbox|].payload == OfEvent(step.event);
    }
  }

  lemma StepKeepsCompletedOk(s: State, step: Step)
    requires CompletedOk(s) && Enabled(s, step)
    ensures CompletedOk(Apply(s, step))
  {
    match step {
      case FinishAppend(c) => IndexedHasId(s.index, RowOf(s.appends[c]));
      case WorkerIndex(i) =>
        IndexedHasId(s.index, RowAt(s.outbox[i].payload.event, s.outbox[i].objectKey));
      case _ =>
    }
  }

  lemma StepKeepsWrittenOk(s: State, step: Step)
    requires OutboxOk(s.outbox) && WrittenOk(s) && Enabled(s, step)
    ensures WrittenOk(Apply(s, step))
  {}

  lemma StepKeepsInv(s: State, step: Step)
    requires Inv(s) && Enabled(s, step)
    ensures Inv(Apply(s, step))
  {
    StepKeepsOutboxOk(s, step);
    StepKeepsIndexOk(s, step);
    StepKeepsObjectsOk(s, step);
    StepKeepsWrittenOk(s, step);
    StepKeepsAppendsOk(s, step);
    StepKeepsCompletedOk(s, step);
  }

  /**
   In every run of appends, worker steps, failures and crashes: an index row has an outbox entry
   with its key and payload, an event object is the payload of an append, an archived entry has
   its object, a finished append is indexed, and no entry is ever marked failed.
  */
  lemma {:induction false} RunKeepsInv(s: State, run: seq<Step>)
    requires Inv(s) && Legal(s, run)
    ensures Inv(End(s, run))
    decreases |run|
  {
    if run != [] {
      StepKeepsInv(s, run[0]);
      RunKeepsInv(Apply(s, run[0]), run[1..]);
    }
  }

  // ----- loading

  function RowTime(r: IndexRow): real {
    r.occurredAt as real
  }

  function EventTime(e: Envelope): real {
    e.occurredAt as real
  }

  function RowsOf(index: Index, aggregateType: string, aggregateId: string): Index {
    if index == [] then []
    else RowsOf(index[..|index| - 1], aggregateType, aggregateId)
         + (if index[|index| - 1].aggregateType == aggregateType && index[|index| - 1].aggregateId == aggregateId
            then [index[|index| - 1]] else [])
  }

  /** All rows of an aggregate, in an order that `ORDER BY occurred_at DESC` allows. */
  ghost predicate Ordered(all: Index, index: Index, aggregateType: string, aggregateId: string) {
    multiset(all) == multiset(RowsOf(index, aggregateType, aggregateId)) && StableSort.Descending(all, RowTime)
  }

  function Min(a: nat, b: nat): nat {
    if a <= b then a else b
  }

  /** What the store may answer to `find_event_keys`. */
  ghost predicate IsKeysAnswer(rows: Index, index: Index, aggregateType: string, aggregateId: string, limit: nat) {
    exists all :: Ordered(all, index, aggregateType, aggregateId) && rows == all[..Min(limit, |all|)]
  }

  /** A stored object as a load sees it; None is a miss, a failed read or a text that does not decode. */
  function Fetched(objects: Objects, key: string, readable: bool): Option<Envelope> {
    if readable && key in objects && objects[key].OfEvent? then Some(objects[key].event) else None
  }

  function FetchAll(rows: Index, objects: Objects, readable: seq<bool>): seq<Envelope>
    requires |readable| == |rows|
  {
    if rows == [] then []
    else
      var k := |rows| - 1;
      var e := Fetched(objects, rows[k].objectKey, readable[k]);
      FetchAll(rows[..k], objects, readable[..k]) + (if e.Some? then [e.value] else [])
  }

  /** The outcome of a load: what was fetched, sorted and cut. */
  function Loaded(rows: Index, objects: Objects, readable: seq<bool>, limit: nat): seq<Envelope>
    requires |readable| == |rows|
  {
    var es := StableSort.Sort(FetchAll(rows, objects, readable), EventTime);
    es[..Min(limit, |es|)]
  }

  /** How many reads of objects failed. */
  function Unread(readable: seq<bool>): nat {
    if readable == [] then 0 else Unread(readable[..|readable| - 1]) + if readable[|readable| - 1] then 0 else 1
  }

  lemma {:induction false} NoneUnreadIff(readable: seq<bool>)
    ensures Unread(readable) == 0 <==> AllRead(readable)
  {
    if readable != [] {
      NoneUnreadIff(readable[..|readable| - 1]);
    }
  }

  /** No read of an object failed. */
  predicate AllRead(readable: seq<bool>) {
    forall i :: 0 <= i < |readable| ==> readable[i]
  }

  /** A load: the rows the index answered, and which of their objects could be read. */
  ghost predicate IsLoad(
    es: seq<Envelope>, rows: Index, readable: seq<bool>, index: Index, objects: Objects,
    aggregateType: string, aggregateId: string, limit: nat)
  {
    && IsKeysAnswer(rows, index, aggregateType, aggregateId, limit)
    && |readable| == |rows| && es == Loaded(rows, objects, readable, limit)
  }

  lemma {:induction false} FetchAllIsShort(rows: Index, objects: Objects, readable: seq<bool>)
    requires |readable| == |rows|
    ensures |FetchAll(rows, objects, readable)| <= |rows|
  {
    if rows != [] {
      FetchAllIsShort(rows[..|rows| - 1], objects, readable[..|rows| - 1]);
    }
  }

  class EventBackend {
    var outbox: Outbox
    var index: Index
    var objects: Objects
    /** The history that the step system keeps beside the stores. */
    ghost var appends: map<nat, Envelope>
    ghost var written: set<nat>
    ghost var completed: set<Envelope>
    /** The failed calls of the stores, of those made here and of those of the worker. */
    ghost var failures: nat

    ghost function View(): State
      reads this
    {
      State(outbox, index, objects, appends, written, completed)
    }

    /**
     Outbox first, then the index. A failure leaves the index alone and the outbox with or without
     the entry. For an event with a slash-free id the call is a run of the step system.
    */
    method AppendEvent(e: Envelope) returns (r: Result<string, string>, ghost run: seq<Step>)
      requires Decimal.IsI64(e.occurredAt)
      modifies this`outbox, this`index, this`completed, this`failures
      ensures failures == old(failures) + if r.Failure? then 1 else 0
      ensures r.Success? ==>
                && r.value == e.eventId && outbox == old(outbox) + [EntryOf(e)]
                && index == Indexed(old(index), RowOf(e))
      ensures r.Failure? ==> index == old(index) && (outbox == old(outbox) || outbox == old(outbox) + [EntryOf(e)])
      ensures var key := EventKeys.EventKey(e.aggregateType, e.occurredAt, e.eventId);
              && EntryOf(e) == OutboxEntry("event:" + e.aggregateType, key, OfEvent(e), Pending, 0)
              && RowOf(e) == IndexRow(e.eventId, e.aggregateType, e.aggregateId, e.eventType, key, e.occurredAt)
      ensures r.Success? ==>
                index == old(index)
                         + if exists row :: row in old(index) && row.eventId == e.eventId then [] else [RowOf(e)]
      ensures ValidEvent(e) ==> Legal(old(View()), run) && View() == End(old(View()), run)
      ensures r.Success? ==> exists c :: run == [BeginAppend(c, e)] + [FinishAppend(c)]
    {
      run := [];
      ghost var c := FreshClient(appends);
      var key := EventKeys.Event(e.aggregateType, e.occurredAt, e.eventId);
      var failed: bool := *;
      if failed {
        failures := failures + 1;
        return Failure("insert_outbox"), run;
      }
      if ValidEvent(e) {
        AppendRuns(old(View()), c, e);
      }
      outbox := outbox + [OutboxEntry("event:" + e.aggregateType, key, OfEvent(e), Pending, 0)];
      failed := *;
      if failed {
        run := [BeginAppend(c, e)] + [Stop(c)];
        failures := failures + 1;
        return Failure("insert_event_index"), run;
      }
      index := Indexed(index, RowAt(e, key));
      completed := completed + {e};
      run := [BeginAppend(c, e)] + [FinishAppend(c)];
      return Success(e.eventId), run;
    }

    method FindEventKeys(aggregateType: string, aggregateId: string, limit: nat) returns (r: Result<Index, string>)
      modifies this`failures
      ensures failures == old(failures) + if r.Failure? then 1 else 0
      ensures r.Success? ==> IsKeysAnswer(r.value, index, aggregateType, aggregateId, limit)
    {
      var failed: bool := *;
      if failed {
        failures := failures + 1;
        return Failure("find_event_keys");
      }
      var all: Index := [];
      for i := 0 to |index|
        invariant failures == old(failures) && Ordered(all, index[..i], aggregateType, aggregateId)
      {
        assert index[..i + 1][..i] == index[..i];
        if index[i].aggregateType == aggregateType && index[i].aggregateId == aggregateId {
          StableSort.PlacePermutes(index[i], all, RowTime);
          StableSort.PlaceKeepsOrder(index[i], all, RowTime);
          all := StableSort.Place(index[i], all, RowTime);
        }
      }
      assert index[..|index|] == index;
      return Success(all[..Min(limit, |all|)]);
    }

    /** The objects of the rows, one read each; misses, failed reads and undecodable objects are skipped. */
    method FetchEach(rows: Index) returns (events: seq<Envelope>, ghost readable: seq<bool>)
      modifies this`failures
      ensures |readable| == |rows| && events == FetchAll(rows, objects, readable)
      ensures failures == old(failures) + Unread(readable)
    {
      events, readable := [], [];
      for i := 0 to |rows|
        invariant failures == old(failures) + Unread(readable)
        invariant |readable| == i && events == FetchAll(rows[..i], objects, readable)
      {
        var ok: bool := *;
        if !ok {
          failures := failures + 1;
        }
        var row := rows[i];
        assert rows[..i + 1][..i] == rows[..i] && (readable + [ok])[..i] == readable;
        readable := readable + [ok];
        if ok && row.objectKey in objects && objects[row.objectKey].OfEvent? {
          events := events + [objects[row.objectKey].event];
        }
      }
      assert rows[..|rows|] == rows;
    }

    /** Index rows, then their objects, then the sort and the cut. */
    method LoadEvents(aggregateType: string, aggregateId: string, limit: nat) returns (r: Result<seq<Envelope>, string>)
      modifies this`failures
      ensures r.Failure? ==> failures == old(failures) + 1
      ensures r.Success? ==> exists rows, readable ::
                && IsLoad(r.value, rows, readable, index, objects, aggregateType, aggregateId, limit)
                && failures == old(failures) + Unread(readable)
    {
      var found := FindEventKeys(aggregateType, aggregateId, limit);
      if found.Failure? {
        return Failure(found.error);
      }
      if |found.value| == 0 {
        assert IsLoad([], found.value, [], index, objects, aggregateType, aggregateId, limit);
        return Success([]);
      }
      var events;
      ghost var readable;
      events, readable := FetchEach(found.value);
      events := StableSort.Sort(events, EventTime);
      r := Success(events[..Min(limit, |events|)]);
      assert IsLoad(r.value, found.value, readable, index, objects, aggregateType, aggregateId, limit);
    }
  }

  // ----- what a load returns

  /** A key of a slash-free id names its event's type, date and id, whatever the types hold. */
  lemma KeysNameEvents(e: Envelope, f: Envelope)
    requires ValidEvent(e) && ValidEvent(f) && KeyOfEvent(e) == KeyOfEvent(f)
    ensures e.eventId == f.eventId && e.aggregateType == f.aggregateType
    ensures EventKeys.Decompose(e.occurredAt) == EventKeys.Decompose(f.occurredAt)
  {
    EventKeys.SlashFreeIdsMakeKeysInjective(
      e.aggregateType, e.occurredAt, e.eventId, f.aggregateType, f.occurredAt, f.eventId);
  }

  /** What a row leads to: an appended event with the id of the row. */
  lemma FetchedMatchesRow(s: State, r: IndexRow, readable: bool)
    requires Inv(s) && r in s.index
    ensures var e := Fetched(s.objects, r.objectKey, readable);
            e.Some? ==>
              && Appended(s.outbox, e.value) && KeyOfEvent(e.value) == r.objectKey
              && e.value.eventId == r.eventId && e.value.aggregateType == r.aggregateType
  {
    var e := Fetched(s.objects, r.objectKey, readable);
    if e.Some? {
      assert RowOk(s.outbox, r) && ObjectOk(s.outbox, r.objectKey, s.objects[r.objectKey]);
      var f :| Appended(s.outbox, f) && RowOf(f) == r;
      EventKeysAreEventKeys(f);
      AppendedAreValid(s.outbox, e.value);
      AppendedAreValid(s.outbox, f);
      KeysNameEvents(e.value, f);
    }
  }

  lemma AppendedAreValid(outbox: Outbox, e: Envelope)
    requires OutboxOk(outbox) && Appended(outbox, e)
    ensures ValidEvent(e)
  {
    var i :| 0 <= i < |outbox| && outbox[i].payload == OfEvent(e);
    assert EntryOk(outbox[i]);
  }

  ghost predicate UniqueIds(outbox: Outbox) {
    forall e, f :: Appended(outbox, e) && Appended(outbox, f) && e.eventId == f.eventId ==> e == f
  }

  /** With unique ids the row leads to its own event. */
  lemma FetchedIsTheRowsEvent(s: State, r: IndexRow, readable: bool)
    requires Inv(s) && UniqueIds(s.outbox) && r in s.index
    ensures var e := Fetched(s.objects, r.objectKey, readable);
            e.Some? ==> Appended(s.outbox, e.value) && RowOf(e.value) == r
  {
    FetchedMatchesRow(s, r, readable);
    assert RowOk(s.outbox, r);
  }

  // ----- no id twice

  function EventIdOf(e: Envelope): string {
    e.eventId
  }

  lemma {:induction false} DistinctOccurOnce<T>(l: seq<T>, id: T -> string, x: T)
    requires DistinctIds(l, id)
    ensures multiset(l)[x] <= 1
  {
    if l != [] {
      var k := |l| - 1;
      DistinctOccurOnce(l[..k], id, x);
      assert l == l[..k] + [l[k]];
    }
  }

  lemma DistinctPermutation<T>(l: seq<T>, m: seq<T>, id: T -> string)
    requires DistinctIds(m, id) && multiset(l) == multiset(m)
    ensures DistinctIds(l, id)
  {
    forall i, j | 0 <= i < j < |l| ensures id(l[i]) != id(l[j]) {
      DistinctOccurOnce(m, id, l[i]);
      assert l == l[..j] + [l[j]] + l[j + 1..];
      assert l[i] in l[..j] && l[j] in multiset(m) && l[i] in multiset(m);
      assert l[i] != l[j];
    }
  }

  lemma {:induction false} RowsOfAreIndexRows(index: Index, aggregateType: string, aggregateId: string)
    ensures forall r :: r in RowsOf(index, aggregateType, aggregateId)
                   <==> r in index && r.aggregateType == aggregateType && r.aggregateId == aggregateId
  {
    if index != [] {
      var k := |index| - 1;
      RowsOfAreIndexRows(index[..k], aggregateType, aggregateId);
      assert index == index[..k] + [index[k]];
    }
  }

  lemma {:induction false} RowsOfAreDistinct(index: Index, aggregateType: string, aggregateId: string)
    requires DistinctIds(index, RowId)
    ensures DistinctIds(RowsOf(index, aggregateType, aggregateId), RowId)
  {
    if index != [] {
      var k := |index| - 1;
      var before := RowsOf(index[..k], aggregateType, aggregateId);
      RowsOfAreDistinct(index[..k], aggregateType, aggregateId);
      RowsOfAreIndexRows(index[..k], aggregateType, aggregateId);
      forall j | 0 <= j < |before| ensures RowId(before[j]) != RowId(index[k]) {
        assert before[j] in before;
        var i :| 0 <= i < k && index[..k][i] == before[j];
        assert RowId(index[i]) != RowId(index[k]);
      }
    }
  }

  lemma OrderedRows(all: Index, index: Index, aggregateType: string, aggregateId: string)
    requires DistinctIds(index, RowId) && Ordered(all, index, aggregateType, aggregateId)
    ensures DistinctIds(all, RowId)
    ensures forall r :: r in all <==> r in index && r.aggregateType == aggregateType && r.aggregateId == aggregateId
  {
    RowsOfAreIndexRows(index, aggregateType, aggregateId);
    RowsOfAreDistinct(index, aggregateType, aggregateId);
    DistinctPermutation(all, RowsOf(index, aggregateType, aggregateId), RowId);
    assert forall r :: r in all <==> r in multiset(all);
  }

  /** The rows of an answer: index rows of the aggregate, newest first, no id twice. */
  lemma AnswerRows(index: Index, rows: Index, aggregateType: string, aggregateId: string, limit: nat)
    requires DistinctIds(index, RowId) && IsKeysAnswer(rows, index, aggregateType, aggregateId, limit)
    ensures DistinctIds(rows, RowId) && StableSort.Descending(rows, RowTime) && |rows| <= limit
    ensures forall r :: r in rows ==> r in index && r.aggregateType == aggregateType && r.aggregateId == aggregateId
  {
    var all :| Ordered(all, index, aggregateType, aggregateId) && rows == all[..Min(limit, |all|)];
    OrderedRows(all, index, aggregateType, aggregateId);
    assert forall r :: r in rows ==> r in all;
  }

  lemma {:induction false} FetchAllIsSound(s: State, rows: Index, readable: seq<bool>)
    requires Inv(s) && |readable| == |rows| && forall r :: r in rows ==> r in s.index
    ensures forall e :: e in FetchAll(rows, s.objects, readable) ==>
                          Appended(s.outbox, e) && exists r :: r in rows && r.eventId == e.eventId
  {
    if rows != [] {
      var k := |rows| - 1;
      FetchAllIsSound(s, rows[..k], readable[..k]);
      FetchedMatchesRow(s, rows[k], readable[k]);
      assert Fetched(s.objects, rows[k].objectKey, readable[k]).Some? ==> rows[k] in rows;
    }
  }

  lemma DistinctWithLast(es: seq<Envelope>, e: Envelope)
    requires DistinctIds(es, EventIdOf) && forall x :: x in es ==> x.eventId != e.eventId
    ensures DistinctIds(es + [e], EventIdOf)
  {
    forall i | 0 <= i < |es| ensures EventIdOf(es[i]) != EventIdOf(e) {
      assert es[i] in es;
    }
  }

  lemma EarlierRowsHaveOtherIds(rows: Index, r: IndexRow)
    requires rows != [] && DistinctIds(rows, RowId) && r in rows[..|rows| - 1]
    ensures r.eventId != rows[|rows| - 1].eventId
  {
    var i :| 0 <= i < |rows| - 1 && rows[i] == r;
    assert RowId(rows[i]) != RowId(rows[|rows| - 1]);
  }

  lemma {:induction false} FetchAllIsDistinct(s: State, rows: Index, readable: seq<bool>)
    requires Inv(s) && |readable| == |rows| && DistinctIds(rows, RowId) && forall r :: r in rows ==> r in s.index
    ensures DistinctIds(FetchAll(rows, s.objects, readable), EventIdOf)
  {
    if rows != [] {
      var k := |rows| - 1;
      var es := FetchAll(rows[..k], s.objects, readable[..k]);
      FetchAllIsDistinct(s, rows[..k], readable[..k]);
      var e := Fetched(s.objects, rows[k].objectKey, readable[k]);
      if e.Some? {
        FetchedMatchesRow(s, rows[k], readable[k]);
        forall x | x in es ensures x.eventId != e.value.eventId {
          FetchAllIsSound(s, rows[..k], readable[..k]);
          var r :| r in rows[..k] && r.eventId == x.eventId;
          EarlierRowsHaveOtherIds(rows, r);
        }
        DistinctWithLast(es, e.value);
      }
    }
  }

  /**
   In every reachable state a load returns appended events only, at most `limit` of them, newest
   first, and no event id twice. So of two events with one id (two events of one aggregate in one
   second) no load ever returns both.
  */
  lemma LoadsAreSound(
    s: State, rows: Index, readable: seq<bool>, aggregateType: string, aggregateId: string, limit: nat)
    requires Inv(s) && IsKeysAnswer(rows, s.index, aggregateType, aggregateId, limit) && |readable| == |rows|
    ensures var es := Loaded(rows, s.objects, readable, limit);
            && (forall e :: e in es ==> Appended(s.outbox, e))
            && |es| <= limit && DistinctIds(es, EventIdOf)
            && (forall i, j :: 0 <= i < j < |es| ==> es[i].occurredAt >= es[j].occurredAt)
  {
    AnswerRows(s.index, rows, aggregateType, aggregateId, limit);
    FetchAllIsSound(s, rows, readable);
    FetchAllIsDistinct(s, rows, readable);
    LoadedIsSorted(rows, s.objects, readable, limit);
  }

  lemma SortedEventsDescend(l: seq<Envelope>)
    requires StableSort.Descending(l, EventTime)
    ensures forall i, j :: 0 <= i < j < |l| ==> l[i].occurredAt >= l[j].occurredAt
  {
    assert forall i, j :: 0 <= i < j < |l| ==> EventTime(l[i]) >= EventTime(l[j]);
  }

  lemma LoadedIsSorted(rows: Index, objects: Objects, readable: seq<bool>, limit: nat)
    requires |readable| == |rows| && DistinctIds(FetchAll(rows, objects, readable), EventIdOf)
    ensures var es := Loaded(rows, objects, readable, limit);
            && |es| <= limit && DistinctIds(es, EventIdOf)
            && (forall i, j :: 0 <= i < j < |es| ==> es[i].occurredAt >= es[j].occurredAt)
            && forall e :: e in es ==> e in FetchAll(rows, objects, readable)
  {
    var fetched := FetchAll(rows, objects, readable);
    var sorted := StableSort.Sort(fetched, EventTime);
    StableSort.SortIsASort(fetched, EventTime);
    DistinctPermutation(sorted, fetched, EventIdOf);
    SortedEventsDescend(sorted);
    forall e | e in Loaded(rows, objects, readable, limit) ensures e in fetched {
      assert e in sorted;
      assert e in multiset(sorted);
    }
  }

  /** The log's own ids: two events of one aggregate and second are never both loaded. */
  lemma SameSecondIsNotLoadedTwice(
    s: State, rows: Index, readable: seq<bool>, aggregateType: string, aggregateId: string, limit: nat,
    e: Envelope, f: Envelope, id: EventIds.Bytes)
    requires Inv(s) && IsKeysAnswer(rows, s.index, aggregateType, aggregateId, limit) && |readable| == |rows|
    requires e.eventId == EventIds.EventIdFor(id, e.occurredAt) && f.eventId == EventIds.EventIdFor(id, f.occurredAt)
    requires e.occurredAt == f.occurredAt
    requires e in Loaded(rows, s.objects, readable, limit) && f in Loaded(rows, s.objects, readable, limit)
    ensures e == f
  {
    LoadsAreSound(s, rows, readable, aggregateType, aggregateId, limit);
    var es := Loaded(rows, s.objects, readable, limit);
    var i :| 0 <= i < |es| && es[i] == e;
    var j :| 0 <= j < |es| && es[j] == f;
    assert EventIdOf(es[i]) == EventIdOf(es[j]);
    assert i == j;
  }

  // ----- exact loads

  lemma {:induction false} FetchAllIsTheRows(s: State, rows: Index, readable: seq<bool>)
    requires Inv(s) && UniqueIds(s.outbox) && |readable| == |rows| && forall r :: r in rows ==> r in s.index
    ensures forall e :: e in FetchAll(rows, s.objects, readable) ==> RowOf(e) in rows && Appended(s.outbox, e)
  {
    if rows != [] {
      var k := |rows| - 1;
      FetchAllIsTheRows(s, rows[..k], readable[..k]);
      FetchedIsTheRowsEvent(s, rows[k], readable[k]);
    }
  }

  /** What the row leads to has the time of the row. */
  predicate TimeMatches(objects: Objects, r: IndexRow) {
    var e := Fetched(objects, r.objectKey, true);
    e.Some? ==> e.value.occurredAt == r.occurredAt
  }

  lemma {:induction false} FetchAllFromTime(rows: Index, objects: Objects, readable: seq<bool>, t: real)
    requires |readable| == |rows|
    requires forall i :: 0 <= i < |rows| ==> TimeMatches(objects, rows[i]) && RowTime(rows[i]) >= t
    ensures forall e :: e in FetchAll(rows, objects, readable) ==> EventTime(e) >= t
  {
    if rows != [] {
      var k := |rows| - 1;
      FetchAllFromTime(rows[..k], objects, readable[..k], t);
      assert TimeMatches(objects, rows[k]);
    }
  }

  lemma {:induction false} FetchAllDescends(rows: Index, objects: Objects, readable: seq<bool>)
    requires |readable| == |rows| && StableSort.Descending(rows, RowTime)
    requires forall i :: 0 <= i < |rows| ==> TimeMatches(objects, rows[i])
    ensures StableSort.Descending(FetchAll(rows, objects, readable), EventTime)
  {
    if rows != [] {
      var k := |rows| - 1;
      FetchAllDescends(rows[..k], objects, readable[..k]);
      FetchAllFromTime(rows[..k], objects, readable[..k], RowTime(rows[k]));
      assert TimeMatches(objects, rows[k]);
      var es := FetchAll(rows[..k], objects, readable[..k]);
      assert forall i :: 0 <= i < |es| ==> es[i] in es;
    }
  }

  /** Rows that lead to their own times leave the sort and the cut nothing to do. */
  lemma LoadedIsFetched(rows: Index, objects: Objects, readable: seq<bool>, limit: nat)
    requires |readable| == |rows| <= limit && StableSort.Descending(rows, RowTime)
    requires forall i :: 0 <= i < |rows| ==> TimeMatches(objects, rows[i])
    ensures Loaded(rows, objects, readable, limit) == FetchAll(rows, objects, readable)
  {
    FetchAllDescends(rows, objects, readable);
    FetchAllIsShort(rows, objects, readable);
    StableSort.SortOfSorted(FetchAll(rows, objects, readable), EventTime);
  }

  lemma RowsMatchTimes(s: State, rows: Index)
    requires Inv(s) && UniqueIds(s.outbox) && forall r :: r in rows ==> r in s.index
    ensures forall i :: 0 <= i < |rows| ==> TimeMatches(s.objects, rows[i])
  {
    forall i | 0 <= i < |rows| ensures TimeMatches(s.objects, rows[i]) {
      FetchedIsTheRowsEvent(s, rows[i], true);
    }
  }

  /**
   With unique ids a load returns, in the order of the index rows, the appended events of the
   asked aggregate whose objects could be read; the sort moves nothing and the cut drops nothing.
  */
  lemma LoadsKeepIndexOrder(
    s: State, rows: Index, readable: seq<bool>, aggregateType: string, aggregateId: string, limit: nat)
    requires Inv(s) && UniqueIds(s.outbox)
    requires IsKeysAnswer(rows, s.index, aggregateType, aggregateId, limit) && |readable| == |rows|
    ensures var es := Loaded(rows, s.objects, readable, limit);
            && es == FetchAll(rows, s.objects, readable)
            && forall e :: e in es ==>
                 Appended(s.outbox, e) && e.aggregateType == aggregateType && e.aggregateId == aggregateId
  {
    AnswerRows(s.index, rows, aggregateType, aggregateId, limit);
    FetchAllIsTheRows(s, rows, readable);
    RowsMatchTimes(s, rows);
    LoadedIsFetched(rows, s.objects, readable, limit);
  }

  /** The worker has caught up: every event entry is archived, and every object can be read. */
  predicate CaughtUp(s: State) {
    forall i :: 0 <= i < |s.outbox| && s.outbox[i].payload.OfEvent? ==> s.outbox[i].status == Archived
  }

  /** The object of the row is there and is the event of the row. */
  ghost predicate LeadsToItsEvent(objects: Objects, r: IndexRow) {
    var e := Fetched(objects, r.objectKey, true);
    e.Some? && RowOf(e.value) == r
  }

  lemma CaughtUpRowLeadsToItsEvent(s: State, r: IndexRow)
    requires Inv(s) && UniqueIds(s.outbox) && CaughtUp(s) && r in s.index
    ensures LeadsToItsEvent(s.objects, r)
  {
    assert RowOk(s.outbox, r);
    var e :| Appended(s.outbox, e) && RowOf(e) == r;
    var i :| 0 <= i < |s.outbox| && s.outbox[i].payload == OfEvent(e);
    assert EntryOk(s.outbox[i]) && s.outbox[i].status == Archived && i in s.written;
    EventKeysAreEventKeys(e);
    assert ObjectOk(s.outbox, r.objectKey, s.objects[r.objectKey]);
    FetchedIsTheRowsEvent(s, r, true);
  }

  lemma {:induction false} AllRowsAreFetched(rows: Index, objects: Objects, readable: seq<bool>, es: seq<Envelope>)
    requires |readable| == |rows| == |es|
    requires forall i :: 0 <= i < |rows| ==> Fetched(objects, rows[i].objectKey, readable[i]) == Some(es[i])
    ensures FetchAll(rows, objects, readable) == es
  {
    if rows != [] {
      var k := |rows| - 1;
      AllRowsAreFetched(rows[..k], objects, readable[..k], es[..k]);
      assert es == es[..k] + [es[k]];
    }
  }

  lemma LeadingRowsAreFetched(rows: Index, objects: Objects, readable: seq<bool>)
    requires |readable| == |rows| && AllRead(readable)
    requires forall i :: 0 <= i < |rows| ==> LeadsToItsEvent(objects, rows[i])
    ensures var es := FetchAll(rows, objects, readable);
            |es| == |rows| && forall i :: 0 <= i < |es| ==> RowOf(es[i]) == rows[i]
  {
    var es := seq(|rows|, i requires 0 <= i < |rows| && LeadsToItsEvent(objects, rows[i]) =>
                            Fetched(objects, rows[i].objectKey, true).value);
    AllRowsAreFetched(rows, objects, readable, es);
  }

  /** The row is one of those whose objects could be read. */
  predicate IsRead(r: IndexRow, rows: Index, readable: seq<bool>)
    requires |readable| == |rows|
  {
    exists i :: 0 <= i < |rows| && readable[i] && rows[i] == r
  }

  ghost predicate Gave(es: seq<Envelope>, r: IndexRow) {
    exists e :: e in es && RowOf(e) == r
  }

  lemma ReadWithLast(r: IndexRow, rows: Index, readable: seq<bool>)
    requires rows != [] && |readable| == |rows|
    ensures IsRead(r, rows, readable)
       <==> IsRead(r, rows[..|rows| - 1], readable[..|rows| - 1]) || (readable[|rows| - 1] && rows[|rows| - 1] == r)
  {
    var k := |rows| - 1;
    if i :| 0 <= i < k && readable[..k][i] && rows[..k][i] == r {
      assert readable[i] && rows[i] == r;
    }
    if i :| 0 <= i < |rows| && readable[i] && rows[i] == r {
      assert i < k ==> readable[..k][i] && rows[..k][i] == r;
    }
  }

  lemma GaveOfConcat(es: seq<Envelope>, more: seq<Envelope>, r: IndexRow)
    ensures Gave(es + more, r) <==> Gave(es, r) || Gave(more, r)
  {
    if e :| e in es + more && RowOf(e) == r {
      assert e in es || e in more;
    }
    if e :| e in es && RowOf(e) == r {
      assert e in es + more;
    }
    if e :| e in more && RowOf(e) == r {
      assert e in es + more;
    }
  }

  /** Rows that lead to their events give the events of those that could be read. */
  lemma {:induction false} LeadingRowsGive(rows: Index, objects: Objects, readable: seq<bool>, r: IndexRow)
    requires |readable| == |rows| && forall i :: 0 <= i < |rows| ==> LeadsToItsEvent(objects, rows[i])
    ensures |FetchAll(rows, objects, readable)| + Unread(readable) == |rows|
    ensures Gave(FetchAll(rows, objects, readable), r) <==> IsRead(r, rows, readable)
  {
    if rows != [] {
      var k := |rows| - 1;
      LeadingRowsGive(rows[..k], objects, readable[..k], r);
      var e := Fetched(objects, rows[k].objectKey, readable[k]);
      assert LeadsToItsEvent(objects, rows[k]);
      var more := if e.Some? then [e.value] else [];
      GaveOfConcat(FetchAll(rows[..k], objects, readable[..k]), more, r);
      ReadWithLast(r, rows, readable);
      assert e.Some? ==> e.value in more;
    }
  }

  lemma CaughtUpRowsLead(s: State, rows: Index, aggregateType: string, aggregateId: string, limit: nat)
    requires Inv(s) && UniqueIds(s.outbox) && CaughtUp(s)
    requires IsKeysAnswer(rows, s.index, aggregateType, aggregateId, limit)
    ensures forall i :: 0 <= i < |rows| ==> LeadsToItsEvent(s.objects, rows[i])
  {
    AnswerRows(s.index, rows, aggregateType, aggregateId, limit);
    forall i | 0 <= i < |rows| ensures LeadsToItsEvent(s.objects, rows[i]) {
      CaughtUpRowLeadsToItsEvent(s, rows[i]);
    }
  }

  /** Once the worker has caught up, each failed read costs a load the event of its row and no other. */
  lemma FailedReadsCostTheirEvents(
    s: State, rows: Index, readable: seq<bool>, aggregateType: string, aggregateId: string, limit: nat, r: IndexRow)
    requires Inv(s) && UniqueIds(s.outbox) && CaughtUp(s)
    requires IsKeysAnswer(rows, s.index, aggregateType, aggregateId, limit) && |readable| == |rows|
    ensures |Loaded(rows, s.objects, readable, limit)| == |rows| - Unread(readable)
    ensures Gave(Loaded(rows, s.objects, readable, limit), r) <==> IsRead(r, rows, readable)
  {
    LoadsKeepIndexOrder(s, rows, readable, aggregateType, aggregateId, limit);
    CaughtUpRowsLead(s, rows, aggregateType, aggregateId, limit);
    LeadingRowsGive(rows, s.objects, readable, r);
  }

  /** Once the worker has caught up, a load returns one event a row of the answer, in its order. */
  lemma LoadsFollowTheIndex(
    s: State, rows: Index, readable: seq<bool>, aggregateType: string, aggregateId: string, limit: nat)
    requires Inv(s) && UniqueIds(s.outbox) && CaughtUp(s)
    requires IsKeysAnswer(rows, s.index, aggregateType, aggregateId, limit) && |readable| == |rows|
    requires AllRead(readable)
    ensures var es := Loaded(rows, s.objects, readable, limit);
            |es| == |rows| && forall i :: 0 <= i < |es| ==> RowOf(es[i]) == rows[i]
  {
    LoadsKeepIndexOrder(s, rows, readable, aggregateType, aggregateId, limit);
    CaughtUpRowsLead(s, rows, aggregateType, aggregateId, limit);
    LeadingRowsAreFetched(rows, s.objects, readable);
  }

  /**
   Every finished append of the aggregate is then among the loaded events, unless the limit is
   reached by events that are all at least as new.
  */
  lemma LoadsAreExact(
    s: State, rows: Index, readable: seq<bool>, aggregateType: string, aggregateId: string, limit: nat, e: Envelope)
    requires Inv(s) && UniqueIds(s.outbox) && CaughtUp(s)
    requires IsKeysAnswer(rows, s.index, aggregateType, aggregateId, limit) && |readable| == |rows|
    requires AllRead(readable)
    requires e in s.completed && e.aggregateType == aggregateType && e.aggregateId == aggregateId
    ensures var es := Loaded(rows, s.objects, readable, limit);
            e in es || (|es| == limit && forall d :: d in es ==> d.occurredAt >= e.occurredAt)
  {
    LoadsFollowTheIndex(s, rows, readable, aggregateType, aggregateId, limit);
    CompletedIsIndexed(s, e);
    AnswerIsTop(s.index, rows, aggregateType, aggregateId, limit, RowOf(e));
    var es := Loaded(rows, s.objects, readable, limit);
    if RowOf(e) in rows {
      var i :| 0 <= i < |rows| && rows[i] == RowOf(e);
      LoadsAreSound(s, rows, readable, aggregateType, aggregateId, limit);
      SameIdSameEvent(s.outbox, es[i], e);
    } else {
      RowTimesAreEventTimes(es, rows, e.occurredAt);
    }
  }

  lemma RowTimesAreEventTimes(es: seq<Envelope>, rows: Index, t: int)
    requires |es| == |rows| && forall i :: 0 <= i < |es| ==> RowOf(es[i]) == rows[i]
    requires forall q :: q in rows ==> q.occurredAt >= t
    ensures forall d :: d in es ==> d.occurredAt >= t
  {
    forall d | d in es ensures d.occurredAt >= t {
      var i :| 0 <= i < |es| && es[i] == d;
      assert rows[i] in rows;
    }
  }

  lemma SameIdSameEvent(outbox: Outbox, e: Envelope, f: Envelope)
    requires UniqueIds(outbox) && Appended(outbox, e) && Appended(outbox, f) && e.eventId == f.eventId
    ensures e == f
  {}

  /** A finished append has its own row when ids are unique. */
  lemma CompletedIsIndexed(s: State, e: Envelope)
    requires Inv(s) && UniqueIds(s.outbox) && e in s.completed
    ensures RowOf(e) in s.index && Appended(s.outbox, e)
  {
    var r :| r in s.index && r.eventId == e.eventId;
    assert RowOk(s.outbox, r);
    var f :| Appended(s.outbox, f) && RowOf(f) == r;
    assert f == e;
  }

  lemma AnswerIsTop(index: Index, rows: Index, aggregateType: string, aggregateId: string, limit: nat, r: IndexRow)
    requires IsKeysAnswer(rows, index, aggregateType, aggregateId, limit)
    requires r in index && r.aggregateType == aggregateType && r.aggregateId == aggregateId
    ensures r in rows || (|rows| == limit && forall q :: q in rows ==> q.occurredAt >= r.occurredAt)
  {
    var all :| Ordered(all, index, aggregateType, aggregateId) && rows == all[..Min(limit, |all|)];
    RowsOfAreIndexRows(index, aggregateType, aggregateId);
    assert r in multiset(all);
    var k :| 0 <= k < |all| && all[k] == r;
    if k >= |rows| {
      forall q | q in rows ensures q.occurredAt >= r.occurredAt {
        var i :| 0 <= i < |rows| && rows[i] == q;
        assert RowTime(all[i]) >= RowTime(all[k]);
      }
    } else {
      assert rows[k] == r;
    }
  }

  // ----- an archived event that no load finds

  /**
   An append that stops after its outbox insert leaves the index row to the worker, and the worker
   archives the entry even when its own index insert failed. The event is then archived, the
   worker has caught up, and no load returns the event.
  */
  lemma ArchivedButNeverIndexed(e: Envelope) returns (run: seq<Step>)
    requires ValidEvent(e)
    ensures var s := State([], [], map[], map[], {}, {});
            && Initial(s) && Legal(s, run)
            && Appended(End(s, run).outbox, e) && CaughtUp(End(s, run))
            && End(s, run).index == []
  {
    var s := State([], [], map[], map[], {}, {});
    var s1 := Apply(s, BeginAppend(0, e));
    var s2 := Apply(s1, Stop(0));
    var s3 := Apply(s2, WorkerWrite(0));
    OneMore(s3, WorkerMark(0), []);
    OneMore(s2, WorkerWrite(0), [WorkerMark(0)]);
    OneMore(s1, Stop(0), [WorkerWrite(0), WorkerMark(0)]);
    run := [BeginAppend(0, e)] + [Stop(0), WorkerWrite(0), WorkerMark(0)];
    OneMore(s, BeginAppend(0, e), [Stop(0), WorkerWrite(0), WorkerMark(0)]);
    var t := Apply(s3, WorkerMark(0));
    assert End(s, run) == t && t.outbox == [EntryOf(e).(status := Archived)];
    assert t.outbox[0].payload == OfEvent(e);
  }

  const START := State([], [], map[], map[], {}, {})

  /** An event without failures: append, then archive. */
  function LifeOf(e: Envelope): seq<Step> {
    [BeginAppend(0, e)] + [FinishAppend(0), WorkerWrite(0), WorkerMark(0)]
  }

  /** Where that leaves the stream. */
  ghost function LifeEnd(e: Envelope): State {
    State([EntryOf(e).(status := Archived)], [RowOf(e)], map[KeyOfEvent(e) := OfEvent(e)], map[], {0}, {e})
  }

  lemma LifeEndIsCaughtUp(e: Envelope)
    ensures var t := LifeEnd(e); UniqueIds(t.outbox) && CaughtUp(t) && e in t.completed
  {
    var t := LifeEnd(e);
    forall x, y | Appended(t.outbox, x) && Appended(t.outbox, y) ensures x == e && y == e {
      assert |t.outbox| == 1 && t.outbox[0].payload == OfEvent(e);
    }
  }

  /** What the theorems about loads ask of a run can be met. */
  lemma LifeIsAcceptable(e: Envelope)
    requires ValidEvent(e)
    ensures Initial(START) && Legal(START, LifeOf(e)) && End(START, LifeOf(e)) == LifeEnd(e)
    ensures var t := LifeEnd(e); Inv(t) && UniqueIds(t.outbox) && CaughtUp(t) && e in t.completed
  {
    FullRun(e);
    RunKeepsInv(START, LifeOf(e));
    LifeEndIsCaughtUp(e);
  }

  /** The run of one event: it is loaded, alone and whole. */
  lemma AppendArchiveLoad(e: Envelope, es: seq<Envelope>, rows: Index, limit: nat)
    requires ValidEvent(e) && limit > 0
    requires IsLoad(es, rows, [true], LifeEnd(e).index, LifeEnd(e).objects, e.aggregateType, e.aggregateId, limit)
    ensures Legal(START, LifeOf(e)) && End(START, LifeOf(e)) == LifeEnd(e) && es == [e]
  {
    FullRun(e);
    SingleLoad(e, KeyOfEvent(e), es, rows, limit);
  }

  lemma ArchiveRun(e: Envelope)
    ensures var s := State([EntryOf(e)], [RowOf(e)], map[], map[], {}, {e});
            && Legal(s, [WorkerWrite(0), WorkerMark(0)])
            && End(s, [WorkerWrite(0), WorkerMark(0)])
               == State([EntryOf(e).(status := Archived)], [RowOf(e)], map[KeyOfEvent(e) := OfEvent(e)], map[], {0}, {e})
  {
    var s := State([EntryOf(e)], [RowOf(e)], map[], map[], {}, {e});
    var t := Apply(s, WorkerWrite(0));
    assert t.objects == map[KeyOfEvent(e) := OfEvent(e)];
    assert Apply(t, WorkerMark(0)).outbox == [EntryOf(e).(status := Archived)];
    OneStep(t, WorkerMark(0));
    OneMore(s, WorkerWrite(0), [WorkerMark(0)]);
    assert [WorkerWrite(0)] + [WorkerMark(0)] == [WorkerWrite(0), WorkerMark(0)];
  }

  lemma FullRun(e: Envelope)
    requires ValidEvent(e)
    ensures Legal(START, LifeOf(e)) && End(START, LifeOf(e)) == LifeEnd(e)
  {
    var s1 := Apply(START, BeginAppend(0, e));
    assert Apply(s1, FinishAppend(0)) == State([EntryOf(e)], [RowOf(e)], map[], map[], {}, {e});
    ArchiveRun(e);
    OneMore(s1, FinishAppend(0), [WorkerWrite(0), WorkerMark(0)]);
    assert [FinishAppend(0)] + [WorkerWrite(0), WorkerMark(0)] == [FinishAppend(0), WorkerWrite(0), WorkerMark(0)];
    OneMore(START, BeginAppend(0, e), [FinishAppend(0), WorkerWrite(0), WorkerMark(0)]);
  }

  lemma SingleLoad(e: Envelope, key: string, es: seq<Envelope>, rows: Index, limit: nat)
    requires limit > 0
    requires IsLoad(es, rows, [true], [RowAt(e, key)], map[key := OfEvent(e)], e.aggregateType, e.aggregateId, limit)
    ensures es == [e]
  {
    SingleRow(RowAt(e, key), rows, limit);
    LoadedOne(e, key, limit);
  }

  lemma LoadedOne(e: Envelope, key: string, limit: nat)
    requires limit > 0
    ensures Loaded([RowAt(e, key)], map[key := OfEvent(e)], [true], limit) == [e]
  {
    AllRowsAreFetched([RowAt(e, key)], map[key := OfEvent(e)], [true], [e]);
    StableSort.SortOfSorted([e], EventTime);
  }

  lemma SingleRow(r: IndexRow, rows: Index, limit: nat)
    requires IsKeysAnswer(rows, [r], r.aggregateType, r.aggregateId, limit) && |rows| == 1
    ensures rows == [r]
  {
    var all :| Ordered(all, [r], r.aggregateType, r.aggregateId) && rows == all[..Min(limit, |all|)];
    OrderedRows(all, [r], r.aggregateType, r.aggregateId);
    assert rows[0] in all;
  }

  /**
   For an appended event with a unique id: a load whose answer is not cut short finds it exactly
   when it is indexed and its object is stored and read.
  */
  lemma FoundIff(s: State, rows: Index, readable: seq<bool>, limit: nat, e: Envelope)
    requires Inv(s) && UniqueIds(s.outbox) && Appended(s.outbox, e) && |readable| == |rows| < limit
    requires IsKeysAnswer(rows, s.index, e.aggregateType, e.aggregateId, limit)
    requires AllRead(readable)
    ensures e in Loaded(rows, s.objects, readable, limit) <==> RowOf(e) in s.index && KeyOfEvent(e) in s.objects
  {
    AnswerRows(s.index, rows, e.aggregateType, e.aggregateId, limit);
    LoadsKeepIndexOrder(s, rows, readable, e.aggregateType, e.aggregateId, limit);
    FetchAllMembers(rows, s.objects, readable, e);
    if e in Loaded(rows, s.objects, readable, limit) {
      var r :| r in rows && Fetched(s.objects, r.objectKey, true) == Some(e);
      FetchedIsTheRowsEvent(s, r, true);
    }
    if RowOf(e) in s.index && KeyOfEvent(e) in s.objects {
      AnswerIsTop(s.index, rows, e.aggregateType, e.aggregateId, limit, RowOf(e));
      StoredIsFetched(s, e);
    }
  }

  /** The step puts the event id into the index, unless it is there. */
  predicate StepIndexes(s: State, step: Step, eventId: string)
    requires Enabled(s, step)
  {
    || (step.FinishAppend? && s.appends[step.client].eventId == eventId)
    || (step.WorkerIndex? && s.outbox[step.entry].payload.event.eventId == eventId)
  }

  /** Somewhere in the run an append with the id finishes, or the worker indexes an entry with it. */
  ghost predicate Indexes(s: State, run: seq<Step>, eventId: string)
    requires Legal(s, run)
    decreases |run|
  {
    run != [] && (StepIndexes(s, run[0], eventId) || Indexes(Apply(s, run[0]), run[1..], eventId))
  }

  lemma IndexedIff(index: Index, row: IndexRow, id: string)
    ensures HasId(Indexed(index, row), id) <==> HasId(index, id) || row.eventId == id
  {
    IndexedHasId(index, row);
    if r :| r in Indexed(index, row) && r.eventId == id {
      assert r in index || r == row;
    }
  }

  lemma StepIndexesIff(s: State, step: Step, id: string)
    requires Enabled(s, step)
    ensures HasId(Apply(s, step).index, id) <==> HasId(s.index, id) || StepIndexes(s, step, id)
  {
    match step {
      case FinishAppend(c) => IndexedIff(s.index, RowOf(s.appends[c]), id);
      case WorkerIndex(i) => IndexedIff(s.index, RowAt(s.outbox[i].payload.event, s.outbox[i].objectKey), id);
      case _ =>
    }
  }

  /**
   Which event ids are in the index after any run: those that were, and those of an append that
   finished or of an entry that the worker indexed.
  */
  lemma {:induction false} RunIndexesIff(s: State, run: seq<Step>, id: string)
    requires Legal(s, run)
    ensures HasId(End(s, run).index, id) <==> HasId(s.index, id) || Indexes(s, run, id)
    decreases |run|
  {
    if run != [] {
      StepIndexesIff(s, run[0], id);
      RunIndexesIff(Apply(s, run[0]), run[1..], id);
    }
  }

  /** With unique ids an appended event whose id is indexed has its own row. */
  lemma OwnRowIff(s: State, e: Envelope)
    requires Inv(s) && UniqueIds(s.outbox) && Appended(s.outbox, e)
    ensures HasId(s.index, e.eventId) <==> RowOf(e) in s.index
  {
    if r :| r in s.index && r.eventId == e.eventId {
      assert RowOk(s.outbox, r);
      var f :| Appended(s.outbox, f) && RowOf(f) == r;
      SameIdSameEvent(s.outbox, e, f);
    }
  }

  lemma ArchivedIsStored(s: State, e: Envelope)
    requires Inv(s) && CaughtUp(s) && Appended(s.outbox, e)
    ensures KeyOfEvent(e) in s.objects
  {
    var i :| 0 <= i < |s.outbox| && s.outbox[i].payload == OfEvent(e);
    assert EntryOk(s.outbox[i]) && s.outbox[i].status == Archived && i in s.written;
  }

  /**
   Whether an appended event is ever loaded, once the worker has caught up: exactly when its
   append finished, or the worker's own index insert for it succeeded, somewhere in the run.
  */
  lemma LoadedIff(s: State, run: seq<Step>, rows: Index, readable: seq<bool>, limit: nat, e: Envelope)
    requires Initial(s) && Legal(s, run)
    requires UniqueIds(End(s, run).outbox) && CaughtUp(End(s, run)) && Appended(End(s, run).outbox, e)
    requires IsKeysAnswer(rows, End(s, run).index, e.aggregateType, e.aggregateId, limit)
    requires |readable| == |rows| < limit && AllRead(readable)
    ensures e in Loaded(rows, End(s, run).objects, readable, limit) <==> Indexes(s, run, e.eventId)
  {
    RunKeepsInv(s, run);
    RunIndexesIff(s, run, e.eventId);
    OwnRowIff(End(s, run), e);
    ArchivedIsStored(End(s, run), e);
    FoundIff(End(s, run), rows, readable, limit, e);
  }

  lemma StoredIsFetched(s: State, e: Envelope)
    requires Inv(s) && UniqueIds(s.outbox) && Appended(s.outbox, e)
    requires RowOf(e) in s.index && KeyOfEvent(e) in s.objects
    ensures Fetched(s.objects, KeyOfEvent(e), true) == Some(e)
  {
    EventKeysAreEventKeys(e);
    assert ObjectOk(s.outbox, KeyOfEvent(e), s.objects[KeyOfEvent(e)]);
    FetchedIsTheRowsEvent(s, RowOf(e), true);
    SameIdSameEvent(s.outbox, s.objects[KeyOfEvent(e)].event, e);
  }

  lemma {:induction false} FetchAllMembers(rows: Index, objects: Objects, readable: seq<bool>, e: Envelope)
    requires |readable| == |rows| && AllRead(readable)
    ensures e in FetchAll(rows, objects, readable)
       <==> exists r :: r in rows && Fetched(objects, r.objectKey, true) == Some(e)
  {
    if rows != [] {
      var k := |rows| - 1;
      FetchAllMembers(rows[..k], objects, readable[..k], e);
      assert rows == rows[..k] + [rows[k]];
    }
  }
}
