/**
 Synthesis of document telemetry from an event log (`ragzoom/telemetry_export.py`). Field values are
 taken as already coerced: a height, span or timestamp that cannot be read is absent.
 */
module TelemetryExport {
  import opened Options
  import opened Sorting
  import opened Forest

  type Span = (int, int)

  /** Values that are copied as they are; only emptiness of an object is looked at. */
  datatype Json = Null | Scalar(text: string) | Object(members: map<string, Json>)

  type Fields = map<string, Json>

  /** A node payload: the fields that are looked at, and the further ones. */
  datatype Payload = Payload(
    nodeId: Option<Id>,
    height: Option<int>,
    span: Option<Span>,
    createdAt: Option<real>,
    fields: Fields)

  datatype Outcome = Outcome(nodes: seq<Payload>, fields: Fields)

  datatype Event =
    | Started(appendId: Option<Id>, runId: Option<Id>, timestamp: Option<real>, sourceTokens: Option<int>,
              replaceExisting: bool, fields: Fields)
    | Completed(appendId: Option<Id>, runId: Option<Id>, timestamp: Option<real>, outcome: Option<Outcome>,
                fields: Fields)
    | Failed(appendId: Option<Id>, runId: Option<Id>, timestamp: Option<real>, fields: Fields)
    | NodeCommitted(nodeId: Option<Id>, height: Option<int>, span: Option<Span>, timestamp: Option<real>)
    | Other

  datatype Status = InProgress | Done | Broken

  /** An entry of the append history: the run id it was opened with, its status and times, and its further fields. */
  datatype Entry =
    Entry(runId: Option<Id>, status: Status, startedAt: Option<real>, completedAt: Option<real>, fields: Fields)

  datatype Committed = Committed(height: Option<int>, span: Option<Span>, createdAt: Option<real>)

  datatype Active = Active(height: Option<int>, span: Option<Span>)

  datatype Record = Record(nodeId: Id, height: int, span: Option<Span>, createdAt: real, fields: Fields)

  /** The dictionaries and lists the events are folded into; `nodeOrder` is the key order of `nodesById`. */
  datatype Fold = Fold(
    history: map<Id, Entry>,
    order: seq<Id>,
    nodesById: map<Id, Payload>,
    nodeOrder: seq<Id>,
    committed: map<Id, Committed>,
    lastOutcome: Option<Outcome>,
    indexedAt: Option<real>,
    sourceTokens: int)

  /** A string that Python takes for true. */
  predicate Truthy(id: Option<Id>) {
    id.Some? && id.value.name != ""
  }

  /** `append_id or run_id` of a history event. */
  function HistoryKey(e: Event): Option<Id> {
    if e.Started? || e.Completed? || e.Failed? then (if Truthy(e.appendId) then e.appendId else e.runId) else None
  }

  function OrElse<T>(a: Option<T>, b: Option<T>): Option<T> {
    if a.Some? then a else b
  }

  /** `fields.get(name)` */
  function Get(fields: Fields, name: string): Json {
    if name in fields then fields[name] else Null
  }

  /** The named fields that are there and not `None`. */
  function Present(fields: Fields, names: seq<string>): Fields {
    map name | name in names && Get(fields, name) != Null :: Get(fields, name)
  }

  /** `chunk_split`, if it is an object with anything in it. */
  function ChunkSplit(fields: Fields): Fields {
    var split := Get(fields, "chunk_split");
    if split.Object? && split.members != map[] then map["chunk_split" := split] else map[]
  }

  function OutcomeFields(e: Event): Fields
    requires e.Completed?
  {
    if e.outcome.Some? then e.outcome.value.fields else map[]
  }

  /** The duration and the totals of a completion, missing ones as `Null`. */
  function Totals(fields: Fields, outcome: Fields): Fields {
    map["duration" := Get(fields, "duration"), "mutated_nodes" := Get(outcome, "mutated_nodes"),
        "new_leaves" := Get(outcome, "new_leaves"), "leaf_delta" := Get(outcome, "leaf_delta"),
        "summary_nodes" := Get(outcome, "summary_nodes")]
  }

  /** The further fields that a history event writes into its entry. */
  function Written(e: Event): Fields
    requires e.Started? || e.Completed? || e.Failed?
  {
    match e
    case Started(_, _, _, _, replaceExisting, fields) =>
      map["replace_existing" := Scalar(if replaceExisting then "True" else "False"),
          "source_tokens" := Get(fields, "source_tokens")]
    case Completed(_, _, _, _, fields) =>
      var o := OutcomeFields(e);
      Totals(fields, o) + Present(o, ["span_start", "span_end"]) + ChunkSplit(o)
    case Failed(_, _, _, fields) =>
      map["duration" := Get(fields, "duration"), "error" := Get(fields, "error")]
  }

  // ----- folding one event -----

  function AddPayload(f: Fold, p: Payload): Fold {
    if !Truthy(p.nodeId) then f
    else f.(nodesById := f.nodesById[p.nodeId.value := p],
            nodeOrder := if p.nodeId.value in f.nodesById then f.nodeOrder else f.nodeOrder + [p.nodeId.value])
  }

  function AddPayloads(f: Fold, payloads: seq<Payload>): Fold {
    if payloads == [] then f
    else AddPayload(AddPayloads(f, payloads[..|payloads| - 1]), payloads[|payloads| - 1])
  }

  /** `append_history.setdefault(key, ...).update(...)`, and the key goes to the end of the order if it is new. */
  function UpdateHistory(f: Fold, key: Id, e: Event): Fold
    requires e.Started? || e.Completed? || e.Failed?
  {
    var entry := if key in f.history then f.history[key] else Entry(e.runId, InProgress, None, None, map[]);
    var updated :=
      if e.Started? then entry.(status := InProgress, startedAt := e.timestamp, fields := entry.fields + Written(e))
      else entry.(status := if e.Completed? then Done else Broken, completedAt := e.timestamp,
                  fields := entry.fields + Written(e));
    f.(history := f.history[key := updated],
       order := if key.name != "" && key !in f.order then f.order + [key] else f.order)
  }

  function UpdateCommitted(f: Fold, e: Event): Fold
    requires e.NodeCommitted? && e.nodeId.Some?
  {
    var entry := if e.nodeId.value in f.committed then f.committed[e.nodeId.value] else Committed(None, None, None);
    var updated := Committed(OrElse(e.height, entry.height), OrElse(e.span, entry.span),
        OrElse(entry.createdAt, e.timestamp));
    f.(committed := f.committed[e.nodeId.value := updated])
  }

  /** The first start with a timestamp sets the indexing time; the largest source token count is kept. */
  function NoteStart(f: Fold, e: Event): Fold
    requires e.Started?
  {
    var tokens := if e.sourceTokens.Some? then e.sourceTokens.value else 0;
    f.(indexedAt := OrElse(f.indexedAt, e.timestamp),
       sourceTokens := if f.sourceTokens < tokens then tokens else f.sourceTokens)
  }

  function Apply(f: Fold, e: Event): Fold {
    match e
    case Started(_, _, _, _, _, _) =>
      if HistoryKey(e).None? then f else UpdateHistory(NoteStart(f, e), HistoryKey(e).value, e)
    case Completed(_, _, _, outcome, _) =>
      if HistoryKey(e).None? then f else
        UpdateHistory(if outcome.Some? then AddPayloads(f, outcome.value.nodes) else f, HistoryKey(e).value, e)
          .(lastOutcome := outcome)
    case Failed(_, _, _, _) => if HistoryKey(e).None? then f else UpdateHistory(f, HistoryKey(e).value, e)
    case NodeCommitted(nodeId, _, _, _) => if nodeId.None? then f else UpdateCommitted(f, e)
    case Other => f
  }

  // ----- what the log says, read declaratively -----

  /** The keys of the history events, one for each event, without empty ones. */
  ghost function HistoryKeys(events: seq<Event>): seq<Id> {
    if events == [] then [] else
      var key := HistoryKey(events[|events| - 1]);
      HistoryKeys(events[..|events| - 1]) + (if Truthy(key) then [key.value] else [])
  }

  /** The last history event of `key`. */
  ghost function LastEvent(events: seq<Event>, key: Id): Option<Event> {
    if events == [] then None
    else if HistoryKey(events[|events| - 1]) == Some(key) then Some(events[|events| - 1])
    else LastEvent(events[..|events| - 1], key)
  }

  /** The timestamp of the last history event of `key` that is a start, or that is an end. */
  ghost function LastTime(events: seq<Event>, key: Id, start: bool): Option<real> {
    if events == [] then None else
      var e := events[|events| - 1];
      if HistoryKey(e) == Some(key) && e.Started? == start then e.timestamp
      else LastTime(events[..|events| - 1], key, start)
  }

  /** The run id of the first history event of `key`. */
  ghost function OpenedWith(events: seq<Event>, key: Id): Option<Id> {
    if events == [] then None else
      var front, e := events[..|events| - 1], events[|events| - 1];
      if LastEvent(front, key).Some? then OpenedWith(front, key)
      else if HistoryKey(e) == Some(key) then e.runId else None
  }

  /** All that the history events of `key` have written, later values over earlier ones. */
  ghost function FieldsOf(events: seq<Event>, key: Id): Fields {
    if events == [] then map[] else
      var before, e := FieldsOf(events[..|events| - 1], key), events[|events| - 1];
      if HistoryKey(e) == Some(key) then before + Written(e) else before
  }

  /** What the last history event of `key` that writes the field has written into it. */
  ghost function LastWritten(events: seq<Event>, key: Id, field: string): Option<Json> {
    if events == [] then None else
      var e := events[|events| - 1];
      if HistoryKey(e) == Some(key) && field in Written(e) then Some(Written(e)[field])
      else LastWritten(events[..|events| - 1], key, field)
  }

  /** A start that counts: one with a history key. */
  predicate CountsAsStart(e: Event) {
    e.Started? && HistoryKey(e).Some?
  }

  /** The first timestamp of a start. */
  ghost function FirstStart(events: seq<Event>): Option<real> {
    if events == [] then None else
      var e := events[|events| - 1];
      OrElse(FirstStart(events[..|events| - 1]), if CountsAsStart(e) then e.timestamp else None)
  }

  /** `most` is the largest of `base` and the source token counts of the starts, absent ones being 0. */
  ghost predicate IsMostTokens(most: int, base: int, events: seq<Event>) {
    && most >= base
    && (forall i :: 0 <= i < |events| && CountsAsStart(events[i]) ==> StartTokens(events[i]) <= most)
    && (most == base || exists i :: 0 <= i < |events| && CountsAsStart(events[i]) && StartTokens(events[i]) == most)
  }

  function StartTokens(e: Event): int
    requires e.Started?
  {
    if e.sourceTokens.Some? then e.sourceTokens.value else 0
  }

  function StatusAfter(e: Event): Status {
    if e.Started? then InProgress else if e.Completed? then Done else Broken
  }

  /** All payloads of completed appends, in order. */
  ghost function Payloads(events: seq<Event>): seq<Payload> {
    if events == [] then [] else
      var e := events[|events| - 1];
      Payloads(events[..|events| - 1])
      + (if e.Completed? && HistoryKey(e).Some? && e.outcome.Some? then e.outcome.value.nodes else [])
  }

  ghost function PayloadIds(payloads: seq<Payload>): seq<Id> {
    if payloads == [] then [] else
      var p := payloads[|payloads| - 1];
      PayloadIds(payloads[..|payloads| - 1]) + (if Truthy(p.nodeId) then [p.nodeId.value] else [])
  }

  ghost function LastPayload(payloads: seq<Payload>, id: Id): Option<Payload> {
    if payloads == [] then None
    else if id.name != "" && payloads[|payloads| - 1].nodeId == Some(id) then Some(payloads[|payloads| - 1])
    else LastPayload(payloads[..|payloads| - 1], id)
  }

  predicate Commits(e: Event, id: Id) {
    e.NodeCommitted? && e.nodeId == Some(id)
  }

  /** The last height, the last span and the first timestamp that were committed for a node. */
  ghost function CommittedHeight(events: seq<Event>, id: Id): Option<int> {
    if events == [] then None else
      var e := events[|events| - 1];
      if Commits(e, id) && e.height.Some? then e.height else CommittedHeight(events[..|events| - 1], id)
  }

  ghost function CommittedSpan(events: seq<Event>, id: Id): Option<Span> {
    if events == [] then None else
      var e := events[|events| - 1];
      if Commits(e, id) && e.span.Some? then e.span else CommittedSpan(events[..|events| - 1], id)
  }

  ghost function CommittedTime(events: seq<Event>, id: Id): Option<real> {
    if events == [] then None else
      var e := events[|events| - 1];
      OrElse(CommittedTime(events[..|events| - 1], id), if Commits(e, id) then e.timestamp else None)
  }

  ghost function LastOutcome(events: seq<Event>): Option<Outcome> {
    if events == [] then None else
      var e := events[|events| - 1];
      if e.Completed? && HistoryKey(e).Some? then e.outcome else LastOutcome(events[..|events| - 1])
  }

  /** What the log says about a key that has a history event. */
  ghost function EntryOf(events: seq<Event>, key: Id): Entry
    requires LastEvent(events, key).Some?
  {
    Entry(OpenedWith(events, key), StatusAfter(LastEvent(events, key).value),
          LastTime(events, key, true), LastTime(events, key, false), FieldsOf(events, key))
  }

  lemma {:induction false} FieldsMeaning(events: seq<Event>, key: Id, name: string)
    ensures LastWritten(events, key, name)
         == if name in FieldsOf(events, key) then Some(FieldsOf(events, key)[name]) else None
  {
    if events != [] { FieldsMeaning(events[..|events| - 1], key, name); }
  }

  // ----- the fold computes the declarative reading -----

  ghost predicate HistoryFolded(f: Fold, events: seq<Event>) {
    f.order == FirstOccurrences(HistoryKeys(events)) && forall k :: EntryFolded(f.history, events, k)
  }

  ghost predicate PayloadsFolded(f: Fold, payloads: seq<Payload>) {
    && f.nodeOrder == FirstOccurrences(PayloadIds(payloads))
    && (forall id :: id in f.nodesById <==> id in PayloadIds(payloads))
    && forall id :: id in f.nodesById ==> LastPayload(payloads, id) == Some(f.nodesById[id])
  }

  function CommittedOf(committed: map<Id, Committed>, id: Id): Committed {
    if id in committed then committed[id] else Committed(None, None, None)
  }

  ghost predicate CommittedFolded(f: Fold, events: seq<Event>) {
    forall id ::
      CommittedOf(f.committed, id)
          == Committed(CommittedHeight(events, id), CommittedSpan(events, id), CommittedTime(events, id))
  }

  lemma {:induction false} AddPayloadsKeeps(f: Fold, payloads: seq<Payload>)
    ensures var g := AddPayloads(f, payloads);
            && g.history == f.history && g.order == f.order && g.committed == f.committed
            && g.lastOutcome == f.lastOutcome && g.indexedAt == f.indexedAt && g.sourceTokens == f.sourceTokens
  {
    if payloads != [] { AddPayloadsKeeps(f, payloads[..|payloads| - 1]); }
  }

  lemma PayloadsMore(before: seq<Payload>, p: Payload)
    ensures PayloadIds(before + [p]) == if Truthy(p.nodeId) then PayloadIds(before) + [p.nodeId.value]
            else PayloadIds(before)
    ensures forall id :: LastPayload(before + [p], id)
                         == if id.name != "" && p.nodeId == Some(id) then Some(p) else LastPayload(before, id)
  {
    assert (before + [p])[..|before|] == before;
    assert PayloadIds(before) + [] == PayloadIds(before);
  }

  lemma AddPayloadFolds(f: Fold, before: seq<Payload>, p: Payload)
    requires PayloadsFolded(f, before)
    ensures PayloadsFolded(AddPayload(f, p), before + [p])
  {
    PayloadsMore(before, p);
    EmptyNeverListed(before);
    hide PayloadIds;
    hide LastPayload;
    hide FirstOccurrences;
    if Truthy(p.nodeId) {
      FirstOccurrencesMore(PayloadIds(before), p.nodeId.value);
      forall id | id in AddPayload(f, p).nodesById
        ensures LastPayload(before + [p], id) == Some(AddPayload(f, p).nodesById[id]) {
        if id != p.nodeId.value { assert id in f.nodesById; }
      }
    }
  }

  lemma {:induction false} AddPayloadsFolds(f: Fold, before: seq<Payload>, payloads: seq<Payload>)
    requires PayloadsFolded(f, before)
    ensures PayloadsFolded(AddPayloads(f, payloads), before + payloads)
  {
    hide PayloadsFolded;
    hide AddPayload;
    if payloads == [] {
      assert before + payloads == before;
    } else {
      var front, p := payloads[..|payloads| - 1], payloads[|payloads| - 1];
      AddPayloadsFolds(f, before, front);
      AddPayloadFolds(AddPayloads(f, front), before + front, p);
      assert before + payloads == (before + front) + [p];
    }
  }

  lemma {:induction false} EmptyNeverListed(payloads: seq<Payload>)
    ensures forall x :: x in PayloadIds(payloads) ==> x.name != ""
  {
    if payloads != [] { EmptyNeverListed(payloads[..|payloads| - 1]); }
  }

  lemma {:induction false} KeysNotEmpty(events: seq<Event>)
    ensures forall x :: x in HistoryKeys(events) ==> x.name != ""
  {
    if events != [] { KeysNotEmpty(events[..|events| - 1]); }
  }

  lemma KeysMore(events: seq<Event>, e: Event)
    ensures HistoryKeys(events + [e]) == if Truthy(HistoryKey(e)) then HistoryKeys(events) + [HistoryKey(e).value]
            else HistoryKeys(events)
  {
    assert (events + [e])[..|events|] == events;
    assert HistoryKeys(events) + [] == HistoryKeys(events);
  }

  lemma EventsMore(events: seq<Event>, e: Event, k: Id)
    ensures LastEvent(events + [e], k) == if HistoryKey(e) == Some(k) then Some(e) else LastEvent(events, k)
    ensures LastTime(events + [e], k, true) == if HistoryKey(e) == Some(k) && e.Started? then e.timestamp
            else LastTime(events, k, true)
    ensures OpenedWith(events + [e], k)
         == if LastEvent(events, k).Some? then OpenedWith(events, k)
            else if HistoryKey(e) == Some(k) then e.runId else None
    ensures FieldsOf(events + [e], k) == if HistoryKey(e) == Some(k) then FieldsOf(events, k) + Written(e)
            else FieldsOf(events, k)
    ensures LastTime(events + [e], k, false) == if HistoryKey(e) == Some(k) && !e.Started? then e.timestamp
            else LastTime(events, k, false)
  {
    assert (events + [e])[..|events|] == events;
  }

  /** The entry of a key, from its history events. */
  ghost predicate EntryFolded(history: map<Id, Entry>, events: seq<Event>, k: Id) {
    if LastEvent(events, k).None? then k !in history
    else k in history && history[k] == EntryOf(events, k)
  }

  lemma UpdateEntry(f: Fold, events: seq<Event>, e: Event, k: Id)
    requires HistoryKey(e).Some? && EntryFolded(f.history, events, k)
    ensures EntryFolded(UpdateHistory(f, HistoryKey(e).value, e).history, events + [e], k)
  {
    EventsMore(events, e, k);
    if LastEvent(events, k).None? { NoTimes(events, k); }
  }

  lemma UpdateHistoryFolds(f: Fold, events: seq<Event>, e: Event)
    requires HistoryFolded(f, events) && HistoryKey(e).Some?
    ensures HistoryFolded(UpdateHistory(f, HistoryKey(e).value, e), events + [e])
  {
    var key := HistoryKey(e).value;
    KeysMore(events, e);
    FirstOccurrencesMembers(HistoryKeys(events));
    FirstOccurrencesMore(HistoryKeys(events), key);
    KeysNotEmpty(events);
    hide HistoryKeys;
    hide FirstOccurrences;
    hide EntryFolded;
    forall k ensures EntryFolded(UpdateHistory(f, key, e).history, events + [e], k) {
      UpdateEntry(f, events, e, k);
    }
  }

  lemma {:induction false} NoTimes(events: seq<Event>, key: Id)
    requires LastEvent(events, key).None?
    ensures LastTime(events, key, true).None? && LastTime(events, key, false).None? && FieldsOf(events, key) == map[]
  {
    if events != [] { NoTimes(events[..|events| - 1], key); }
  }

  lemma SkipHistory(f: Fold, events: seq<Event>, e: Event)
    requires HistoryFolded(f, events) && HistoryKey(e).None?
    ensures HistoryFolded(f, events + [e])
  {
    KeysMore(events, e);
    forall k ensures EntryFolded(f.history, events + [e], k) {
      assert EntryFolded(f.history, events, k);
      EventsMore(events, e, k);
    }
  }

  lemma ApplyHistory(f: Fold, events: seq<Event>, e: Event)
    requires HistoryFolded(f, events)
    ensures HistoryFolded(Apply(f, e), events + [e])
  {
    hide HistoryFolded;
    hide UpdateHistory;
    if HistoryKey(e).None? {
      SkipHistory(f, events, e);
      if e.NodeCommitted? && e.nodeId.Some? { SameHistory(f, Apply(f, e), events + [e]); }
    } else if e.Completed? {
      var g := if e.outcome.Some? then AddPayloads(f, e.outcome.value.nodes) else f;
      if e.outcome.Some? { AddPayloadsKeeps(f, e.outcome.value.nodes); }
      SameHistory(f, g, events);
      UpdateHistoryFolds(g, events, e);
      SameHistory(UpdateHistory(g, HistoryKey(e).value, e), Apply(f, e), events + [e]);
    } else if e.Started? {
      SameHistory(f, NoteStart(f, e), events);
      UpdateHistoryFolds(NoteStart(f, e), events, e);
    } else {
      UpdateHistoryFolds(f, events, e);
    }
  }

  lemma SameHistory(f: Fold, g: Fold, events: seq<Event>)
    requires HistoryFolded(f, events) && f.history == g.history && f.order == g.order
    ensures HistoryFolded(g, events)
  {
  }

  lemma ApplyPayloads(f: Fold, events: seq<Event>, e: Event)
    requires PayloadsFolded(f, Payloads(events))
    ensures PayloadsFolded(Apply(f, e), Payloads(events + [e]))
  {
    assert (events + [e])[..|events|] == events;
    assert Payloads(events) + [] == Payloads(events);
    if e.Completed? && HistoryKey(e).Some? && e.outcome.Some? {
      AddPayloadsFolds(f, Payloads(events), e.outcome.value.nodes);
    }
  }

  lemma ApplyCommitted(f: Fold, events: seq<Event>, e: Event)
    requires CommittedFolded(f, events)
    ensures CommittedFolded(Apply(f, e), events + [e])
  {
    assert (events + [e])[..|events|] == events;
    if e.Completed? && HistoryKey(e).Some? && e.outcome.Some? { AddPayloadsKeeps(f, e.outcome.value.nodes); }
    forall id ensures CommittedOf(Apply(f, e).committed, id)
        == Committed(CommittedHeight(events + [e], id), CommittedSpan(events + [e], id),
            CommittedTime(events + [e], id)) {
      assert CommittedOf(f.committed, id)
          == Committed(CommittedHeight(events, id), CommittedSpan(events, id), CommittedTime(events, id));
    }
  }

  // ----- the records -----

  /** Precedence: active over committed over the last payload; the creation time prefers the payload, which alone has
      further fields. */
  function RecordOf(id: Id, base: Option<Payload>, committed: Committed, active: Option<Active>): Record {
    var activeHeight := if active.Some? then active.value.height else None;
    var activeSpan := if active.Some? then active.value.span else None;
    var baseHeight := if base.Some? then base.value.height else None;
    var baseSpan := if base.Some? then base.value.span else None;
    var baseTime := if base.Some? then base.value.createdAt else None;
    var height := OrElse(activeHeight, OrElse(committed.height, baseHeight));
    var createdAt := OrElse(baseTime, committed.createdAt);
    Record(id,
           if height.Some? then height.value else 0,
           OrElse(activeSpan, OrElse(committed.span, baseSpan)),
           if createdAt.Some? then createdAt.value else 0.0,
           if base.Some? then base.value.fields else map[])
  }

  method ApplyNodeUpdates(id: Id, base: Option<Payload>, committed: Committed, active: Option<Active>)
    returns (r: Record)
    ensures r == RecordOf(id, base, committed, active)
  {
    var height: Option<int>, span: Option<Span>, createdAt: Option<real> := None, None, None;
    var fields: Fields := map[];
    if base.Some? {
      height, span, createdAt := base.value.height, base.value.span, base.value.createdAt;
      fields := base.value.fields;
    }
    if committed.height.Some? { height := committed.height; }
    if committed.span.Some? { span := committed.span; }
    if committed.createdAt.Some? && createdAt.None? { createdAt := committed.createdAt; }
    if active.Some? {
      if active.value.height.Some? { height := active.value.height; }
      if active.value.span.Some? { span := active.value.span; }
    }
    r := Record(id, if height.Some? then height.value else 0, span,
                if createdAt.Some? then createdAt.value else 0.0, fields);
  }

  function ByCreation(): (Record, Record) -> bool {
    (a: Record, b: Record) => a.createdAt <= b.createdAt
  }

  function PayloadOf(nodesById: map<Id, Payload>, id: Id): Option<Payload> {
    if id in nodesById then Some(nodesById[id]) else None
  }

  /** The active nodes as an ordered dictionary. */
  datatype ActiveNodes = ActiveNodes(order: seq<Id>, nodes: map<Id, Active>)

  ghost predicate ValidActive(active: ActiveNodes) {
    Distinct(active.order) && forall x :: x in active.nodes <==> x in active.order
  }

  /** One record for each id, from what the log says about it. */
  ghost function LogRecords(ids: seq<Id>, events: seq<Event>, active: Option<ActiveNodes>): seq<Record> {
    seq(|ids|, i requires 0 <= i < |ids| => LogRecord(ids[i], events, active))
  }

  /** The ids that get a record: the active ones, or without active nodes those of the payloads by first appearance. */
  ghost function RecordedIds(events: seq<Event>, active: Option<ActiveNodes>): seq<Id> {
    if active.Some? then active.value.order else FirstOccurrences(PayloadIds(Payloads(events)))
  }

  ghost function LogRecord(id: Id, events: seq<Event>, active: Option<ActiveNodes>): Record {
    RecordOf(id, LastPayload(Payloads(events), id),
             Committed(CommittedHeight(events, id), CommittedSpan(events, id), CommittedTime(events, id)),
             if active.Some? && id in active.value.nodes then Some(active.value.nodes[id]) else None)
  }

  /** The merged record of one node. */
  method MergeNode(f: Fold, id: Id, active: Option<ActiveNodes>, ghost events: seq<Event>) returns (record: Record)
    requires PayloadsFolded(f, Payloads(events)) && CommittedFolded(f, events)
    ensures record == LogRecord(id, events, active)
  {
    var payload := if active.Some? && id in active.value.nodes then Some(active.value.nodes[id]) else None;
    record := ApplyNodeUpdates(id, PayloadOf(f.nodesById, id), CommittedOf(f.committed, id), payload);
    RecordFromFold(f, events, active, id);
  }

  method MergeNodes(f: Fold, ids: seq<Id>, active: Option<ActiveNodes>, ghost events: seq<Event>)
    returns (merged: seq<Record>)
    requires PayloadsFolded(f, Payloads(events)) && CommittedFolded(f, events)
    ensures merged == LogRecords(ids, events, active)
  {
    NoRecords(events, active);
    hide *;
    merged := [];
    for i := 0 to |ids|
      invariant merged == LogRecords(ids[..i], events, active)
    {
      var record := MergeNode(f, ids[i], active, events);
      assert ids[..i + 1] == ids[..i] + [ids[i]];
      OneRecordMore(ids[..i], ids[i], events, active);
      merged := merged + [record];
    }
    assert ids[..|ids|] == ids;
  }

  method MergeNodePayloads(f: Fold, active: Option<ActiveNodes>, ghost events: seq<Event>)
    returns (records: seq<Record>)
    requires PayloadsFolded(f, Payloads(events)) && CommittedFolded(f, events)
    requires active.Some? ==> ValidActive(active.value)
    ensures records == StableSort(ByCreation(), LogRecords(RecordedIds(events, active), events, active))
  {
    FoldOrder(f, events);
    hide LogRecords;
    hide Payloads;
    hide StableSort;
    hide PayloadsFolded;
    hide CommittedFolded;
    var merged := MergeNodes(f, if active.Some? then active.value.order else f.nodeOrder, active, events);
    records := StableSort(ByCreation(), merged);
  }

  lemma FoldOrder(f: Fold, events: seq<Event>)
    requires PayloadsFolded(f, Payloads(events))
    ensures f.nodeOrder == FirstOccurrences(PayloadIds(Payloads(events)))
  {
  }

  lemma NoRecords(events: seq<Event>, active: Option<ActiveNodes>)
    ensures LogRecords([], events, active) == []
  {
  }

  lemma OneRecordMore(ids: seq<Id>, id: Id, events: seq<Event>, active: Option<ActiveNodes>)
    ensures LogRecords(ids + [id], events, active) == LogRecords(ids, events, active) + [LogRecord(id, events, active)]
  {
    hide LogRecord;
  }

  lemma RecordFromFold(f: Fold, events: seq<Event>, active: Option<ActiveNodes>, id: Id)
    requires PayloadsFolded(f, Payloads(events)) && CommittedFolded(f, events)
    ensures LogRecord(id, events, active)
         == RecordOf(id, PayloadOf(f.nodesById, id), CommittedOf(f.committed, id),
                     if active.Some? && id in active.value.nodes then Some(active.value.nodes[id]) else None)
  {
    if id !in f.nodesById { NoPayload(Payloads(events), id); }
  }

  lemma {:induction false} NoPayload(payloads: seq<Payload>, id: Id)
    requires id !in PayloadIds(payloads)
    ensures LastPayload(payloads, id).None?
  {
    if payloads != [] { NoPayload(payloads[..|payloads| - 1], id); }
  }

  // ----- the synthesis -----

  datatype Listed = Listed(key: Id, entry: Entry)

  /** The fields of the result; `sourceTokens` is 0 and `indexedAt` absent where the source leaves them out. */
  datatype Telemetry = Telemetry(
    metadata: Fields,
    nodes: seq<Record>,
    appendHistory: seq<Listed>,
    indexedAt: Option<real>,
    sourceTokens: int,
    appendMetadata: Option<Fields>,
    chunkSplit: Fields)

  const FORMAT_VERSION: string := "4.3"

  /** `metadata`, with the format version filled in if it is missing. */
  function WithVersion(metadata: Fields): (r: Fields)
    ensures r.Keys == metadata.Keys + {"format_version"}
    ensures forall name :: name in metadata ==> r[name] == metadata[name]
    ensures "format_version" !in metadata ==> r["format_version"] == Scalar(FORMAT_VERSION)
  {
    if "format_version" in metadata then metadata else metadata["format_version" := Scalar(FORMAT_VERSION)]
  }

  /** What is reported of the last outcome: its totals and span, as far as they are there. */
  function AppendMetadata(outcome: Option<Outcome>): Option<Fields> {
    if outcome.None? then None
    else Some(map["scope" := Scalar("append")]
              + Present(outcome.value.fields,
                        ["mutated_nodes", "summary_nodes", "leaf_delta", "span_start", "span_end"]))
  }

  ghost predicate HasFinished(events: seq<Event>, key: Id) {
    LastEvent(events, key).Some? && !LastEvent(events, key).value.Started?
  }

  /** The entries of those keys whose last event ended them, in the order of `keys`. */
  ghost function Finished(events: seq<Event>, keys: seq<Id>): seq<Listed> {
    if keys == [] then [] else
      var key := keys[|keys| - 1];
      Finished(events, keys[..|keys| - 1])
          + (if HasFinished(events, key) then [Listed(key, EntryOf(events, key))] else [])
  }

  method OrderedHistory(f: Fold, ghost events: seq<Event>) returns (history: seq<Listed>)
    requires HistoryFolded(f, events)
    ensures history == Finished(events, FirstOccurrences(HistoryKeys(events)))
  {
    hide LastEvent;
    hide LastTime;
    history := [];
    for i := 0 to |f.order|
      invariant history == Finished(events, f.order[..i])
    {
      var key := f.order[i];
      assert f.order[..i + 1][..i] == f.order[..i];
      assert EntryFolded(f.history, events, key);
      if key in f.history && f.history[key].status != InProgress {
        history := history + [Listed(key, f.history[key])];
      }
    }
    assert f.order[..|f.order|] == f.order;
  }

  /** `indexedAt` and `sourceTokens` are those of the document's metadata, `metadata` its further fields. */
  method SynthesizeDocumentTelemetry(metadata: Fields, indexedAt: Option<real>, sourceTokens: int,
                                     events: seq<Event>, active: Option<ActiveNodes>)
    returns (r: Result<Telemetry>)
    requires active.Some? ==> ValidActive(active.value)
    ensures r.ValueError? <==> PayloadIds(Payloads(events)) == [] && LastOutcome(events).None?
    ensures r.Ok? ==>
              && r.value.appendHistory == Finished(events, FirstOccurrences(HistoryKeys(events)))
              && r.value.nodes == StableSort(ByCreation(), LogRecords(RecordedIds(events, active), events, active))
              && r.value.metadata == WithVersion(metadata)
              && r.value.indexedAt == OrElse(indexedAt, FirstStart(events))
              && IsMostTokens(r.value.sourceTokens, sourceTokens, events)
              && r.value.appendMetadata == AppendMetadata(LastOutcome(events))
              && r.value.chunkSplit
                   == (if LastOutcome(events).Some? then ChunkSplit(LastOutcome(events).value.fields) else map[])
  {
    hide WithVersion;
    hide AppendMetadata;
    hide ChunkSplit;
    var f := FoldEvents(indexedAt, sourceTokens, events);
    FirstOccurrencesMembers(PayloadIds(Payloads(events)));
    assert f.nodesById == map[] <==> PayloadIds(Payloads(events)) == [] by {
      if PayloadIds(Payloads(events)) != [] { assert PayloadIds(Payloads(events))[0] in f.nodesById; }
    }
    if f.nodesById == map[] && f.lastOutcome.None? {
      return ValueError("No completed telemetry events were recorded");
    }
    var records := MergeNodePayloads(f, active, events);
    var history := OrderedHistory(f, events);
    r := Ok(Telemetry(WithVersion(metadata), records, history, f.indexedAt, f.sourceTokens,
                      AppendMetadata(f.lastOutcome),
                      if f.lastOutcome.Some? then ChunkSplit(f.lastOutcome.value.fields) else map[]));
  }

  ghost predicate StartsFolded(f: Fold, indexedAt: Option<real>, sourceTokens: int, events: seq<Event>) {
    f.indexedAt == OrElse(indexedAt, FirstStart(events)) && IsMostTokens(f.sourceTokens, sourceTokens, events)
  }

  method EmptyFold(indexedAt: Option<real>, sourceTokens: int) returns (f: Fold)
    ensures HistoryFolded(f, []) && PayloadsFolded(f, Payloads([])) && CommittedFolded(f, [])
    ensures StartsFolded(f, indexedAt, sourceTokens, []) && f.lastOutcome == LastOutcome([])
  {
    f := Fold(map[], [], map[], [], map[], None, indexedAt, sourceTokens);
  }

  method FoldEvents(indexedAt: Option<real>, sourceTokens: int, events: seq<Event>) returns (f: Fold)
    ensures HistoryFolded(f, events) && PayloadsFolded(f, Payloads(events)) && CommittedFolded(f, events)
    ensures StartsFolded(f, indexedAt, sourceTokens, events) && f.lastOutcome == LastOutcome(events)
  {
    hide *;
    f := EmptyFold(indexedAt, sourceTokens);
    for i := 0 to |events|
      invariant HistoryFolded(f, events[..i]) && PayloadsFolded(f, Payloads(events[..i]))
                && CommittedFolded(f, events[..i])
      invariant StartsFolded(f, indexedAt, sourceTokens, events[..i]) && f.lastOutcome == LastOutcome(events[..i])
    {
      ApplyHistory(f, events[..i], events[i]);
      ApplyPayloads(f, events[..i], events[i]);
      ApplyCommitted(f, events[..i], events[i]);
      ApplyStart(f, indexedAt, sourceTokens, events[..i], events[i]);
      ApplyOutcome(f, events[..i], events[i]);
      assert events[..i + 1] == events[..i] + [events[i]];
      f := Apply(f, events[i]);
    }
    assert events[..|events|] == events;
  }

  lemma ApplyStart(f: Fold, indexedAt: Option<real>, sourceTokens: int, events: seq<Event>, e: Event)
    requires StartsFolded(f, indexedAt, sourceTokens, events)
    ensures StartsFolded(Apply(f, e), indexedAt, sourceTokens, events + [e])
  {
    var g, now := Apply(f, e), events + [e];
    assert now[..|events|] == events;
    if e.Completed? && HistoryKey(e).Some? && e.outcome.Some? { AddPayloadsKeeps(f, e.outcome.value.nodes); }
    assert !CountsAsStart(e) ==> g.sourceTokens == f.sourceTokens;
    hide Apply;
    if i :| 0 <= i < |events| && CountsAsStart(events[i]) && StartTokens(events[i]) == f.sourceTokens {
      assert now[i] == events[i];
    }
    assert now[|events|] == e;
  }

  lemma ApplyOutcome(f: Fold, events: seq<Event>, e: Event)
    requires f.lastOutcome == LastOutcome(events)
    ensures Apply(f, e).lastOutcome == LastOutcome(events + [e])
  {
    assert (events + [e])[..|events|] == events;
  }

  // ----- what the result says -----

  ghost function Keys(listed: seq<Listed>): seq<Id> {
    seq(|listed|, i requires 0 <= i < |listed| => listed[i].key)
  }

  /** What `Finished` gives for a list of keys. */
  ghost predicate IsFinished(r: seq<Listed>, events: seq<Event>, keys: seq<Id>) {
    && (forall x :: x in Keys(r) <==> x in keys && HasFinished(events, x))
    && Distinct(Keys(r))
    && (forall i :: 0 <= i < |r| ==> LastEvent(events, r[i].key).Some? && r[i].entry == EntryOf(events, r[i].key))
    && forall i, j :: 0 <= i < j < |r| ==> Before(keys, r[i].key, r[j].key)
  }

  lemma {:induction false} FinishedOf(events: seq<Event>, keys: seq<Id>)
    requires Distinct(keys)
    ensures IsFinished(Finished(events, keys), events, keys)
  {
    hide LastEvent;
    hide EntryOf;
    if keys != [] {
      var front, key := keys[..|keys| - 1], keys[|keys| - 1];
      FinishedOf(events, front);
      assert keys == front + [key] && key !in front;
      var before := Finished(events, front);
      assert Finished(events, keys) == if HasFinished(events, key) then before + [Listed(key, EntryOf(events, key))]
          else before + [];
      assert before + [] == before;
      hide Finished;
      FinishedMore(before, events, front, key);
    }
  }

  lemma FinishedMore(r: seq<Listed>, events: seq<Event>, front: seq<Id>, key: Id)
    requires IsFinished(r, events, front) && key !in front
    ensures HasFinished(events, key) ==> IsFinished(r + [Listed(key, EntryOf(events, key))], events, front + [key])
    ensures !HasFinished(events, key) ==> IsFinished(r, events, front + [key])
  {
    hide LastEvent;
    hide EntryOf;
    hide Before;
    forall i, j | 0 <= i < j < |r| ensures Before(front + [key], r[i].key, r[j].key) {
      BeforeInFront(front, key, r[i].key, r[j].key);
    }
    if HasFinished(events, key) {
      var more := r + [Listed(key, EntryOf(events, key))];
      assert Keys(more) == Keys(r) + [key];
      forall i | 0 <= i < |r| ensures Before(front + [key], r[i].key, key) {
        assert Keys(r)[i] == r[i].key && Keys(r)[i] in Keys(r);
        LastIsAfter(front, key, r[i].key);
      }
    }
  }

  lemma LastIsAfter(front: seq<Id>, last: Id, x: Id)
    requires x in front
    ensures Before(front + [last], x, last)
  {
    var p :| 0 <= p < |front| && front[p] == x;
    assert (front + [last])[p] == x && (front + [last])[|front|] == last;
  }

  lemma BeforeInFront(front: seq<Id>, last: Id, x: Id, y: Id)
    requires Before(front, x, y)
    ensures Before(front + [last], x, y)
  {
    var i, j :| 0 <= i < j < |front| && front[i] == x && front[j] == y;
    assert (front + [last])[i] == x && (front + [last])[j] == y;
  }

  lemma {:induction false} KeysAreHistory(events: seq<Event>)
    ensures forall x :: x in HistoryKeys(events) <==> x.name != "" && LastEvent(events, x).Some?
  {
    if events != [] {
      var front, e := events[..|events| - 1], events[|events| - 1];
      KeysAreHistory(front);
      assert events == front + [e];
      KeysMore(front, e);
      forall x ensures x in HistoryKeys(events) <==> x.name != "" && LastEvent(events, x).Some? {
        EventsMore(front, e, x);
      }
    }
  }

  /**
     The append history lists each non-empty key once, exactly when its last started, completed or failed
     event is not a start, in the order of the keys' first such events.
   */
  lemma HistoryMeaning(events: seq<Event>)
    ensures var r := Finished(events, FirstOccurrences(HistoryKeys(events)));
            && Distinct(Keys(r))
            && (forall x :: x in Keys(r) <==> x.name != "" && HasFinished(events, x))
            && (forall i :: 0 <= i < |r|
                  ==> LastEvent(events, r[i].key).Some? && r[i].entry == EntryOf(events, r[i].key))
            && forall i, j :: 0 <= i < j < |r| ==> SeenBefore(HistoryKeys(events), r[i].key, r[j].key)
  {
    var keys := FirstOccurrences(HistoryKeys(events));
    var r := Finished(events, keys);
    FirstOccurrencesMembers(HistoryKeys(events));
    KeysAreHistory(events);
    FinishedOf(events, keys);
    forall i, j | 0 <= i < j < |r| ensures SeenBefore(HistoryKeys(events), r[i].key, r[j].key) {
      FirstOccurrencesOrder(HistoryKeys(events), r[i].key, r[j].key);
    }
  }

  /** With active nodes there is one record for each of them, and the records are sorted by creation time. */
  lemma ActiveRecords(events: seq<Event>, active: ActiveNodes)
    requires ValidActive(active)
    ensures var records := StableSort(ByCreation(),
            LogRecords(RecordedIds(events, Some(active)), events, Some(active)));
            && |records| == |active.order|
            && (forall i, j :: 0 <= i < j < |records| ==> records[i].createdAt <= records[j].createdAt)
            && (forall x :: x in active.order ==> LogRecord(x, events, Some(active)) in records)
            && (forall i, j :: 0 <= i < j < |records| ==> records[i].nodeId != records[j].nodeId)
            && forall i :: 0 <= i < |records| ==> records[i].nodeId in active.order
  {
    var unsorted := LogRecords(active.order, events, Some(active));
    RecordIds(unsorted, events, active);
    SortSorts(ByCreation(), unsorted);
    SortDistinct(ByCreation(), unsorted);
    hide *;
    SortedRecords(unsorted, StableSort(ByCreation(), unsorted), active.order);
  }

  lemma SortedRecords(unsorted: seq<Record>, records: seq<Record>, ids: seq<Id>)
    requires Distinct(records) && |records| == |unsorted| && forall r :: r in records <==> r in unsorted
    requires Sorted(ByCreation(), records)
    requires forall i, j :: 0 <= i < j < |unsorted| ==> unsorted[i].nodeId != unsorted[j].nodeId
    requires forall r :: r in unsorted ==> r.nodeId in ids
    ensures forall i, j :: 0 <= i < j < |records| ==> records[i].createdAt <= records[j].createdAt
    ensures forall i, j :: 0 <= i < j < |records| ==> records[i].nodeId != records[j].nodeId
    ensures forall i :: 0 <= i < |records| ==> records[i].nodeId in ids
  {
    forall i, j | 0 <= i < j < |records|
      ensures records[i].createdAt <= records[j].createdAt && records[i].nodeId != records[j].nodeId {
      assert ByCreation()(records[i], records[j]);
      assert records[i] in unsorted && records[j] in unsorted;
    }
    forall i | 0 <= i < |records| ensures records[i].nodeId in ids {
      assert records[i] in unsorted;
    }
  }

  lemma RecordIds(unsorted: seq<Record>, events: seq<Event>, active: ActiveNodes)
    requires ValidActive(active) && unsorted == LogRecords(active.order, events, Some(active))
    ensures Distinct(unsorted) && forall i, j :: 0 <= i < j < |unsorted| ==> unsorted[i].nodeId != unsorted[j].nodeId
    ensures |unsorted| == |active.order| && forall r :: r in unsorted ==> r.nodeId in active.order
    ensures forall x :: x in active.order ==> LogRecord(x, events, Some(active)) in unsorted
    ensures RecordedIds(events, Some(active)) == active.order
  {
    forall i | 0 <= i < |unsorted| ensures unsorted[i].nodeId == active.order[i] {}
    hide LogRecord;
    forall x | x in active.order ensures LogRecord(x, events, Some(active)) in unsorted {
      var i :| 0 <= i < |active.order| && active.order[i] == x;
      assert unsorted[i] in unsorted;
    }
  }
}
