/**
 What synthesized telemetry (`ragzoom/telemetry_export.py`) says, in terms of the events of the log: which
 event decides each field of the append history, of the node records and of the append metadata.
 */
module TelemetryMeaning {
  import opened Options
  import opened Forest
  import opened TelemetryExport

  // ----- which events belong to an append -----

  /** A start, completion or failure of the append `key`: its append id, or failing that its run id. */
  ghost predicate BelongsTo(e: Event, key: Id) {
    && (e.Started? || e.Completed? || e.Failed?)
    && if e.appendId.Some? && e.appendId.value.name != "" then e.appendId.value == key else e.runId == Some(key)
  }

  lemma KeyMeaning(e: Event)
    ensures forall key :: BelongsTo(e, key) <==> HistoryKey(e) == Some(key)
    ensures HistoryKey(e).Some? <==> exists key :: BelongsTo(e, key)
  {
    if HistoryKey(e).Some? { assert BelongsTo(e, HistoryKey(e).value); }
  }

  /** No event of `key` from position `from` up to `to`, among those picked out. */
  ghost predicate NoneOf(events: seq<Event>, key: Id, pick: Event -> bool, from: int, to: int) {
    forall j :: 0 <= j < |events| && from <= j < to && BelongsTo(events[j], key) ==> !pick(events[j])
  }

  /** Event `i` is the last one of `key` among those picked out. */
  ghost predicate IsLast(events: seq<Event>, key: Id, pick: Event -> bool, i: int) {
    && 0 <= i < |events| && BelongsTo(events[i], key) && pick(events[i])
    && NoneOf(events, key, pick, i + 1, |events|)
  }

  ghost predicate IsFirst(events: seq<Event>, key: Id, i: int) {
    && 0 <= i < |events| && BelongsTo(events[i], key)
    && NoneOf(events, key, Any(), 0, i)
  }

  ghost function Any(): Event -> bool {
    (e: Event) => true
  }

  ghost function Starts(): Event -> bool {
    (e: Event) => e.Started?
  }

  ghost function Ends(): Event -> bool {
    (e: Event) => !e.Started?
  }

  // ----- status, times and run id of an entry -----

  /** The last event of an append decides its status. */
  lemma {:induction false} StatusMeaning(events: seq<Event>, key: Id, i: int)
    requires IsLast(events, key, Any(), i)
    ensures LastEvent(events, key) == Some(events[i])
    ensures EntryOf(events, key).status
         == if events[i].Started? then InProgress else if events[i].Completed? then Done else Broken
  {
    KeyMeaning(events[|events| - 1]);
    if i < |events| - 1 {
      Shorten(events, key, Any(), i);
      StatusMeaning(events[..|events| - 1], key, i);
    }
  }

  lemma Shorten(events: seq<Event>, key: Id, pick: Event -> bool, i: int)
    requires IsLast(events, key, pick, i) && i < |events| - 1
    ensures IsLast(events[..|events| - 1], key, pick, i) && events[..|events| - 1][i] == events[i]
    ensures BelongsTo(events[|events| - 1], key) ==> !pick(events[|events| - 1])
  {
  }

  /** The last start of an append gives the time it was started, its last end the time it was completed. */
  lemma {:induction false} TimeMeaning(events: seq<Event>, key: Id, start: bool, i: int)
    requires IsLast(events, key, if start then Starts() else Ends(), i)
    ensures LastTime(events, key, start) == events[i].timestamp
  {
    KeyMeaning(events[|events| - 1]);
    if i < |events| - 1 {
      Shorten(events, key, if start then Starts() else Ends(), i);
      TimeMeaning(events[..|events| - 1], key, start, i);
    }
  }

  lemma {:induction false} NoTime(events: seq<Event>, key: Id, start: bool)
    requires NoneOf(events, key, if start then Starts() else Ends(), 0, |events|)
    ensures LastTime(events, key, start) == None
  {
    if events != [] {
      KeyMeaning(events[|events| - 1]);
      DropLast(events, key, if start then Starts() else Ends());
      NoTime(events[..|events| - 1], key, start);
    }
  }

  lemma DropLast(events: seq<Event>, key: Id, pick: Event -> bool)
    requires events != [] && NoneOf(events, key, pick, 0, |events|)
    ensures NoneOf(events[..|events| - 1], key, pick, 0, |events| - 1)
    ensures BelongsTo(events[|events| - 1], key) ==> !pick(events[|events| - 1])
  {
  }

  lemma {:induction false} NoEvent(events: seq<Event>, key: Id)
    requires NoneOf(events, key, Any(), 0, |events|)
    ensures LastEvent(events, key) == None
  {
    if events != [] {
      KeyMeaning(events[|events| - 1]);
      DropLast(events, key, Any());
      NoEvent(events[..|events| - 1], key);
    }
  }

  /** The first event of an append gives the run id. */
  lemma {:induction false} RunIdMeaning(events: seq<Event>, key: Id, i: int)
    requires IsFirst(events, key, i)
    ensures LastEvent(events, key).Some? && OpenedWith(events, key) == events[i].runId
  {
    var front := events[..|events| - 1];
    KeyMeaning(events[|events| - 1]);
    assert forall j :: 0 <= j < |front| ==> front[j] == events[j];
    if i < |events| - 1 {
      RunIdMeaning(front, key, i);
    } else {
      NoEvent(front, key);
    }
  }

  /** An entry of the append history in the events of its append. */
  lemma EntryMeaning(events: seq<Event>, key: Id, first: int, last: int, started: int, ended: int)
    requires IsFirst(events, key, first) && IsLast(events, key, Any(), last)
    ensures LastEvent(events, key).Some?
    ensures var entry := EntryOf(events, key);
            && entry.runId == events[first].runId
            && entry.status
               == (if events[last].Started? then InProgress else if events[last].Completed? then Done else Broken)
            && (IsLast(events, key, Starts(), started) ==> entry.startedAt == events[started].timestamp)
            && (NoneOf(events, key, Starts(), 0, |events|) ==> entry.startedAt == None)
            && (IsLast(events, key, Ends(), ended) ==> entry.completedAt == events[ended].timestamp)
            && (NoneOf(events, key, Ends(), 0, |events|) ==> entry.completedAt == None)
  {
    RunIdMeaning(events, key, first);
    StatusMeaning(events, key, last);
    hide *;
    EntryParts(events, key);
    if IsLast(events, key, Starts(), started) { TimeMeaning(events, key, true, started); }
    if NoneOf(events, key, Starts(), 0, |events|) { NoTime(events, key, true); }
    if IsLast(events, key, Ends(), ended) { TimeMeaning(events, key, false, ended); }
    if NoneOf(events, key, Ends(), 0, |events|) { NoTime(events, key, false); }
  }

  lemma EntryParts(events: seq<Event>, key: Id)
    requires LastEvent(events, key).Some?
    ensures var entry := EntryOf(events, key);
            && entry.runId == OpenedWith(events, key)
            && entry.startedAt == LastTime(events, key, true) && entry.completedAt == LastTime(events, key, false)
            && entry.fields == FieldsOf(events, key)
  {
  }

  // ----- the further fields of an entry -----

  /** A field of the outcome of a completion, `Null` if it is missing. */
  ghost function Reported(e: Event, name: string): Json
    requires e.Completed?
  {
    if e.outcome.Some? && name in e.outcome.value.fields then e.outcome.value.fields[name] else Null
  }

  /** A field of a history event itself. */
  ghost function Given(e: Event, name: string): Json
    requires e.Started? || e.Completed? || e.Failed?
  {
    if name in e.fields then e.fields[name] else Null
  }

  const TOTALS: set<string> := {"mutated_nodes", "new_leaves", "leaf_delta", "summary_nodes"}

  /** Which events set a field of their entry: some always, some only if they have something to report. */
  ghost predicate Sets(e: Event, name: string) {
    || (e.Started? && (name == "replace_existing" || name == "source_tokens"))
    || (e.Completed? && (name == "duration" || name in TOTALS))
    || (e.Completed? && (name == "span_start" || name == "span_end") && Reported(e, name) != Null)
    || (e.Completed? && name == "chunk_split" && Reported(e, name).Object? && Reported(e, name).members != map[])
    || (e.Failed? && (name == "duration" || name == "error"))
  }

  /** And to what: totals, spans and the chunk split come from the outcome, the rest from the event. */
  ghost function SetTo(e: Event, name: string): Json
    requires Sets(e, name)
  {
    if name == "replace_existing" then Scalar(if e.replaceExisting then "True" else "False")
    else if name == "source_tokens" || name == "duration" || name == "error" then Given(e, name)
    else Reported(e, name)
  }

  lemma WrittenMeaning(e: Event, name: string)
    requires e.Started? || e.Completed? || e.Failed?
    ensures name in Written(e) <==> Sets(e, name)
    ensures Sets(e, name) ==> Written(e)[name] == SetTo(e, name)
  {
    if e.Completed? { WrittenByCompletion(e, name); }
  }

  lemma WrittenByCompletion(e: Event, name: string)
    requires e.Completed?
    ensures name in Written(e) <==> Sets(e, name)
    ensures Sets(e, name) ==> Written(e)[name] == SetTo(e, name)
  {
    var o := OutcomeFields(e);
    assert Get(o, name) == Reported(e, name) && Get(e.fields, name) == Given(e, name);
    TotalsPart(e.fields, o, name);
    SpanPart(o, name);
    SplitPart(o, name);
    hide Totals;
    hide Present;
    hide ChunkSplit;
    hide Reported;
    hide Given;
    hide Get;
  }

  lemma TotalsPart(fields: Fields, o: Fields, name: string)
    ensures name in Totals(fields, o) <==> name == "duration" || name in TOTALS
    ensures name in TOTALS ==> Totals(fields, o)[name] == Get(o, name)
    ensures name == "duration" ==> name !in TOTALS && Totals(fields, o)[name] == Get(fields, name)
  {
    hide Get;
  }

  lemma SpanPart(o: Fields, name: string)
    ensures var span := Present(o, ["span_start", "span_end"]);
            && (name in span <==> (name == "span_start" || name == "span_end") && Get(o, name) != Null)
            && (name in span ==> span[name] == Get(o, name) && name !in TOTALS && name != "duration")
  {
    hide Get;
  }

  lemma SplitPart(o: Fields, name: string)
    ensures var split, value := ChunkSplit(o), Get(o, name);
            && (name in split <==> name == "chunk_split" && value.Object? && value.members != map[])
            && (name in split ==> split[name] == value && name !in TOTALS && name != "duration")
  {
    hide Get;
  }

  ghost function Setters(name: string): Event -> bool {
    (e: Event) => Sets(e, name)
  }

  /** An entry holds what the last event of its append that sets the field has set it to. */
  lemma {:induction false} FieldIsSet(events: seq<Event>, key: Id, name: string, i: int)
    requires IsLast(events, key, Setters(name), i)
    ensures name in FieldsOf(events, key) && FieldsOf(events, key)[name] == SetTo(events[i], name)
  {
    var e := events[|events| - 1];
    KeyMeaning(e);
    if BelongsTo(e, key) { WrittenMeaning(e, name); }
    hide Sets;
    hide Written;
    if i < |events| - 1 {
      Shorten(events, key, Setters(name), i);
      FieldIsSet(events[..|events| - 1], key, name, i);
    }
  }

  /** And it has no field that none of them sets. */
  lemma {:induction false} FieldIsMissing(events: seq<Event>, key: Id, name: string)
    requires NoneOf(events, key, Setters(name), 0, |events|)
    ensures name !in FieldsOf(events, key)
  {
    if events != [] {
      var e := events[|events| - 1];
      KeyMeaning(e);
      if BelongsTo(e, key) { WrittenMeaning(e, name); }
      hide Sets;
      hide Written;
      DropLast(events, key, Setters(name));
      FieldIsMissing(events[..|events| - 1], key, name);
    }
  }

  /** The totals of an entry are those of the last completion of its append, under the same names. */
  lemma TotalsMeaning(events: seq<Event>, key: Id, i: int)
    requires 0 <= i < |events| && events[i].Completed? && BelongsTo(events[i], key)
    requires forall j :: i < j < |events| && BelongsTo(events[j], key) ==> !events[j].Completed?
    ensures forall name :: name in {"mutated_nodes", "new_leaves", "leaf_delta", "summary_nodes"} ==>
              && name in FieldsOf(events, key)
              && FieldsOf(events, key)[name]
                 == if events[i].outcome.Some? && name in events[i].outcome.value.fields
                    then events[i].outcome.value.fields[name] else Null
  {
    forall name | name in {"mutated_nodes", "new_leaves", "leaf_delta", "summary_nodes"}
      ensures name in FieldsOf(events, key) && FieldsOf(events, key)[name] == Reported(events[i], name) {
      assert name in TOTALS;
      assert IsLast(events, key, Setters(name), i);
      FieldIsSet(events, key, name, i);
    }
  }

  // ----- the indexing time -----

  /** A start that belongs to some append and has a timestamp. */
  ghost predicate TimedStart(e: Event) {
    e.Started? && e.timestamp.Some? && exists key :: BelongsTo(e, key)
  }

  /** The first timed start of the log gives the time of indexing. */
  lemma {:induction false} FirstStartMeaning(events: seq<Event>, i: int)
    requires forall j :: 0 <= j < i && j < |events| ==> !TimedStart(events[j])
    requires 0 <= i < |events| && TimedStart(events[i])
    ensures FirstStart(events) == events[i].timestamp
  {
    var front, e := events[..|events| - 1], events[|events| - 1];
    KeyMeaning(e);
    assert forall j :: 0 <= j < |front| ==> front[j] == events[j];
    hide TimedStart;
    if i < |events| - 1 { FirstStartMeaning(front, i); } else { NoStart(front); }
  }

  lemma {:induction false} NoStart(events: seq<Event>)
    requires forall j :: 0 <= j < |events| ==> !TimedStart(events[j])
    ensures FirstStart(events) == None
  {
    if events != [] {
      KeyMeaning(events[|events| - 1]);
      assert !TimedStart(events[|events| - 1]);
      NoStart(events[..|events| - 1]);
    }
  }

  // ----- the records -----

  /** The first commit of a node with a timestamp gives the committed time. */
  lemma {:induction false} CommittedTimeMeaning(events: seq<Event>, id: Id, i: int)
    requires forall j :: 0 <= j < i && j < |events| ==> !TimedCommit(events[j], id)
    requires 0 <= i < |events| && TimedCommit(events[i], id)
    ensures CommittedTime(events, id) == events[i].timestamp
  {
    var front := events[..|events| - 1];
    assert forall j :: 0 <= j < |front| ==> front[j] == events[j];
    if i < |events| - 1 { CommittedTimeMeaning(front, id, i); } else { NoCommit(front, id); }
  }

  ghost predicate TimedCommit(e: Event, id: Id) {
    e.NodeCommitted? && e.nodeId == Some(id) && e.timestamp.Some?
  }

  lemma {:induction false} NoCommit(events: seq<Event>, id: Id)
    requires forall j :: 0 <= j < |events| ==> !TimedCommit(events[j], id)
    ensures CommittedTime(events, id) == None
  {
    if events != [] {
      assert !TimedCommit(events[|events| - 1], id);
      NoCommit(events[..|events| - 1], id);
    }
  }

  ghost function ActiveOf(active: Option<ActiveNodes>, id: Id): Active {
    if active.Some? && id in active.value.nodes then active.value.nodes[id] else Active(None, None)
  }

  /** The last payload of a node, or one without any fields. */
  ghost function PayloadOr(events: seq<Event>, id: Id): Payload {
    var payload := LastPayload(Payloads(events), id);
    if payload.Some? then payload.value else Payload(Some(id), None, None, None, map[])
  }

  /**
     A record takes height and span from the active node, failing that from the commits, failing that from
     the last payload; the creation time from the payload, failing that from the commits; and the further
     fields from the payload. A missing height or creation time counts as zero.
   */
  lemma RecordMeaning(id: Id, events: seq<Event>, active: Option<ActiveNodes>)
    ensures var r, now, base := LogRecord(id, events, active), ActiveOf(active, id), PayloadOr(events, id);
            && r.nodeId == id && r.fields == base.fields
            && (now.height.Some? ==> r.height == now.height.value)
            && (now.height.None? && CommittedHeight(events, id).Some? ==> r.height == CommittedHeight(events, id).value)
            && (now.height.None? && CommittedHeight(events, id).None? ==>
                  r.height == if base.height.Some? then base.height.value else 0)
            && (now.span.Some? ==> r.span == now.span)
            && (now.span.None? && CommittedSpan(events, id).Some? ==> r.span == CommittedSpan(events, id))
            && (now.span.None? && CommittedSpan(events, id).None? ==> r.span == base.span)
            && (base.createdAt.Some? ==> r.createdAt == base.createdAt.value)
            && (base.createdAt.None? && CommittedTime(events, id).Some? ==>
                  r.createdAt == CommittedTime(events, id).value)
            && (base.createdAt.None? && CommittedTime(events, id).None? ==> r.createdAt == 0.0)
  {
  }

  // ----- the metadata of the last append -----

  /** What is reported of the last outcome: of its totals and its span what is there and not `None`. */
  lemma AppendMetadataMeaning(outcome: Outcome, name: string)
    ensures AppendMetadata(None) == None && AppendMetadata(Some(outcome)).Some?
    ensures var reported, fields := AppendMetadata(Some(outcome)).value, outcome.fields;
            && "scope" in reported && (reported["scope"] == Scalar("append"))
            && (name in reported <==>
                  || name == "scope"
                  || (name in {"mutated_nodes", "summary_nodes", "leaf_delta", "span_start", "span_end"}
                      && name in fields && fields[name] != Null))
            && (name in reported && name != "scope" ==> reported[name] == fields[name])
  {
  }

  /** The chunk split of an outcome is reported when it is an object with something in it. */
  lemma ChunkSplitMeaning(fields: Fields, name: string)
    ensures var split := "chunk_split";
            && (name in ChunkSplit(fields) <==>
                  name == split && split in fields && fields[split].Object? && fields[split].members != map[])
            && (name in ChunkSplit(fields) ==> ChunkSplit(fields)[name] == fields[name])
  {
  }
}
