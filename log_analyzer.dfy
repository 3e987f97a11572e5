/** The deterministic parts of `AIModelLogAnalyzer` in
    core/plans/log_analyzer.py.  Unlike its twin in dataset_log_analyzer.py,
    its `_process_log_chunk` returns whatever the reply decodes to, with no
    list guard, so the reassembly can meet a value that is not a list of tag
    objects and then raises. */
module LogAnalyzer {
  import opened Wrappers
  import opened TagRecords
  import opened JsonCleanup
  import DatasetLogAnalyzer

  /** Python truthiness of a decoded value. */
  predicate Truthy(v: JsonValue) {
    if v.JsonArray? then v.items != [] else v.truthy
  }

  /** A value `[r for r in results]` cannot turn into tag records: a
      non-empty object or string (whose keys or characters reach
      `_deduplicate_results`, where `.get` fails) or a truthy number or
      boolean (which is not iterable). */
  predicate NotTagList(v: JsonValue) {
    v.JsonOther? && v.truthy
  }

  /** `_process_log_chunk`: the decoded reply as it is; a failed call or a
      reply that does not decode gives `[]`. */
  function ProcessLogChunk(reply: Reply, decode: string -> Decoded): (r: JsonValue)
    ensures reply.Replied? && decode(CleanJsonString(reply.text)).Decoded? ==>
      r == decode(CleanJsonString(reply.text)).value
    ensures !(reply.Replied? && decode(CleanJsonString(reply.text)).Decoded?) ==> r == JsonArray([])
  {
    match reply
    case CallFailed => JsonArray([])
    case Replied(text) =>
      match decode(CleanJsonString(text))
      case DecodeError => JsonArray([])
      case Decoded(v) => v
  }

  /** The two versions of `_process_log_chunk` differ exactly by the list
      guard: the guarded one keeps the unguarded result when it is an array
      and gives `[]` otherwise. */
  lemma ListGuardIsTheOnlyDifference(reply: Reply, decode: string -> Decoded)
    ensures DatasetLogAnalyzer.ProcessLogChunk(reply, decode) ==
      if ProcessLogChunk(reply, decode).JsonArray? then ProcessLogChunk(reply, decode).items else []
  {
  }

  /** The records of a decoded array; any other value contributes none. */
  function ArrayItems(v: JsonValue): seq<Record> {
    if v.JsonArray? then v.items else []
  }

  /** `chunk_results or []`: a falsy value becomes `[]`, which changes
      neither the records the slot contributes nor whether it raises. */
  function OrEmpty(v: JsonValue): (r: JsonValue)
    ensures Truthy(v) ==> r == v
    ensures !Truthy(v) ==> r == JsonArray([])
    ensures ArrayItems(r) == ArrayItems(v) && (NotTagList(r) <==> NotTagList(v))
  {
    if Truthy(v) then v else JsonArray([])
  }

  /** The value each chunk produced, in chunk-index order. */
  function ChunkValues<C>(chunks: seq<C>, reply: C -> Reply, decode: string -> Decoded): seq<JsonValue> {
    seq(|chunks|, i requires 0 <= i < |chunks| => ProcessLogChunk(reply(chunks[i]), decode))
  }

  /** The list each value contributes, in chunk-index order. */
  function ChunkLists(vs: seq<JsonValue>): seq<seq<Record>> {
    seq(|vs|, i requires 0 <= i < |vs| => ArrayItems(vs[i]))
  }

  /** The condition under which the flattening and de-duplication raise. */
  ghost predicate SomeNotTagList(vs: seq<JsonValue>) {
    exists i :: 0 <= i < |vs| && NotTagList(vs[i])
  }

  /** The exception that reaches the caller of `_extract_log_tags`. */
  datatype Raised = Raised

  /** The flattening of the slot array: slots still holding `None` are
      skipped, a list contributes its items, and a truthy value of any other
      kind makes the step raise. */
  function Gather(slots: seq<Option<JsonValue>>): Result<seq<Record>, Raised>
    decreases |slots|
  {
    if slots == [] then Ok([])
    else
      var last := slots[|slots| - 1];
      match Gather(slots[..|slots| - 1])
      case Err(e) => Err(e)
      case Ok(flat) =>
        if last.None? then Ok(flat)
        else if last.value.JsonArray? then Ok(flat + last.value.items)
        else if last.value.truthy then Err(Raised)
        else Ok(flat)
  }

  lemma {:induction false} GatherFilled(slots: seq<Option<JsonValue>>, vs: seq<JsonValue>)
    requires |slots| == |vs|
    requires forall i :: 0 <= i < |slots| ==> slots[i] == Some(OrEmpty(vs[i]))
    ensures Gather(slots).Err? <==> SomeNotTagList(vs)
    ensures Gather(slots).Ok? ==> Gather(slots).value == Concat(ChunkLists(vs))
    decreases |slots|
  {
    if slots != [] {
      var n := |slots|;
      var vi := vs[..n - 1];
      GatherFilled(slots[..n - 1], vi);
      assert ChunkLists(vs)[..n - 1] == ChunkLists(vi);
      if SomeNotTagList(vi) {
        var i :| 0 <= i < |vi| && NotTagList(vi[i]);
        assert vs[i] == vi[i];
      }
      if SomeNotTagList(vs) && !NotTagList(vs[n - 1]) {
        var i :| 0 <= i < |vs| && NotTagList(vs[i]);
        assert vi[i] == vs[i];
      }
      if NotTagList(vs[n - 1]) {
        assert 0 <= n - 1 < |vs| && NotTagList(vs[n - 1]);
      }
    }
  }

  /** `_extract_log_tags`: the futures complete in `order`; each value, or
      `[]` when it is falsy, is stored in the slot of its own chunk index;
      the slots are flattened in index order and de-duplicated.  This raises
      exactly when some chunk produced a truthy value that is not a list, and
      otherwise gives the de-duplicated tags of all chunks in index order,
      whatever the completion order. */
  method ExtractLogTags<C>(chunks: seq<C>, reply: C -> Reply, decode: string -> Decoded, order: seq<nat>)
    returns (r: Result<seq<Record>, Raised>)
    requires CompletionOrder(order, |chunks|)
    ensures r.Err? <==> SomeNotTagList(ChunkValues(chunks, reply, decode))
    ensures r.Ok? ==> r.value == Unique(Concat(ChunkLists(ChunkValues(chunks, reply, decode))))
  {
    var allResults := new Option<JsonValue>[|chunks|](_ => None);
    for k := 0 to |order|
      invariant forall i :: 0 <= i < allResults.Length ==>
        allResults[i] == if i in order[..k] then Some(OrEmpty(ProcessLogChunk(reply(chunks[i]), decode))) else None
    {
      var chunkIndex := order[k];
      var chunkResults := ProcessLogChunk(reply(chunks[chunkIndex]), decode);
      assert order[..k + 1] == order[..k] + [chunkIndex];
      allResults[chunkIndex] := Some(OrEmpty(chunkResults));
    }
    assert order[..|order|] == order;
    var vs := ChunkValues(chunks, reply, decode);
    GatherFilled(allResults[..], vs);
    var flat := Gather(allResults[..]);
    if flat.Err? {
      return Err(Raised);
    }
    var uniqueResults := DeduplicateResults(flat.value);
    r := Ok(uniqueResults);
  }

  /** Where the unguarded version does not raise, it extracts the same tags
      as the guarded one: the lists it flattens are the guarded results. */
  lemma AgreesWithGuardedVersion<C>(chunks: seq<C>, reply: C -> Reply, decode: string -> Decoded)
    ensures ChunkLists(ChunkValues(chunks, reply, decode)) ==
      DatasetLogAnalyzer.ChunkTags(chunks, reply, decode)
  {
    var xs := ChunkLists(ChunkValues(chunks, reply, decode));
    var ys := DatasetLogAnalyzer.ChunkTags(chunks, reply, decode);
    forall i | 0 <= i < |chunks| ensures xs[i] == ys[i] {
      ListGuardIsTheOnlyDifference(reply(chunks[i]), decode);
    }
  }

  // ---------------------------------------------------------------------
  // analyze_logs

  /** The report: `{}` when there is nothing to analyse, otherwise the
      grouped tags it is built from.  The steps after grouping (the summary,
      the per-type LLM analyses and the plots) are not modelled. */
  datatype Report = EmptyReport | Analysed(grouped: Groups)

  /** `analyze_logs` after its file check and split, up to
      `_group_tags_by_type`: with no chunks it returns `{}` at once;
      otherwise it extracts, de-duplicates and groups the tags, and raises
      when extraction raises. */
  method AnalyzeLogs<C>(chunks: seq<C>, reply: C -> Reply, decode: string -> Decoded, order: seq<nat>)
    returns (r: Result<Report, Raised>)
    requires CompletionOrder(order, |chunks|)
    ensures r == Ok(EmptyReport) <==> chunks == []
    ensures chunks != [] ==> (r.Err? <==> SomeNotTagList(ChunkValues(chunks, reply, decode)))
    ensures r.Ok? && chunks != [] ==>
      r.value == Analysed(GroupsOf(Unique(Concat(ChunkLists(ChunkValues(chunks, reply, decode))))))
  {
    if chunks == [] {
      return Ok(EmptyReport);
    }
    var logTags := ExtractLogTags(chunks, reply, decode, order);
    if logTags.Err? {
      return Err(logTags.error);
    }
    var grouped := GroupTagsByType(logTags.value);
    r := Ok(Analysed(grouped));
  }
}
