/** The deterministic parts of `AIModelLogAnalyzer` in
    core/plans/dataset_log_analyzer.py: the list guard on a decoded LLM
    reply, the reassembly of per-chunk results into index order followed by
    de-duplication, and the count summary over the grouped tags. */
module DatasetLogAnalyzer {
  import opened Wrappers
  import opened TagRecords
  import opened JsonCleanup

  // ---------------------------------------------------------------------
  // One chunk

  /** `_process_log_chunk`: clean the reply, decode it, and keep it only when
      it is a JSON array; a failed call, a reply that does not decode and a
      reply that decodes to anything but an array all give `[]`. */
  function ProcessLogChunk(reply: Reply, decode: string -> Decoded): (r: seq<Record>)
    ensures r != [] ==> reply.Replied? && decode(CleanJsonString(reply.text)) == Decoded(JsonArray(r))
    ensures reply.Replied? && decode(CleanJsonString(reply.text)).Decoded?
            && decode(CleanJsonString(reply.text)).value.JsonArray? ==>
              r == decode(CleanJsonString(reply.text)).value.items
  {
    match reply
    case CallFailed => []
    case Replied(text) =>
      match decode(CleanJsonString(text))
      case DecodeError => []
      case Decoded(v) => if v.JsonArray? then v.items else []
  }

  // ---------------------------------------------------------------------
  // Reassembly

  /** The list each chunk contributes, in chunk-index order. */
  function ChunkTags<C>(chunks: seq<C>, reply: C -> Reply, decode: string -> Decoded): seq<seq<Record>> {
    seq(|chunks|, i requires 0 <= i < |chunks| => ProcessLogChunk(reply(chunks[i]), decode))
  }

  /** The flattening of the slot array, skipping slots still holding `None`
      (the `if results` of the comprehension). */
  function Gather(slots: seq<Option<seq<Record>>>): seq<Record>
    decreases |slots|
  {
    if slots == [] then []
    else
      var last := slots[|slots| - 1];
      Gather(slots[..|slots| - 1]) + if last.Some? then last.value else []
  }

  /** Once every slot is filled, gathering is plain flattening. */
  lemma {:induction false} GatherFilled(slots: seq<Option<seq<Record>>>, xs: seq<seq<Record>>)
    requires |slots| == |xs|
    requires forall i :: 0 <= i < |slots| ==> slots[i] == Some(xs[i])
    ensures Gather(slots) == Concat(xs)
    decreases |slots|
  {
    if slots != [] {
      GatherFilled(slots[..|slots| - 1], xs[..|xs| - 1]);
    }
  }

  /** `_extract_log_tags`: the futures complete in `order`; each result is
      stored in the slot of its own chunk index, the slots are flattened in
      index order, and the result is de-duplicated.  The outcome does not
      depend on the completion order. */
  method ExtractLogTags<C>(chunks: seq<C>, reply: C -> Reply, decode: string -> Decoded, order: seq<nat>)
    returns (uniqueResults: seq<Record>)
    requires CompletionOrder(order, |chunks|)
    ensures uniqueResults == Unique(Concat(ChunkTags(chunks, reply, decode)))
  {
    var allResults := new Option<seq<Record>>[|chunks|](_ => None);
    for k := 0 to |order|
      invariant forall i :: 0 <= i < allResults.Length ==>
        allResults[i] == if i in order[..k] then Some(ProcessLogChunk(reply(chunks[i]), decode)) else None
    {
      var chunkIndex := order[k];
      var chunkResults := ProcessLogChunk(reply(chunks[chunkIndex]), decode);
      assert order[..k + 1] == order[..k] + [chunkIndex];
      // `chunk_results or []` is `chunk_results` itself for a list
      allResults[chunkIndex] := Some(chunkResults);
    }
    assert order[..|order|] == order;
    var tags := ChunkTags(chunks, reply, decode);
    GatherFilled(allResults[..], tags);
    var flat := Gather(allResults[..]);
    uniqueResults := DeduplicateResults(flat);
  }

  /** What the extracted list holds: every record in it comes from some
      chunk's reply, no two share a key, and every key any chunk produced is
      present. */
  lemma ExtractedTagsComeFromChunks<C>(chunks: seq<C>, reply: C -> Reply, decode: string -> Decoded, x: Record)
    ensures x in Unique(Concat(ChunkTags(chunks, reply, decode))) ==>
      exists i :: 0 <= i < |chunks| && x in ProcessLogChunk(reply(chunks[i]), decode)
    ensures DistinctKeys(Unique(Concat(ChunkTags(chunks, reply, decode))))
    ensures KeysOf(Unique(Concat(ChunkTags(chunks, reply, decode)))) == KeysOf(Concat(ChunkTags(chunks, reply, decode)))
  {
    var xs := ChunkTags(chunks, reply, decode);
    var u := Unique(Concat(xs));
    UniqueKeysAreDistinct(Concat(xs));
    UniqueKeepsEveryKey(Concat(xs));
    if x in u {
      var j :| 0 <= j < |u| && u[j] == x;
      UniqueKeepsFirsts(Concat(xs));
      assert x in Concat(xs);
      ConcatMembers(xs, x);
    }
  }

  // ---------------------------------------------------------------------
  // Summary

  /** The five tag types the summary reports on by name. */
  const PerformanceType: string := "\U{6027}\U{80FD}\U{6307}\U{6807}"
  const ErrorType: string := "\U{9519}\U{8BEF}"
  const RequestType: string := "\U{8BF7}\U{6C42}"
  const CostType: string := "\U{6210}\U{672C}"
  const ResourceType: string := "\U{8D44}\U{6E90}"

  /** The summary dict without its `timestamp` entry; an optional key that
      `_generate_summary` does not set is `None`.  The `tag_counts` dict
      iterates in group insertion order, which a map does not record; that
      order is the one `tagTypes` keeps. */
  datatype Summary = Summary(
    totalTags: nat,
    tagTypes: seq<string>,
    tagCounts: map<string, nat>,
    performanceMetrics: Option<nat>,
    errorCount: Option<nat>,
    requestCount: Option<nat>,
    costMetrics: Option<nat>,
    resourceMetrics: Option<nat>)

  /** The sum of a count map over a list of its keys. */
  function SumCounts(keys: seq<string>, counts: map<string, nat>): nat
    requires forall k :: k in keys ==> k in counts
    decreases |keys|
  {
    if keys == [] then 0
    else SumCounts(keys[..|keys| - 1], counts) + counts[keys[|keys| - 1]]
  }

  /** The entry `summary[name] = len(grouped_tags[k])`, set only when `k` is
      a group. */
  predicate ReportsGroup(m: Option<nat>, g: Groups, k: string) {
    && (m.Some? <==> k in g.members)
    && (m.Some? ==> m.value == |g.members[k]|)
  }

  function Metric(g: Groups, k: string): Option<nat> {
    if k in g.members then Some(|g.members[k]|) else None
  }

  /** `_generate_summary`: the total is the sum of the group sizes, the
      types are the group keys in insertion order, and each named type gets
      its count exactly when it has a group. */
  function GenerateSummary(g: Groups): (s: Summary)
    requires WellFormed(g)
    ensures s.tagTypes == g.keys
    ensures forall k :: k in s.tagCounts <==> k in g.members
    ensures forall k :: k in s.tagCounts ==> s.tagCounts[k] == |g.members[k]|
    ensures s.totalTags == SumCounts(s.tagTypes, s.tagCounts)
    ensures ReportsGroup(s.performanceMetrics, g, PerformanceType)
    ensures ReportsGroup(s.errorCount, g, ErrorType)
    ensures ReportsGroup(s.requestCount, g, RequestType)
    ensures ReportsGroup(s.costMetrics, g, CostType)
    ensures ReportsGroup(s.resourceMetrics, g, ResourceType)
  {
    var counts := map k | k in g.members :: |g.members[k]|;
    SumCountsOfSizes(g.keys, g.members, counts);
    Summary(
      GroupSizes(g.keys, g.members),
      g.keys,
      counts,
      Metric(g, PerformanceType),
      Metric(g, ErrorType),
      Metric(g, RequestType),
      Metric(g, CostType),
      Metric(g, ResourceType))
  }

  lemma {:induction false} SumCountsOfSizes(keys: seq<string>, members: map<string, seq<Record>>, counts: map<string, nat>)
    requires forall k :: k in keys ==> k in members && k in counts && counts[k] == |members[k]|
    ensures SumCounts(keys, counts) == GroupSizes(keys, members)
    decreases |keys|
  {
    if keys != [] {
      SumCountsOfSizes(keys[..|keys| - 1], members, counts);
    }
  }

  /** A truthy type has a group exactly when some tag carries it. */
  lemma HasGroupIffTagged(tags: seq<Record>, k: string)
    requires IsTruthy(Some(k))
    ensures k in GroupsOf(tags).members <==> exists i :: 0 <= i < |tags| && tags[i].tagType == Some(k)
  {
    GroupKeysHaveTags(tags, k);
    if OfType(tags, k) != [] {
      var x := OfType(tags, k)[0];
      OfTypeMembers(tags, k, x);
      var i :| 0 <= i < |tags| && tags[i] == x;
    }
    if exists i :: 0 <= i < |tags| && tags[i].tagType == Some(k) {
      var i :| 0 <= i < |tags| && tags[i].tagType == Some(k);
      OfTypeMembers(tags, k, tags[i]);
    }
  }

  /** The summary of the grouping of a tag list, in terms of the tags: the
      total counts exactly the tags with a truthy type, every listed type
      has at least one tag, and `error_count` is present exactly when some
      tag has type '错误', and then counts those tags. */
  lemma SummaryOfTags(tags: seq<Record>)
    ensures WellFormed(GroupsOf(tags))
    ensures GenerateSummary(GroupsOf(tags)).totalTags == |TypedTags(tags)|
    ensures GenerateSummary(GroupsOf(tags)).tagTypes == GroupKeys(tags)
    ensures forall k :: k in GenerateSummary(GroupsOf(tags)).tagCounts ==>
      GenerateSummary(GroupsOf(tags)).tagCounts[k] == |OfType(tags, k)| > 0
    ensures GenerateSummary(GroupsOf(tags)).errorCount.Some? <==>
      exists i :: 0 <= i < |tags| && tags[i].tagType == Some(ErrorType)
    ensures GenerateSummary(GroupsOf(tags)).errorCount.Some? ==>
      GenerateSummary(GroupsOf(tags)).errorCount.value == |OfType(tags, ErrorType)|
  {
    GroupingIsByType(tags);
    var g := GroupsOf(tags);
    var s := GenerateSummary(g);
    GroupSizesCountTypedTags(tags);
    SumCountsOfSizes(g.keys, g.members, s.tagCounts);
    HasGroupIffTagged(tags, ErrorType);
  }
}
