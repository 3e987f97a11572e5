/** The deterministic parts of `BaseProcessor`: the token-budgeted batching
    of a parsed document (`split_doc_to_batches`), the success filter of
    `get_all_chunks`, and the configuration decisions `create_knowledge_base`
    makes before it calls the knowledge-base SDK.

    The SDK pieces are parameters: the markdown rendering of an element
    (`doc_element_to_markdown(mode='original')`), the token counter, the
    chunk listing of the knowledge base and the parsed configuration file. */
module BaseProcessor {
  import opened Wrappers

  // ---------------------------------------------------------------------
  // split_doc_to_batches

  /** A parsed document element: its id, the `.value` of its type, and the
      rest of it, which only the markdown renderer looks at. */
  datatype DocElement<P> = DocElement(id: string, typeValue: string, payload: P)

  /** One entry of a batch, the dict `{'id', 'type', 'content'}`. */
  datatype BatchItem = BatchItem(id: string, typeValue: string, content: string)

  /** The entry built for one element. */
  function ItemOf<P>(e: DocElement<P>, render: DocElement<P> -> string): BatchItem {
    BatchItem(e.id, e.typeValue, render(e))
  }

  /** The entries of all elements, in document order. */
  function ItemsOf<P>(es: seq<DocElement<P>>, render: DocElement<P> -> string): (r: seq<BatchItem>)
    ensures |r| == |es|
    ensures forall i :: 0 <= i < |es| ==> r[i] == ItemOf(es[i], render)
    decreases |es|
  {
    if es == [] then [] else ItemsOf(es[..|es| - 1], render) + [ItemOf(es[|es| - 1], render)]
  }

  /** The token count of an entry: the counter applied to its markdown. */
  function Cost(x: BatchItem, tokens: string -> nat): nat {
    tokens(x.content)
  }

  /** The token total of a batch. */
  function Total(b: seq<BatchItem>, tokens: string -> nat): nat
    decreases |b|
  {
    if b == [] then 0 else Total(b[..|b| - 1], tokens) + Cost(b[|b| - 1], tokens)
  }

  /** The total grows by the cost of each entry added at the end. */
  lemma TotalSnoc(c: seq<BatchItem>, x: BatchItem, tokens: string -> nat)
    ensures Total(c + [x], tokens) == Total(c, tokens) + Cost(x, tokens)
    ensures Total([x], tokens) == Cost(x, tokens)
  {
    assert (c + [x])[..|c|] == c;
    assert [x][..0] == [];
  }

  /** The batches one after the other. */
  function Flatten(bs: seq<seq<BatchItem>>): seq<BatchItem>
    decreases |bs|
  {
    if bs == [] then [] else bs[0] + Flatten(bs[1..])
  }

  /** A batch stays within the budget unless it is a single entry. */
  predicate Fits(b: seq<BatchItem>, chunkSize: int, tokens: string -> nat) {
    Total(b, tokens) <= chunkSize || |b| == 1
  }

  /** No batch could have taken the first entry of the next one. */
  predicate Maximal(bs: seq<seq<BatchItem>>, chunkSize: int, tokens: string -> nat) {
    forall i :: 0 <= i < |bs| - 1 && bs[i + 1] != [] ==>
      Total(bs[i], tokens) + Cost(bs[i + 1][0], tokens) > chunkSize
  }

  /** Every batch is non-empty and within the budget or alone. */
  predicate Bounded(bs: seq<seq<BatchItem>>, chunkSize: int, tokens: string -> nat) {
    forall i :: 0 <= i < |bs| ==> bs[i] != [] && Fits(bs[i], chunkSize, tokens)
  }

  /** `bs` cuts `items` into non-empty pieces, in order, each within the
      budget or alone, and each as long as the budget allows. */
  predicate GreedyBatching(bs: seq<seq<BatchItem>>, items: seq<BatchItem>, chunkSize: int, tokens: string -> nat) {
    Flatten(bs) == items && Bounded(bs, chunkSize, tokens) && Maximal(bs, chunkSize, tokens)
  }

  lemma {:induction false} FlattenSnoc(bs: seq<seq<BatchItem>>, b: seq<BatchItem>)
    ensures Flatten(bs + [b]) == Flatten(bs) + b
    decreases |bs|
  {
    if bs == [] {
      assert [b][1..] == [];
    } else {
      assert (bs + [b])[1..] == bs[1..] + [b];
      FlattenSnoc(bs[1..], b);
    }
  }

  /** The batch under construction: non-empty, within the budget or alone,
      and too big to have joined the batch before it. */
  predicate Open(bs: seq<seq<BatchItem>>, c: seq<BatchItem>, chunkSize: int, tokens: string -> nat) {
    && c != [] && Fits(c, chunkSize, tokens)
    && (bs != [] ==> Total(bs[|bs| - 1], tokens) + Cost(c[0], tokens) > chunkSize)
  }

  /** Closing the batch under construction keeps the cut correct. */
  lemma PushBatch(bs: seq<seq<BatchItem>>, b: seq<BatchItem>, chunkSize: int, tokens: string -> nat)
    requires Bounded(bs, chunkSize, tokens) && Maximal(bs, chunkSize, tokens)
    requires Open(bs, b, chunkSize, tokens)
    ensures Bounded(bs + [b], chunkSize, tokens) && Maximal(bs + [b], chunkSize, tokens)
    ensures Flatten(bs + [b]) == Flatten(bs) + b
  {
    var r := bs + [b];
    forall j | 0 <= j < |r| ensures r[j] != [] && Fits(r[j], chunkSize, tokens) {
      if j < |bs| {
        assert r[j] == bs[j];
      }
    }
    forall j | 0 <= j < |r| - 1 && r[j + 1] != []
      ensures Total(r[j], tokens) + Cost(r[j + 1][0], tokens) > chunkSize
    {
      assert r[j] == bs[j];
      if j + 1 < |bs| {
        assert r[j + 1] == bs[j + 1];
      }
    }
    FlattenSnoc(bs, b);
  }

  /** The loop's state after the entries `done`: the closed batches and the
      batch under construction hold `done` in order, the closed batches are
      cut correctly, and the open batch is non-empty once anything is done. */
  predicate Progress(bs: seq<seq<BatchItem>>, c: seq<BatchItem>, done: seq<BatchItem>,
                     chunkSize: int, tokens: string -> nat) {
    && Flatten(bs) + c == done
    && Bounded(bs, chunkSize, tokens) && Maximal(bs, chunkSize, tokens)
    && (done == [] ==> bs == [] && c == [])
    && (done != [] ==> Open(bs, c, chunkSize, tokens))
  }

  /** The loop's state: the batches yielded so far and the batch under
      construction.  */
  datatype Cut = Cut(closed: seq<seq<BatchItem>>, open: seq<BatchItem>)

  /** One pass of the loop body on the entry `x`: the open batch is closed
      first when it is non-empty and `x` would take it past the budget; then
      `x` joins the open batch. */
  function Step(st: Cut, x: BatchItem, chunkSize: int, tokens: string -> nat): Cut {
    if |st.open| > 0 && Total(st.open, tokens) + Cost(x, tokens) > chunkSize
    then Cut(st.closed + [st.open], [x])
    else Cut(st.closed, st.open + [x])
  }

  /** The state after the loop has seen `items`. */
  function Run(items: seq<BatchItem>, chunkSize: int, tokens: string -> nat): Cut
    decreases |items|
  {
    if items == [] then Cut([], [])
    else Step(Run(items[..|items| - 1], chunkSize, tokens), items[|items| - 1], chunkSize, tokens)
  }

  /** What the generator yields for `items`: the closed batches and then the
      open one, if any. */
  function Batches(items: seq<BatchItem>, chunkSize: int, tokens: string -> nat): seq<seq<BatchItem>> {
    var st := Run(items, chunkSize, tokens);
    if st.open != [] then st.closed + [st.open] else st.closed
  }

  lemma StepKeepsProgress(st: Cut, done: seq<BatchItem>, x: BatchItem, chunkSize: int, tokens: string -> nat)
    requires Progress(st.closed, st.open, done, chunkSize, tokens)
    ensures Progress(Step(st, x, chunkSize, tokens).closed, Step(st, x, chunkSize, tokens).open,
                     done + [x], chunkSize, tokens)
  {
    var bs, c := st.closed, st.open;
    if |c| > 0 && Total(c, tokens) + Cost(x, tokens) > chunkSize {
      PushBatch(bs, c, chunkSize, tokens);
      var bs' := bs + [c];
      assert bs'[|bs'| - 1] == c;
      assert Total([x], tokens) == Cost(x, tokens) by {
        assert [x][..0] == [];
      }
    } else {
      var d := c + [x];
      assert d[..|c|] == c && d[|c|] == x;
      assert Total(d, tokens) == Total(c, tokens) + Cost(x, tokens);
      if c == [] {
        assert d == [x];
      } else {
        assert d[0] == c[0];
      }
      assert Flatten(bs) + d == (Flatten(bs) + c) + [x];
    }
  }

  lemma {:induction false} RunMakesProgress(items: seq<BatchItem>, chunkSize: int, tokens: string -> nat)
    ensures Progress(Run(items, chunkSize, tokens).closed, Run(items, chunkSize, tokens).open, items, chunkSize, tokens)
    decreases |items|
  {
    if items != [] {
      var init := items[..|items| - 1];
      RunMakesProgress(init, chunkSize, tokens);
      StepKeepsProgress(Run(init, chunkSize, tokens), init, items[|items| - 1], chunkSize, tokens);
      assert init + [items[|items| - 1]] == items;
    }
  }

  /** The batches the generator yields are a greedy cut of the entries, and
      there are none exactly when there are no entries. */
  lemma BatchesAreGreedy(items: seq<BatchItem>, chunkSize: int, tokens: string -> nat)
    ensures GreedyBatching(Batches(items, chunkSize, tokens), items, chunkSize, tokens)
    ensures Batches(items, chunkSize, tokens) == [] <==> items == []
  {
    var st := Run(items, chunkSize, tokens);
    RunMakesProgress(items, chunkSize, tokens);
    if st.open != [] {
      PushBatch(st.closed, st.open, chunkSize, tokens);
    }
    NonEmptyFlatten(Batches(items, chunkSize, tokens));
  }

  /** `split_doc_to_batches`, with the generator's yields collected in
      order.  The loop keeps the batch under construction and its token
      count, and flushes the batch before an element that would take it past
      `chunkSize`, but never an empty batch. */
  method SplitDocToBatches<P>(elements: seq<DocElement<P>>, render: DocElement<P> -> string,
                              tokens: string -> nat, chunkSize: int)
    returns (batches: seq<seq<BatchItem>>)
    ensures batches == Batches(ItemsOf(elements, render), chunkSize, tokens)
    ensures GreedyBatching(batches, ItemsOf(elements, render), chunkSize, tokens)
    ensures batches == [] <==> elements == []
  {
    batches := [];
    var chunkList: seq<BatchItem> := [];
    var chunkTokenCount := 0;
    for i := 0 to |elements|
      invariant Cut(batches, chunkList) == Run(ItemsOf(elements[..i], render), chunkSize, tokens)
      invariant chunkTokenCount == Total(chunkList, tokens)
    {
      var mdText := render(elements[i]);
      var count := tokens(mdText);
      var item := BatchItem(elements[i].id, elements[i].typeValue, mdText);
      assert ItemsOf(elements[..i + 1], render) == ItemsOf(elements[..i], render) + [item] by {
        assert elements[..i + 1][..i] == elements[..i];
      }
      TotalSnoc(chunkList, item, tokens);
      if |chunkList| > 0 && chunkTokenCount + count > chunkSize {
        batches := batches + [chunkList];
        chunkList := [item];
        chunkTokenCount := count;
      } else {
        chunkList := chunkList + [item];
        chunkTokenCount := chunkTokenCount + count;
      }
    }
    assert elements[..|elements|] == elements;
    if chunkList != [] {
      batches := batches + [chunkList];
    }
    BatchesAreGreedy(ItemsOf(elements, render), chunkSize, tokens);
  }

  /** A prefix of a batch never costs more than the batch. */
  lemma {:induction false} TotalOfPrefix(b: seq<BatchItem>, k: nat, tokens: string -> nat)
    requires k <= |b|
    ensures Total(b[..k], tokens) <= Total(b, tokens)
    decreases |b|
  {
    if k < |b| {
      var init := b[..|b| - 1];
      assert init[..k] == b[..k];
      TotalOfPrefix(init, k, tokens);
    } else {
      assert b[..k] == b;
    }
  }

  /** No entry costs more than its batch. */
  lemma {:induction false} TotalCoversMember(b: seq<BatchItem>, j: nat, tokens: string -> nat)
    requires j < |b|
    ensures Cost(b[j], tokens) <= Total(b, tokens)
  {
    var p := b[..j + 1];
    assert p[..j] == b[..j] && p[j] == b[j];
    TotalOfPrefix(b, j + 1, tokens);
  }

  /** An element whose markdown alone is over the budget is a batch of its
      own. */
  lemma OversizedStandsAlone(bs: seq<seq<BatchItem>>, items: seq<BatchItem>, chunkSize: int,
                             tokens: string -> nat, i: nat, j: nat)
    requires GreedyBatching(bs, items, chunkSize, tokens)
    requires i < |bs| && j < |bs[i]| && Cost(bs[i][j], tokens) > chunkSize
    ensures bs[i] == [bs[i][j]]
  {
    TotalCoversMember(bs[i], j, tokens);
    assert Fits(bs[i], chunkSize, tokens);
  }

  lemma GreedyBatchingTail(bs: seq<seq<BatchItem>>, items: seq<BatchItem>, chunkSize: int, tokens: string -> nat)
    requires bs != [] && GreedyBatching(bs, items, chunkSize, tokens)
    ensures |bs[0]| <= |items| && items[..|bs[0]|] == bs[0]
    ensures GreedyBatching(bs[1..], items[|bs[0]|..], chunkSize, tokens)
  {
    var t := bs[1..];
    assert items == bs[0] + Flatten(t);
    assert items[|bs[0]|..] == Flatten(t);
    forall i | 0 <= i < |t| - 1
      ensures Total(t[i], tokens) + Cost(t[i + 1][0], tokens) > chunkSize
    {
      assert t[i] == bs[i + 1] && t[i + 1] == bs[i + 2];
    }
  }

  /** The batches a greedy cut produces are determined by the entries, the
      budget and the counter: two cuts of the same entries that satisfy
      `GreedyBatching` are the same. */
  lemma {:induction false} GreedyBatchingIsUnique(p: seq<seq<BatchItem>>, q: seq<seq<BatchItem>>,
                                                  items: seq<BatchItem>, chunkSize: int, tokens: string -> nat)
    requires GreedyBatching(p, items, chunkSize, tokens)
    requires GreedyBatching(q, items, chunkSize, tokens)
    ensures p == q
    decreases |items|
  {
    if p == [] || q == [] {
      NonEmptyFlatten(p);
      NonEmptyFlatten(q);
    } else {
      GreedyBatchingTail(p, items, chunkSize, tokens);
      GreedyBatchingTail(q, items, chunkSize, tokens);
      FirstBatchNotShorter(p, q, items, chunkSize, tokens);
      FirstBatchNotShorter(q, p, items, chunkSize, tokens);
      assert p[0] == q[0];
      GreedyBatchingIsUnique(p[1..], q[1..], items[|p[0]|..], chunkSize, tokens);
      assert p == [p[0]] + p[1..] && q == [q[0]] + q[1..];
    }
  }

  /** Non-empty batches flatten to nothing only when there are none. */
  lemma NonEmptyFlatten(bs: seq<seq<BatchItem>>)
    requires forall i :: 0 <= i < |bs| ==> bs[i] != []
    ensures Flatten(bs) == [] <==> bs == []
  {
    if bs != [] {
      assert |Flatten(bs)| >= |bs[0]| > 0;
    }
  }

  /** The first batch of a greedy cut is at least as long as the first batch
      of any other greedy cut of the same entries. */
  lemma FirstBatchNotShorter(p: seq<seq<BatchItem>>, q: seq<seq<BatchItem>>,
                             items: seq<BatchItem>, chunkSize: int, tokens: string -> nat)
    requires p != [] && q != []
    requires GreedyBatching(p, items, chunkSize, tokens)
    requires GreedyBatching(q, items, chunkSize, tokens)
    requires |p[0]| <= |items| && items[..|p[0]|] == p[0]
    requires |q[0]| <= |items| && items[..|q[0]|] == q[0]
    ensures |p[0]| >= |q[0]|
  {
    var m := |p[0]|;
    if m < |q[0]| {
      // p's next batch starts with the entry q's first batch takes at m.
      assert Flatten(p) == p[0] + Flatten(p[1..]);
      NonEmptyFlatten(p[1..]);
      assert p[1..] != [] by {
        assert |Flatten(p[1..])| == |items| - m > 0;
      }
      var next := p[1];
      assert Flatten(p[1..]) == next + Flatten(p[2..]) by {
        assert p[1..][0] == next && p[1..][1..] == p[2..];
      }
      assert next[0] == items[m] == q[0][m];
      var c := q[0][..m + 1];
      assert c[..m] == p[0] && c[m] == next[0];
      assert Total(c, tokens) == Total(p[0], tokens) + Cost(next[0], tokens);
      TotalOfPrefix(q[0], m + 1, tokens);
      assert false;
    }
  }

  // ---------------------------------------------------------------------
  // get_all_chunks

  /** `KBXError.Code`: only SUCCESS is told apart from the rest. */
  datatype ErrorCode = Success | Failure(code: string)

  /** One `(chunk, error)` pair of `list_chunks`; the chunk may be `None`. */
  datatype ChunkEntry<C> = ChunkEntry(chunk: Option<C>, code: ErrorCode)

  predicate Kept<C>(e: ChunkEntry<C>) {
    e.code == Success && e.chunk.Some?
  }

  /** The chunks of one document that the filter keeps, in order. */
  function SucceededIn<C>(entries: seq<ChunkEntry<C>>): seq<C>
    decreases |entries|
  {
    if entries == [] then []
    else
      var e := entries[|entries| - 1];
      SucceededIn(entries[..|entries| - 1]) + (if Kept(e) then [e.chunk.value] else [])
  }

  /** The chunks the filter keeps over all documents, in document order. */
  function Succeeded<C>(docs: seq<seq<ChunkEntry<C>>>): seq<C>
    decreases |docs|
  {
    if docs == [] then [] else Succeeded(docs[..|docs| - 1]) + SucceededIn(docs[|docs| - 1])
  }

  /** The nested loop of `get_all_chunks` over the listing of every
      document; `docs[d]` is what `list_chunks` gave for the `d`-th id. */
  method GetAllChunks<C>(docs: seq<seq<ChunkEntry<C>>>) returns (allChunks: seq<C>)
    ensures allChunks == Succeeded(docs)
  {
    allChunks := [];
    for d := 0 to |docs|
      invariant allChunks == Succeeded(docs[..d])
    {
      assert docs[..d + 1][..d] == docs[..d];
      ghost var before := allChunks;
      var chunks := docs[d];
      for j := 0 to |chunks|
        invariant allChunks == before + SucceededIn(chunks[..j])
      {
        assert chunks[..j + 1][..j] == chunks[..j];
        var entry := chunks[j];
        if entry.code == Success && entry.chunk.Some? {
          allChunks := allChunks + [entry.chunk.value];
        }
      }
      assert chunks[..|chunks|] == chunks;
    }
    assert docs[..|docs|] == docs;
  }

  /** A chunk is kept exactly when some entry carries it with SUCCESS. */
  lemma {:induction false} SucceededInMembers<C>(entries: seq<ChunkEntry<C>>, c: C)
    ensures c in SucceededIn(entries) <==>
      exists j :: 0 <= j < |entries| && entries[j] == ChunkEntry(Some(c), Success)
    decreases |entries|
  {
    if entries != [] {
      var init, e := entries[..|entries| - 1], entries[|entries| - 1];
      var kept := if Kept(e) then [e.chunk.value] else [];
      assert SucceededIn(entries) == SucceededIn(init) + kept;
      SucceededInMembers(init, c);
      if c in SucceededIn(entries) {
        if c in SucceededIn(init) {
          var j :| 0 <= j < |init| && init[j] == ChunkEntry(Some(c), Success);
          assert entries[j] == init[j];
        } else {
          assert entries[|entries| - 1] == ChunkEntry(Some(c), Success);
        }
      }
      if exists j :: 0 <= j < |entries| && entries[j] == ChunkEntry(Some(c), Success) {
        var j :| 0 <= j < |entries| && entries[j] == ChunkEntry(Some(c), Success);
        if j < |init| {
          assert init[j] == entries[j];
        } else {
          assert c in kept;
        }
      }
    }
  }

  /** The filter keeps no more chunks than there are entries. */
  lemma {:induction false} SucceededInNoLonger<C>(entries: seq<ChunkEntry<C>>)
    ensures |SucceededIn(entries)| <= |entries|
    decreases |entries|
  {
    if entries != [] {
      SucceededInNoLonger(entries[..|entries| - 1]);
    }
  }

  /** Filtering two listings one after the other is filtering their
      concatenation: chunks come out in document order, then in chunk
      order. */
  lemma {:induction false} SucceededAppend<C>(a: seq<seq<ChunkEntry<C>>>, b: seq<seq<ChunkEntry<C>>>)
    ensures Succeeded(a + b) == Succeeded(a) + Succeeded(b)
    decreases |b|
  {
    if b == [] {
      assert a + b == a;
    } else {
      var init, last := b[..|b| - 1], b[|b| - 1];
      var ab := a + b;
      assert ab[..|ab| - 1] == a + init;
      assert ab[|ab| - 1] == last;
      assert Succeeded(ab) == Succeeded(a + init) + SucceededIn(last);
      SucceededAppend(a, init);
      assert Succeeded(b) == Succeeded(init) + SucceededIn(last);
    }
  }

  /** A chunk is in the result exactly when some document lists it with
      SUCCESS. */
  lemma {:induction false} SucceededMembers<C>(docs: seq<seq<ChunkEntry<C>>>, c: C)
    ensures c in Succeeded(docs) <==>
      exists d, j :: 0 <= d < |docs| && 0 <= j < |docs[d]| && docs[d][j] == ChunkEntry(Some(c), Success)
    decreases |docs|
  {
    if docs != [] {
      var init := docs[..|docs| - 1];
      var last := docs[|docs| - 1];
      SucceededMembers(init, c);
      SucceededInMembers(last, c);
      if exists d, j :: 0 <= d < |init| && 0 <= j < |init[d]| && init[d][j] == ChunkEntry(Some(c), Success) {
        var d, j :| 0 <= d < |init| && 0 <= j < |init[d]| && init[d][j] == ChunkEntry(Some(c), Success);
        assert docs[d] == init[d];
      }
      if exists j :: 0 <= j < |last| && last[j] == ChunkEntry(Some(c), Success) {
        var j :| 0 <= j < |last| && last[j] == ChunkEntry(Some(c), Success);
        assert docs[|docs| - 1][j] == ChunkEntry(Some(c), Success);
      }
      if exists d, j :: 0 <= d < |docs| && 0 <= j < |docs[d]| && docs[d][j] == ChunkEntry(Some(c), Success) {
        var d, j :| 0 <= d < |docs| && 0 <= j < |docs[d]| && docs[d][j] == ChunkEntry(Some(c), Success);
        if d < |init| {
          assert init[d] == docs[d];
        }
      }
    }
  }

  // ---------------------------------------------------------------------
  // create_knowledge_base: configuration

  /** `s.endswith(suffix)`. */
  predicate EndsWith(s: string, suffix: string) {
    |suffix| <= |s| && s[|s| - |suffix|..] == suffix
  }

  /** How the configuration file is parsed. */
  datatype ConfigFormat = Yaml | Json

  /** The ValueError for a file that is neither YAML nor JSON. */
  datatype ConfigError = InvalidConfigFile(path: string)

  /** The extension dispatch: `.yaml` or `.yml` selects YAML, otherwise
      `.json` selects JSON, and any other name is refused.  The test is on
      the exact, case-sensitive suffix of the path. */
  function ConfigFormatOf(path: string): (r: Result<ConfigFormat, ConfigError>)
    ensures r == Ok(Yaml) <==> EndsWith(path, ".yaml") || EndsWith(path, ".yml")
    ensures r == Ok(Json) <==> !EndsWith(path, ".yaml") && !EndsWith(path, ".yml") && EndsWith(path, ".json")
    ensures r.Err? ==> r.error == InvalidConfigFile(path)
  {
    if EndsWith(path, ".yaml") || EndsWith(path, ".yml") then Ok(Yaml)
    else if EndsWith(path, ".json") then Ok(Json)
    else Err(InvalidConfigFile(path))
  }

  lemma EndsWithAppended(stem: string, suffix: string)
    ensures EndsWith(stem + suffix, suffix)
  {
    assert (stem + suffix)[|stem|..] == suffix;
  }

  /** Any name ending in `.yaml` or `.yml` is read as YAML, and one ending
      in `.json` as JSON. */
  lemma FormatOfSuffix(stem: string)
    ensures ConfigFormatOf(stem + ".yaml") == Ok(Yaml)
    ensures ConfigFormatOf(stem + ".yml") == Ok(Yaml)
    ensures ConfigFormatOf(stem + ".json") == Ok(Json)
  {
    EndsWithAppended(stem, ".yaml");
    EndsWithAppended(stem, ".yml");
    var j := stem + ".json";
    EndsWithAppended(stem, ".json");
    assert j[|j| - 1] == 'n';
  }

  /** The default path is read as YAML. */
  lemma DefaultPathIsYaml()
    ensures ConfigFormatOf("config/create_vector_kb.yaml") == Ok(Yaml)
  {
    var stem := "config/create_vector_kb";
    FormatOfSuffix(stem);
    assert stem + ".yaml" == "config/create_vector_kb.yaml";
  }

  /** The dispatch looks at the last extension only, and is case-sensitive. */
  lemma FormatExamples()
    ensures ConfigFormatOf("kb.yaml.json") == Ok(Json)
    ensures ConfigFormatOf("KB.YAML").Err?
    ensures ConfigFormatOf("kb.toml").Err?
  {
    var j := "kb.yaml.json";
    assert j[|j| - 1] == 'n' && ".yaml"[4] == 'l' && ".yml"[3] == 'l';
    assert j[|j| - 5..] == ".json";
    var u := "KB.YAML";
    assert u[|u| - 1] == 'L' && ".json"[4] == 'n';
    var t := "kb.toml";
    assert t[|t| - 3] == 'o' && ".yaml"[2] == 'a' && ".yml"[1] == 'y' && ".json"[4] == 'n';
    assert t[|t| - 1] == 'l';
  }

  /** `{**kb_config.model_dump(), **config_dict}` when the loaded file
      gives a non-empty mapping, and the defaults otherwise (`None` from an
      empty YAML file, or an empty mapping). */
  function MergeConfig<V>(defaults: map<string, V>, loaded: Option<map<string, V>>): (r: map<string, V>)
    ensures loaded.None? || loaded.value == map[] ==> r == defaults
    ensures loaded.Some? ==> r.Keys == defaults.Keys + loaded.value.Keys
    ensures loaded.Some? ==> forall k :: k in loaded.value ==> r[k] == loaded.value[k]
    ensures forall k :: k in defaults && (loaded.None? || k !in loaded.value) ==> r[k] == defaults[k]
  {
    if loaded.Some? && loaded.value != map[] then defaults + loaded.value else defaults
  }

  /** Merging the same file twice changes nothing more. */
  lemma MergeIsIdempotent<V>(defaults: map<string, V>, loaded: Option<map<string, V>>)
    ensures MergeConfig(MergeConfig(defaults, loaded), loaded) == MergeConfig(defaults, loaded)
  {
  }

  /** The value `self.chunk_size` gets in `__init__`. */
  const DefaultChunkSize: int := 1024

  /** The splitter chunk size: the explicit argument when it is given,
      `self.chunk_size` otherwise. */
  function SplitterChunkSize(explicit: Option<int>, own: int): (r: int)
    ensures explicit.Some? ==> r == explicit.value
    ensures explicit.None? ==> r == own
  {
    if explicit.Some? then explicit.value else own
  }

  /** The configuration handed to `create_new_kb`: the merged fields and the
      splitter chunk size.  In the source the chunk size is the nested field
      `vector_keyword_config.splitter_config.chunk_size` of the merged
      configuration, written after the merge; here it is kept apart from
      `fields`, which hold the merge before that write. */
  datatype KbSettings<V> = KbSettings(fields: map<string, V>, splitterChunkSize: int)

  /** The decisions of `create_knowledge_base` before any SDK call.
      `load` stands for reading the file with the selected parser. */
  function PrepareKbConfig<V>(path: string, load: ConfigFormat -> Option<map<string, V>>,
                              defaults: map<string, V>, chunkSize: Option<int>, own: int)
    : (r: Result<KbSettings<V>, ConfigError>)
    ensures r.Err? <==> ConfigFormatOf(path).Err?
    ensures r.Ok? ==> r.value.fields == MergeConfig(defaults, load(ConfigFormatOf(path).value))
    ensures r.Ok? ==> r.value.splitterChunkSize == SplitterChunkSize(chunkSize, own)
  {
    match ConfigFormatOf(path)
    case Err(e) => Err(e)
    case Ok(format) =>
      Ok(KbSettings(MergeConfig(defaults, load(format)), SplitterChunkSize(chunkSize, own)))
  }

  /** Whatever the file says, the splitter chunk size is the argument or the
      processor's own: it is set after the merge. */
  lemma ChunkSizeIgnoresFile<V>(path: string, load1: ConfigFormat -> Option<map<string, V>>,
                                load2: ConfigFormat -> Option<map<string, V>>,
                                defaults: map<string, V>, chunkSize: Option<int>)
    requires ConfigFormatOf(path).Ok?
    ensures PrepareKbConfig(path, load1, defaults, chunkSize, DefaultChunkSize).value.splitterChunkSize
         == PrepareKbConfig(path, load2, defaults, chunkSize, DefaultChunkSize).value.splitterChunkSize
    ensures chunkSize.None? ==>
      PrepareKbConfig(path, load1, defaults, chunkSize, DefaultChunkSize).value.splitterChunkSize == 1024
  {
  }
}
