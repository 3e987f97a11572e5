/** The tag records an LLM returns for a log chunk, and the two post-processing
    steps both analyzers apply to them: order-preserving de-duplication on the
    (type, content) key and grouping by type.  The two analyzer files carry the
    same code for both steps, so it is modelled once here. */
module TagRecords {
  import opened Wrappers

  /** One tag: a JSON object seen through `get('type')`, `get('content')` and
      the rest of its fields, which no step here inspects. */
  datatype Record = Record(tagType: Option<string>, content: Option<string>, rest: map<string, string>)

  /** The de-duplication key `(result.get('type'), result.get('content'))`. */
  type Key = (Option<string>, Option<string>)

  /** A decoded LLM reply: a JSON array of tag objects, or any other JSON
      value (object, string, number, boolean, null), of which the code only
      observes Python truthiness. */
  datatype JsonValue = JsonArray(items: seq<Record>) | JsonOther(truthy: bool)

  /** What `json.loads` gives for a cleaned reply. */
  datatype Decoded = DecodeError | Decoded(value: JsonValue)

  function KeyOf(r: Record): Key {
    (r.tagType, r.content)
  }

  function KeysOf(rs: seq<Record>): set<Key> {
    set i | 0 <= i < |rs| :: KeyOf(rs[i])
  }

  lemma KeysOfSnoc(rs: seq<Record>, r: Record)
    ensures KeysOf(rs + [r]) == KeysOf(rs) + {KeyOf(r)}
  {
    var a, b := KeysOf(rs + [r]), KeysOf(rs) + {KeyOf(r)};
    forall k | k in b ensures k in a {
      if k == KeyOf(r) {
        assert (rs + [r])[|rs|] == r;
      } else {
        var i :| 0 <= i < |rs| && KeyOf(rs[i]) == k;
        assert (rs + [r])[i] == rs[i];
      }
    }
  }

  // ---------------------------------------------------------------------
  // De-duplication

  /** The list `_deduplicate_results` builds: each record is kept when no
      earlier record had its key. */
  function Unique(rs: seq<Record>): seq<Record>
    decreases |rs|
  {
    if rs == [] then []
    else
      var kept := Unique(rs[..|rs| - 1]);
      var last := rs[|rs| - 1];
      if KeyOf(last) in KeysOf(kept) then kept else kept + [last]
  }

  /** `_deduplicate_results`: the loop over `results` that updates the `seen`
      set and the `unique_results` list. */
  method DeduplicateResults(results: seq<Record>) returns (unique: seq<Record>)
    ensures unique == Unique(results)
  {
    if results == [] {
      return [];
    }
    var seen: set<Key> := {};
    unique := [];
    for i := 0 to |results|
      invariant unique == Unique(results[..i])
      invariant seen == KeysOf(unique)
    {
      var result := results[i];
      assert results[..i + 1][..i] == results[..i];
      var key := KeyOf(result);
      if key !in seen {
        seen := seen + {key};
        KeysOfSnoc(unique, result);
        unique := unique + [result];
      }
    }
    assert results[..|results|] == results;
  }

  /** No two records of the output share a key. */
  ghost predicate DistinctKeys(rs: seq<Record>) {
    forall i, j :: 0 <= i < j < |rs| ==> KeyOf(rs[i]) != KeyOf(rs[j])
  }

  lemma {:induction false} UniqueKeysAreDistinct(rs: seq<Record>)
    ensures DistinctKeys(Unique(rs))
    decreases |rs|
  {
    if rs != [] {
      var kept := Unique(rs[..|rs| - 1]);
      UniqueKeysAreDistinct(rs[..|rs| - 1]);
      var last := rs[|rs| - 1];
      if KeyOf(last) !in KeysOf(kept) {
        var u := kept + [last];
        forall i, j | 0 <= i < j < |u| ensures KeyOf(u[i]) != KeyOf(u[j]) {
          if j == |kept| {
            assert u[i] == kept[i];
          } else {
            assert u[i] == kept[i] && u[j] == kept[j];
          }
        }
      }
    }
  }

  /** Nothing is lost by key and nothing new appears: the output has exactly
      the keys of the input. */
  lemma {:induction false} UniqueKeepsEveryKey(rs: seq<Record>)
    ensures KeysOf(Unique(rs)) == KeysOf(rs)
    decreases |rs|
  {
    if rs != [] {
      var init := rs[..|rs| - 1];
      var last := rs[|rs| - 1];
      UniqueKeepsEveryKey(init);
      assert rs == init + [last];
      KeysOfSnoc(init, last);
      if KeyOf(last) !in KeysOf(Unique(init)) {
        KeysOfSnoc(Unique(init), last);
      }
    }
  }

  /** The index of the first record with key `k`. */
  function FirstIndex(rs: seq<Record>, k: Key): (i: nat)
    requires k in KeysOf(rs)
    ensures i < |rs| && KeyOf(rs[i]) == k
    ensures forall j :: 0 <= j < i ==> KeyOf(rs[j]) != k
    decreases |rs|
  {
    if KeyOf(rs[0]) == k then 0
    else
      assert k in KeysOf(rs[1..]) by {
        var i :| 0 <= i < |rs| && KeyOf(rs[i]) == k;
        assert rs[1..][i - 1] == rs[i];
      }
      var i := FirstIndex(rs[1..], k);
      assert forall j :: 1 <= j < i + 1 ==> rs[j] == rs[1..][j - 1];
      1 + i
  }

  lemma FirstIndexOfPrefix(rs: seq<Record>, m: nat, k: Key)
    requires m <= |rs| && k in KeysOf(rs[..m])
    ensures k in KeysOf(rs) && FirstIndex(rs, k) == FirstIndex(rs[..m], k)
  {
    var b := FirstIndex(rs[..m], k);
    assert rs[..m][b] == rs[b];
    assert k in KeysOf(rs);
    var a := FirstIndex(rs, k);
    assert a <= b;
    assert rs[..m][a] == rs[a];
  }

  lemma FirstIndexOfLast(rs: seq<Record>)
    requires rs != [] && KeyOf(rs[|rs| - 1]) !in KeysOf(rs[..|rs| - 1])
    ensures KeyOf(rs[|rs| - 1]) in KeysOf(rs) && FirstIndex(rs, KeyOf(rs[|rs| - 1])) == |rs| - 1
  {
    var k := KeyOf(rs[|rs| - 1]);
    assert k in KeysOf(rs);
    forall i | 0 <= i < |rs| - 1 ensures KeyOf(rs[i]) != k {
      assert rs[..|rs| - 1][i] == rs[i];
    }
  }

  /** A kept record's key occurs in the input, and its first occurrence is
      the same in the input and in the input without its last record. */
  lemma KeptKeyIsEarlier(rs: seq<Record>, j: nat)
    requires rs != [] && j < |Unique(rs[..|rs| - 1])|
    ensures KeyOf(Unique(rs[..|rs| - 1])[j]) in KeysOf(rs[..|rs| - 1])
    ensures KeyOf(Unique(rs[..|rs| - 1])[j]) in KeysOf(rs)
    ensures FirstIndex(rs, KeyOf(Unique(rs[..|rs| - 1])[j]))
      == FirstIndex(rs[..|rs| - 1], KeyOf(Unique(rs[..|rs| - 1])[j])) < |rs| - 1
  {
    var init := rs[..|rs| - 1];
    var k := KeyOf(Unique(init)[j]);
    UniqueKeepsEveryKey(init);
    assert k in KeysOf(Unique(init));
    FirstIndexOfPrefix(rs, |rs| - 1, k);
  }

  /** Every kept record is the first record of the input with its key. */
  lemma {:induction false} UniqueKeepsFirsts(rs: seq<Record>)
    ensures forall j :: 0 <= j < |Unique(rs)| ==>
      KeyOf(Unique(rs)[j]) in KeysOf(rs) && Unique(rs)[j] == rs[FirstIndex(rs, KeyOf(Unique(rs)[j]))]
    decreases |rs|
  {
    if rs != [] {
      var n := |rs|;
      var init := rs[..n - 1];
      var kept := Unique(init);
      var u := Unique(rs);
      UniqueKeepsFirsts(init);
      if KeyOf(rs[n - 1]) in KeysOf(kept) {
        assert u == kept;
      } else {
        assert u == kept + [rs[n - 1]];
      }
      forall j | 0 <= j < |u|
        ensures KeyOf(u[j]) in KeysOf(rs) && u[j] == rs[FirstIndex(rs, KeyOf(u[j]))]
      {
        if j < |kept| {
          assert u[j] == kept[j];
          KeptKeyIsEarlier(rs, j);
          assert init[FirstIndex(init, KeyOf(kept[j]))] == rs[FirstIndex(init, KeyOf(kept[j]))];
        } else {
          assert u[j] == rs[n - 1] && KeyOf(rs[n - 1]) !in KeysOf(kept);
          UniqueKeepsEveryKey(init);
          FirstIndexOfLast(rs);
        }
      }
    }
  }

  /** Two kept records appear in the order of their first occurrences. */
  lemma {:induction false} UniqueOrderAt(rs: seq<Record>, i: nat, j: nat)
    requires i < j < |Unique(rs)|
    ensures KeyOf(Unique(rs)[i]) in KeysOf(rs) && KeyOf(Unique(rs)[j]) in KeysOf(rs)
    ensures FirstIndex(rs, KeyOf(Unique(rs)[i])) < FirstIndex(rs, KeyOf(Unique(rs)[j]))
    decreases |rs|
  {
    var n := |rs|;
    var init := rs[..n - 1];
    var kept := Unique(init);
    var u := Unique(rs);
    if KeyOf(rs[n - 1]) in KeysOf(kept) {
      assert u == kept;
    } else {
      assert u == kept + [rs[n - 1]];
    }
    assert u[i] == kept[i];
    KeptKeyIsEarlier(rs, i);
    if j < |kept| {
      assert u[j] == kept[j];
      KeptKeyIsEarlier(rs, j);
      UniqueOrderAt(init, i, j);
    } else {
      assert u[j] == rs[n - 1] && KeyOf(rs[n - 1]) !in KeysOf(kept);
      UniqueKeepsEveryKey(init);
      FirstIndexOfLast(rs);
    }
  }

  /** The output is the subsequence of first occurrences: every kept record
      is the first of the input with its key, and kept records appear in the
      order of those first occurrences. */
  lemma UniqueIsFirstOccurrences(rs: seq<Record>)
    ensures forall j :: 0 <= j < |Unique(rs)| ==>
      KeyOf(Unique(rs)[j]) in KeysOf(rs) && Unique(rs)[j] == rs[FirstIndex(rs, KeyOf(Unique(rs)[j]))]
    ensures forall i, j :: 0 <= i < j < |Unique(rs)| ==>
      KeyOf(Unique(rs)[i]) in KeysOf(rs) && KeyOf(Unique(rs)[j]) in KeysOf(rs) &&
      FirstIndex(rs, KeyOf(Unique(rs)[i])) < FirstIndex(rs, KeyOf(Unique(rs)[j]))
  {
    UniqueKeepsFirsts(rs);
    forall i, j | 0 <= i < j < |Unique(rs)|
      ensures KeyOf(Unique(rs)[i]) in KeysOf(rs) && KeyOf(Unique(rs)[j]) in KeysOf(rs) &&
        FirstIndex(rs, KeyOf(Unique(rs)[i])) < FirstIndex(rs, KeyOf(Unique(rs)[j]))
    {
      UniqueOrderAt(rs, i, j);
    }
  }

  /** A list whose keys are already distinct is left as it is. */
  lemma {:induction false} UniqueOfDistinct(rs: seq<Record>)
    requires DistinctKeys(rs)
    ensures Unique(rs) == rs
    decreases |rs|
  {
    if rs != [] {
      var init := rs[..|rs| - 1];
      var last := rs[|rs| - 1];
      assert DistinctKeys(init) by {
        forall i, j | 0 <= i < j < |init| ensures KeyOf(init[i]) != KeyOf(init[j]) {
          assert init[i] == rs[i] && init[j] == rs[j];
        }
      }
      UniqueOfDistinct(init);
      forall i | 0 <= i < |init| ensures KeyOf(init[i]) != KeyOf(last) {
        assert init[i] == rs[i];
      }
      assert rs == init + [last];
    }
  }

  /** `_deduplicate_results` is idempotent. */
  lemma UniqueIsIdempotent(rs: seq<Record>)
    ensures Unique(Unique(rs)) == Unique(rs)
  {
    UniqueKeysAreDistinct(rs);
    UniqueOfDistinct(Unique(rs));
  }

  // ---------------------------------------------------------------------
  // Grouping by type

  /** Python truthiness of `tag.get('type')`: `None` and `""` are falsy. */
  predicate IsTruthy(t: Option<string>) {
    t.Some? && t.value != ""
  }

  /** The tags of type `k`, in input order: what `grouped[k]` ends with. */
  function OfType(tags: seq<Record>, k: string): seq<Record>
    decreases |tags|
  {
    if tags == [] then []
    else
      var last := tags[|tags| - 1];
      OfType(tags[..|tags| - 1], k) + if last.tagType == Some(k) then [last] else []
  }

  /** The group keys in the order they were inserted into `grouped`: each
      truthy type at its first appearance. */
  function GroupKeys(tags: seq<Record>): seq<string>
    decreases |tags|
  {
    if tags == [] then []
    else
      var keys := GroupKeys(tags[..|tags| - 1]);
      var t := tags[|tags| - 1].tagType;
      if IsTruthy(t) && t.value !in keys then keys + [t.value] else keys
  }

  /** A Python dict from type to list of tags: its keys in insertion order
      and its entries. */
  datatype Groups = Groups(keys: seq<string>, members: map<string, seq<Record>>)

  /** What every Python dict satisfies: the key order lists each key once. */
  ghost predicate WellFormed(g: Groups) {
    && (forall i, j :: 0 <= i < j < |g.keys| ==> g.keys[i] != g.keys[j])
    && (forall k :: k in g.members <==> k in g.keys)
  }

  /** The dict `_group_tags_by_type` returns, as a function of its input. */
  function GroupsOf(tags: seq<Record>): Groups {
    Groups(GroupKeys(tags), map k | k in GroupKeys(tags) :: OfType(tags, k))
  }

  /** `_group_tags_by_type`: the loop that builds `grouped` in place. */
  method GroupTagsByType(tags: seq<Record>) returns (grouped: Groups)
    ensures grouped == GroupsOf(tags)
  {
    var keys: seq<string> := [];
    var members: map<string, seq<Record>> := map[];
    for i := 0 to |tags|
      invariant keys == GroupKeys(tags[..i])
      invariant forall k :: k in members <==> k in keys
      invariant forall k :: k in members ==> members[k] == OfType(tags[..i], k)
    {
      var tag := tags[i];
      assert tags[..i + 1][..i] == tags[..i];
      var tagType := tag.tagType;
      if IsTruthy(tagType) {
        var k := tagType.value;
        if k !in members {
          GroupKeysHaveTags(tags[..i], k);
          members := members[k := []];
          keys := keys + [k];
        }
        members := members[k := members[k] + [tag]];
      } else {
        forall k | k in members ensures IsTruthy(Some(k)) {
          GroupKeysAreTruthy(tags[..i], k);
        }
      }
    }
    assert tags[..|tags|] == tags;
    assert members.Keys == GroupsOf(tags).members.Keys;
    grouped := Groups(keys, members);
  }

  lemma {:induction false} GroupKeysAreTruthy(tags: seq<Record>, k: string)
    requires k in GroupKeys(tags)
    ensures IsTruthy(Some(k))
    decreases |tags|
  {
    var keys := GroupKeys(tags[..|tags| - 1]);
    if k in keys {
      GroupKeysAreTruthy(tags[..|tags| - 1], k);
    }
  }

  /** A truthy type is a group key exactly when some tag has it, so no
      group is empty. */
  lemma {:induction false} GroupKeysHaveTags(tags: seq<Record>, k: string)
    requires IsTruthy(Some(k))
    ensures k in GroupKeys(tags) <==> OfType(tags, k) != []
    decreases |tags|
  {
    if tags != [] {
      GroupKeysHaveTags(tags[..|tags| - 1], k);
    }
  }

  lemma {:induction false} GroupKeysAreDistinct(tags: seq<Record>)
    ensures forall i, j :: 0 <= i < j < |GroupKeys(tags)| ==> GroupKeys(tags)[i] != GroupKeys(tags)[j]
    decreases |tags|
  {
    if tags != [] {
      GroupKeysAreDistinct(tags[..|tags| - 1]);
    }
  }

  lemma {:induction false} OfTypeMembers(tags: seq<Record>, k: string, x: Record)
    ensures x in OfType(tags, k) <==> x in tags && x.tagType == Some(k)
    decreases |tags|
  {
    if tags != [] {
      var init := tags[..|tags| - 1];
      OfTypeMembers(init, k, x);
      assert tags == init + [tags[|tags| - 1]];
    }
  }

  lemma {:induction false} OfTypeAppend(a: seq<Record>, b: seq<Record>, k: string)
    ensures OfType(a + b, k) == OfType(a, k) + OfType(b, k)
    decreases |b|
  {
    if b == [] {
      assert a + b == a;
    } else {
      var bi := b[..|b| - 1];
      OfTypeAppend(a, bi, k);
      assert (a + b)[..|a + b| - 1] == a + bi;
    }
  }

  /** The properties `_group_tags_by_type` promises: the result is a dict;
      every group holds exactly the tags of its type, in input order (an
      order-preserving filter); a tag with a missing or falsy type is in no
      group; a tag with a truthy type is in the group for that type; no group
      is empty. */
  lemma GroupingIsByType(tags: seq<Record>)
    ensures WellFormed(GroupsOf(tags))
    ensures forall k :: k in GroupsOf(tags).members ==> IsTruthy(Some(k)) && GroupsOf(tags).members[k] != []
    ensures forall k, x :: k in GroupsOf(tags).members ==>
      (x in GroupsOf(tags).members[k] <==> x in tags && x.tagType == Some(k))
    ensures forall x :: x in tags && IsTruthy(x.tagType) ==>
      x.tagType.value in GroupsOf(tags).members && x in GroupsOf(tags).members[x.tagType.value]
    ensures forall a, b, k :: tags == a + b && k in GroupsOf(tags).members ==>
      GroupsOf(tags).members[k] == OfType(a, k) + OfType(b, k)
  {
    var g := GroupsOf(tags);
    GroupKeysAreDistinct(tags);
    forall k | k in g.members ensures IsTruthy(Some(k)) && g.members[k] != [] {
      GroupKeysAreTruthy(tags, k);
      GroupKeysHaveTags(tags, k);
    }
    forall k, x | k in g.members ensures x in g.members[k] <==> x in tags && x.tagType == Some(k) {
      OfTypeMembers(tags, k, x);
    }
    forall x | x in tags && IsTruthy(x.tagType)
      ensures x.tagType.value in g.members && x in g.members[x.tagType.value]
    {
      OfTypeMembers(tags, x.tagType.value, x);
      GroupKeysHaveTags(tags, x.tagType.value);
    }
    forall a, b, k | tags == a + b && k in g.members
      ensures g.members[k] == OfType(a, k) + OfType(b, k)
    {
      OfTypeAppend(a, b, k);
    }
  }

  // ---------------------------------------------------------------------
  // Counting

  /** The tags that `_group_tags_by_type` keeps: those with a truthy type. */
  function TypedTags(tags: seq<Record>): seq<Record>
    decreases |tags|
  {
    if tags == [] then []
    else
      var last := tags[|tags| - 1];
      TypedTags(tags[..|tags| - 1]) + if IsTruthy(last.tagType) then [last] else []
  }

  /** The sum of the group sizes over a list of keys. */
  function GroupSizes(keys: seq<string>, members: map<string, seq<Record>>): nat
    requires forall k :: k in keys ==> k in members
    decreases |keys|
  {
    if keys == [] then 0
    else
      var k := keys[|keys| - 1];
      GroupSizes(keys[..|keys| - 1], members) + |members[k]|
  }

  /** The sum of `|OfType(tags, k)|` over `keys`. */
  function CountTypes(keys: seq<string>, tags: seq<Record>): nat
    decreases |keys|
  {
    if keys == [] then 0
    else CountTypes(keys[..|keys| - 1], tags) + |OfType(tags, keys[|keys| - 1])|
  }

  lemma {:induction false} CountTypesSnoc(keys: seq<string>, tags: seq<Record>, t: Record)
    requires forall i, j :: 0 <= i < j < |keys| ==> keys[i] != keys[j]
    ensures CountTypes(keys, tags + [t]) ==
      CountTypes(keys, tags) + if t.tagType.Some? && t.tagType.value in keys then 1 else 0
    decreases |keys|
  {
    assert (tags + [t])[..|tags|] == tags;
    if keys != [] {
      var ki := keys[..|keys| - 1];
      CountTypesSnoc(ki, tags, t);
      if t.tagType.Some? && t.tagType.value == keys[|keys| - 1] {
        assert t.tagType.value !in ki;
      }
      assert t.tagType.Some? && t.tagType.value in keys <==>
        (t.tagType.Some? && t.tagType.value in ki) || t.tagType == Some(keys[|keys| - 1]);
    }
  }

  lemma {:induction false} CountTypesOfGroupKeys(tags: seq<Record>)
    ensures CountTypes(GroupKeys(tags), tags) == |TypedTags(tags)|
    decreases |tags|
  {
    if tags != [] {
      var init := tags[..|tags| - 1];
      var t := tags[|tags| - 1];
      assert tags == init + [t];
      CountTypesOfGroupKeys(init);
      GroupKeysAreDistinct(init);
      var keys := GroupKeys(init);
      CountTypesSnoc(keys, init, t);
      if IsTruthy(t.tagType) && t.tagType.value !in keys {
        var k := t.tagType.value;
        GroupKeysHaveTags(init, k);
        assert GroupKeys(tags) == keys + [k];
        assert GroupKeys(tags)[..|keys|] == keys;
      } else if !IsTruthy(t.tagType) && t.tagType.Some? && t.tagType.value in keys {
        GroupKeysAreTruthy(init, t.tagType.value);
      }
    }
  }

  lemma {:induction false} GroupSizesOfGroups(keys: seq<string>, tags: seq<Record>)
    requires forall k :: k in keys ==> k in GroupKeys(tags)
    ensures GroupSizes(keys, GroupsOf(tags).members) == CountTypes(keys, tags)
    decreases |keys|
  {
    if keys != [] {
      GroupSizesOfGroups(keys[..|keys| - 1], tags);
    }
  }

  /** Grouping loses exactly the untyped tags: the group sizes add up to the
      number of tags with a truthy type. */
  lemma GroupSizesCountTypedTags(tags: seq<Record>)
    ensures GroupSizes(GroupKeys(tags), GroupsOf(tags).members) == |TypedTags(tags)|
  {
    GroupSizesOfGroups(GroupKeys(tags), tags);
    CountTypesOfGroupKeys(tags);
  }

  // ---------------------------------------------------------------------
  // Fan-in of per-chunk results

  /** The outcome of preparing a chunk's prompt and calling the LLM on it:
      the reply text, or an exception raised on the way. */
  datatype Reply = CallFailed | Replied(text: string)

  /** An order in which `as_completed` can hand back the futures of `n`
      chunks: every chunk index exactly once. */
  predicate CompletionOrder(order: seq<nat>, n: nat) {
    && |order| == n
    && (forall k :: 0 <= k < |order| ==> order[k] < n)
    && (forall i :: 0 <= i < n ==> i in order)
  }

  /** The in-order flattening `[r for results in slots for r in results]`. */
  function Concat(xs: seq<seq<Record>>): seq<Record>
    decreases |xs|
  {
    if xs == [] then [] else Concat(xs[..|xs| - 1]) + xs[|xs| - 1]
  }

  /** Flattening follows the index order: the results of the earlier slots
      come first. */
  lemma {:induction false} ConcatAppend(xs: seq<seq<Record>>, ys: seq<seq<Record>>)
    ensures Concat(xs + ys) == Concat(xs) + Concat(ys)
    decreases |ys|
  {
    if ys == [] {
      assert xs + ys == xs;
    } else {
      var yi := ys[..|ys| - 1];
      assert (xs + ys)[..|xs + ys| - 1] == xs + yi;
      ConcatAppend(xs, yi);
    }
  }

  /** Nothing is lost or invented by flattening. */
  lemma {:induction false} ConcatMembers(xs: seq<seq<Record>>, x: Record)
    ensures x in Concat(xs) <==> exists i :: 0 <= i < |xs| && x in xs[i]
    decreases |xs|
  {
    if xs != [] {
      var xi := xs[..|xs| - 1];
      ConcatMembers(xi, x);
      if x in xs[|xs| - 1] {
        assert 0 <= |xs| - 1 < |xs| && x in xs[|xs| - 1];
      }
      if exists i :: 0 <= i < |xs| && x in xs[i] {
        var i :| 0 <= i < |xs| && x in xs[i];
        if i < |xs| - 1 {
          assert xi[i] == xs[i];
        }
      }
      if exists i :: 0 <= i < |xi| && x in xi[i] {
        var i :| 0 <= i < |xi| && x in xi[i];
        assert xs[i] == xi[i];
      }
    }
  }
}
