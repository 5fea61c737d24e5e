/** Maps from memory ranges and register names to positions in one list of tag sets
    (tagging_tools/metadata_index_map.h), and the merging of four of them into the list that goes
    into the tag file (tagging_tools/tag_file.cc, `write_tag_file`). */
module MetadataIndexMap {
  import opened Interning

  import MetadataMemoryMap
  import MemoryMapTheorems
  import RunIterator
  import TagInfo

  type TagSet = set<nat>

  /** One key of a metadata map, in iteration order. */
  datatype Entry<K> = Entry(key: K, tags: TagSet)

  // ---- building one index map ----

  function InternAll(list: seq<TagSet>, more: seq<TagSet>): (r: seq<TagSet>)
    decreases |more|
  {
    if |more| == 0 then list else InternAll(Intern(list, more[0]), more[1..])
  }

  function TagsOf<K>(entries: seq<Entry<K>>): (r: seq<TagSet>)
    ensures |r| == |entries| && forall i | 0 <= i < |r| :: r[i] == entries[i].tags
  {
    seq(|entries|, i requires 0 <= i < |entries| => entries[i].tags)
  }

  /** `(*this)[key] = distance(begin, it)` for each entry, while the list grows. */
  function Positions<K>(list: seq<TagSet>, entries: seq<Entry<K>>, m: map<K, nat>): map<K, nat>
    decreases |entries|
  {
    if |entries| == 0 then m
    else
      var e := entries[0];
      Positions(Intern(list, e.tags), entries[1..], m[e.key := IndexOf(list, e.tags)])
  }

  class IndexMap<K(==)> {
    var index: map<K, nat>
    var metadata: seq<TagSet>

    /** Both constructors; the one-argument form starts from an empty list. */
    constructor (entries: seq<Entry<K>>, initial: seq<TagSet>)
      ensures metadata == InternAll(initial, TagsOf(entries))
      ensures index == Positions(initial, entries, map[])
    {
      index := map[];
      metadata := initial;
      new;
      for i := 0 to |entries|
        invariant InternAll(initial, TagsOf(entries)) == InternAll(metadata, TagsOf(entries[i..]))
        invariant Positions(initial, entries, map[]) == Positions(metadata, entries[i..], index)
      {
        var e := entries[i];
        assert entries[i..][0] == e && entries[i..][1..] == entries[i + 1..];
        assert TagsOf(entries[i..])[1..] == TagsOf(entries[i + 1..]);
        var list, at := FindOrAppend(metadata, e.tags);
        index := index[e.key := at];
        metadata := list;
      }
    }
  }

  // ---- what the index map means ----

  lemma {:induction false} InternAllExtends(list: seq<TagSet>, more: seq<TagSet>)
    ensures list <= InternAll(list, more)
    ensures NoDuplicates(list) ==> NoDuplicates(InternAll(list, more))
    decreases |more|
  {
    if |more| > 0 {
      InternExtends(list, more[0]);
      if NoDuplicates(list) { InternKeepsDistinct(list, more[0]); }
      InternAllExtends(Intern(list, more[0]), more[1..]);
    }
  }

  /** A list without duplicates that extends another is rebuilt by interning it into the other. */
  lemma {:induction false} InternExtension(list: seq<TagSet>, longer: seq<TagSet>)
    requires NoDuplicates(longer) && list <= longer
    ensures InternAll(list, longer[|list|..]) == longer
    decreases |longer| - |list|
  {
    if |list| < |longer| {
      var x := longer[|list|];
      IndexOfIsFirst(list, x);
      forall j | 0 <= j < |list| ensures list[j] != x { assert longer[j] != longer[|list|]; }
      assert Intern(list, x) == list + [x];
      InternExtension(list + [x], longer);
      assert longer[|list|..][1..] == longer[|list| + 1..];
    } else {
      assert list == longer;
    }
  }

  lemma {:induction false} InternKnown(list: seq<TagSet>, known: seq<TagSet>)
    requires forall i | 0 <= i < |known| :: known[i] in list
    ensures InternAll(list, known) == list
    decreases |known|
  {
    if |known| > 0 {
      IndexOfIsFirst(list, known[0]);
      assert known[0] in list;
      InternKnown(list, known[1..]);
    }
  }

  lemma {:induction false} InternAllConcat(list: seq<TagSet>, a: seq<TagSet>, b: seq<TagSet>)
    ensures InternAll(list, a + b) == InternAll(InternAll(list, a), b)
    decreases |a|
  {
    if |a| == 0 {
      assert a + b == b;
    } else {
      assert (a + b)[1..] == a[1..] + b;
      InternAllConcat(Intern(list, a[0]), a[1..], b);
    }
  }

  predicate DistinctKeys<K(==)>(entries: seq<Entry<K>>) {
    forall i, j | 0 <= i < j < |entries| :: entries[i].key != entries[j].key
  }

  lemma {:induction false} PositionsOther<K>(list: seq<TagSet>, entries: seq<Entry<K>>, m: map<K, nat>, key: K)
    requires forall i | 0 <= i < |entries| :: entries[i].key != key
    ensures (key in Positions(list, entries, m)) == (key in m)
    ensures key in m ==> Positions(list, entries, m)[key] == m[key]
    decreases |entries|
  {
    if |entries| > 0 {
      PositionsOther(Intern(list, entries[0].tags), entries[1..], m[entries[0].key := IndexOf(list, entries[0].tags)],
                     key);
    }
  }

  /** Every key's position in the finished list holds the key's tag set. */
  lemma {:induction false} PositionsResolve<K>(list: seq<TagSet>, entries: seq<Entry<K>>, m: map<K, nat>, i: nat)
    requires DistinctKeys(entries) && i < |entries|
    ensures var index, all := Positions(list, entries, m), InternAll(list, TagsOf(entries));
            && entries[i].key in index && index[entries[i].key] < |all|
            && all[index[entries[i].key]] == entries[i].tags
    decreases |entries|
  {
    var e := entries[0];
    var list' := Intern(list, e.tags);
    var m' := m[e.key := IndexOf(list, e.tags)];
    assert TagsOf(entries)[1..] == TagsOf(entries[1..]);
    if i == 0 {
      PositionsOther(list', entries[1..], m', e.key);
      InternAllExtends(list', TagsOf(entries[1..]));
    } else {
      PositionsResolve(list', entries[1..], m', i - 1);
    }
  }

  // ---- merging ----

  /** `find_if` and `push_back` for each tag set of an index map. */
  method Merge(values: seq<TagSet>, more: seq<TagSet>) returns (merged: seq<TagSet>)
    ensures merged == InternAll(values, more)
  {
    merged := values;
    for i := 0 to |more|
      invariant InternAll(values, more) == InternAll(merged, more[i..])
    {
      assert more[i..][1..] == more[i + 1..];
      var at;
      merged, at := FindOrAppend(merged, more[i]);
    }
  }

  /** Merging the list of an index map that started from the merged values gives that list. */
  lemma MergeIsList(values: seq<TagSet>, tags: seq<TagSet>)
    requires NoDuplicates(values)
    ensures var list := InternAll(values, tags);
            InternAll(values, list) == list && values <= list && NoDuplicates(list)
  {
    var list := InternAll(values, tags);
    InternAllExtends(values, tags);
    assert list == values + list[|values|..];
    InternAllConcat(values, values, list[|values|..]);
    InternKnown(values, values);
    InternExtension(values, list);
  }

  /** The key's position in `values` holds its tag set. */
  ghost predicate Resolves<K(!new)>(values: seq<TagSet>, index: map<K, nat>, entries: seq<Entry<K>>) {
    && (forall i | 0 <= i < |entries| ::
          entries[i].key in index && index[entries[i].key] < |values|
          && values[index[entries[i].key]] == entries[i].tags)
    && (forall k | k in index :: exists i :: 0 <= i < |entries| && entries[i].key == k)
  }

  lemma {:induction false} PositionsKeys<K(!new)>(list: seq<TagSet>, entries: seq<Entry<K>>, m: map<K, nat>, k: K)
    ensures k in Positions(list, entries, m) ==> k in m || exists i :: 0 <= i < |entries| && entries[i].key == k
    decreases |entries|
  {
    if |entries| > 0 {
      var e := entries[0];
      PositionsKeys(Intern(list, e.tags), entries[1..], m[e.key := IndexOf(list, e.tags)], k);
      if i :| 0 <= i < |entries[1..]| && entries[1..][i].key == k { assert entries[i + 1].key == k; }
    }
  }

  lemma IndexResolves<K(!new)>(initial: seq<TagSet>, entries: seq<Entry<K>>, values: seq<TagSet>)
    requires DistinctKeys(entries) && InternAll(initial, TagsOf(entries)) <= values
    ensures Resolves(values, Positions(initial, entries, map[]), entries)
  {
    var index := Positions(initial, entries, map[]);
    forall i | 0 <= i < |entries|
      ensures entries[i].key in index && index[entries[i].key] < |values|
              && values[index[entries[i].key]] == entries[i].tags
    {
      PositionsResolve(initial, entries, map[], i);
    }
    forall k | k in index ensures exists i :: 0 <= i < |entries| && entries[i].key == k {
      PositionsKeys(initial, entries, map[], k);
    }
  }

  /** The four index maps built in turn over one growing list: the list ends without duplicates, and
      every memory, register, SOC and CSR key still finds its tag set in it. */
  method MergeAll<M(!new, ==)>(memory: seq<Entry<M>>, registers: seq<Entry<string>>, soc: seq<Entry<string>>,
                               csrs: seq<Entry<string>>)
    returns (values: seq<TagSet>, memoryIndex: map<M, nat>, registerIndex: map<string, nat>,
             socIndex: map<string, nat>, csrIndex: map<string, nat>)
    requires DistinctKeys(memory) && DistinctKeys(registers) && DistinctKeys(soc) && DistinctKeys(csrs)
    ensures NoDuplicates(values)
    ensures Resolves(values, memoryIndex, memory) && Resolves(values, registerIndex, registers)
    ensures Resolves(values, socIndex, soc) && Resolves(values, csrIndex, csrs)
  {
    values := [];
    var map1 := new IndexMap(memory, []);
    InternAllExtends([], TagsOf(memory));
    values := map1.metadata;
    ghost var v1 := values;

    var map2 := new IndexMap(registers, values);
    MergeIsList(values, TagsOf(registers));
    values := Merge(values, map2.metadata);
    ghost var v2 := values;

    var map3 := new IndexMap(soc, values);
    MergeIsList(values, TagsOf(soc));
    values := Merge(values, map3.metadata);
    ghost var v3 := values;

    var map4 := new IndexMap(csrs, values);
    MergeIsList(values, TagsOf(csrs));
    values := Merge(values, map4.metadata);

    IndexResolves([], memory, values);
    IndexResolves(v1, registers, values);
    IndexResolves(v2, soc, values);
    IndexResolves(v3, csrs, values);
    memoryIndex, registerIndex, socIndex, csrIndex := map1.index, map2.index, map3.index, map4.index;
  }

  /** The entries of a memory map, whose keys are the ranges of its runs. */
  function MemoryEntries(canon: seq<TagSet>, runs: seq<RunIterator.Run>): (es: seq<Entry<MetadataMemoryMap.Range>>)
    requires TagInfo.Pointed(canon, runs)
    ensures |es| == |runs| && forall i | 0 <= i < |es| :: es[i] == Entry(runs[i].range, canon[runs[i].md.value])
  {
    seq(|runs|, i requires 0 <= i < |runs| => Entry(runs[i].range, canon[runs[i].md.value]))
  }

  lemma MemoryKeysDistinct(m: MetadataMemoryMap.Map)
    requires MemoryMapTheorems.Inv(m) && TagInfo.Pointed(m.canon, RunIterator.MapRuns(m.mrs))
    ensures DistinctKeys(MemoryEntries(m.canon, RunIterator.MapRuns(m.mrs)))
  {
    RunIterator.MapRunsOrdered(m.mrs, 0);
    var runs := RunIterator.MapRuns(m.mrs);
    forall i, j | 0 <= i < j < |runs| ensures runs[i].range != runs[j].range {
      assert runs[i].range.end <= runs[j].range.start;
    }
  }
}
