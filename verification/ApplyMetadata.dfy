/** Giving the words of a memory map their instruction tags (validator/riscv/rv_validator.cc,
    `apply_metadata`). An instruction reads its word's tag; a data access reads the tag of the first
    word of its granule. */
module ApplyMetadata {
  import opened RiscvIsa
  import opened Interning
  import opened TagBus
  import MetadataMemoryMap
  import RunIterator
  import TagInfo

  const WORD: nat := MIN_TAG_GRANULARITY

  // ---- what it computes ----

  /** The canonical sets and the bus afterwards, and whether no address was out of range. */
  datatype Applied = Applied(sets: seq<MetaSet>, bus: Bus, ok: bool)

  /** One tag set for the word at `addr`. */
  function ApplyOne(sets: seq<MetaSet>, bus: Bus, addr: Address, tags: MetaSet): (a: Applied)
    requires ValidBus(bus)
    ensures ValidBus(a.bus)
  {
    if Read(bus, addr, Insn).None? then Applied(Intern(sets, tags), bus, false)
    else Applied(Intern(sets, tags), Write(bus, addr, Insn, TagOf(sets, tags)), true)
  }

  /** One tag set for the words `start .. end`. */
  function ApplyRange(sets: seq<MetaSet>, bus: Bus, start: nat, end: nat, tags: MetaSet): (a: Applied)
    requires ValidBus(bus) && end + WORD < ADDRESS_SPACE
    ensures ValidBus(a.bus)
    decreases end - start
  {
    if start >= end then Applied(sets, bus, true)
    else
      var word := ApplyOne(sets, bus, start, tags);
      if !word.ok then word else ApplyRange(word.sets, word.bus, start + WORD, end, tags)
  }

  /** The words `start .. end` after what was applied before them. */
  function Continued(a: Applied, start: nat, end: nat, tags: MetaSet): Applied
    requires ValidBus(a.bus) && end + WORD < ADDRESS_SPACE
  {
    if a.ok then ApplyRange(a.sets, a.bus, start, end, tags) else a
  }

  predicate Applicable(canon: seq<MetaSet>, runs: seq<RunIterator.Run>) {
    && TagInfo.Pointed(canon, runs)
    && forall k | 0 <= k < |runs| :: runs[k].range.end + WORD < ADDRESS_SPACE
  }

  function ApplyRuns(sets: seq<MetaSet>, bus: Bus, canon: seq<MetaSet>, runs: seq<RunIterator.Run>): (a: Applied)
    requires ValidBus(bus) && Applicable(canon, runs)
    ensures ValidBus(a.bus)
    decreases |runs|
  {
    if |runs| == 0 then Applied(sets, bus, true)
    else
      var first := ApplyRange(sets, bus, runs[0].range.start, runs[0].range.end, canon[runs[0].md.value]);
      if !first.ok then first else ApplyRuns(first.sets, first.bus, canon, runs[1..])
  }

  /** `false` stands for the configuration exception. */
  method Apply(map_: MetadataMemoryMap.MemoryMap, tag_bus: TagBus, ms_cache: MetaSetCache) returns (ok: bool)
    requires ValidBus(tag_bus.provider_map)
    requires forall i | 0 <= i < |map_.mrs| :: |map_.mrs[i].mem| > 0
    requires Applicable(map_.canon, RunIterator.MapRuns(map_.mrs))
    modifies tag_bus, ms_cache
    ensures ValidBus(tag_bus.provider_map)
    ensures Applied(ms_cache.metaSets, tag_bus.provider_map, ok)
            == ApplyRuns(old(ms_cache.metaSets), old(tag_bus.provider_map), map_.canon, RunIterator.MapRuns(map_.mrs))
  {
    var runs := RunIterator.CollectRuns(map_.mrs);
    ghost var all := ApplyRuns(ms_cache.metaSets, tag_bus.provider_map, map_.canon, runs);
    ghost var rest := runs;
    for i := 0 to |runs|
      invariant ValidBus(tag_bus.provider_map) && rest == runs[i..] && Applicable(map_.canon, rest)
      invariant ApplyRuns(ms_cache.metaSets, tag_bus.provider_map, map_.canon, rest) == all
    {
      ok := ApplyRun(runs[i].range.start, runs[i].range.end, map_.canon[runs[i].md.value], tag_bus, ms_cache);
      if !ok { return; }
      rest := rest[1..];
    }
    ok := true;
  }

  method ApplyRun(first: nat, end: nat, metadata: MetaSet, tag_bus: TagBus, ms_cache: MetaSetCache) returns (ok: bool)
    requires ValidBus(tag_bus.provider_map) && end + WORD < ADDRESS_SPACE
    modifies tag_bus, ms_cache
    ensures ValidBus(tag_bus.provider_map)
    ensures Applied(ms_cache.metaSets, tag_bus.provider_map, ok)
            == ApplyRange(old(ms_cache.metaSets), old(tag_bus.provider_map), first, end, metadata)
  {
    ghost var so_far := Applied(ms_cache.metaSets, tag_bus.provider_map, true);
    ghost var all := Continued(so_far, first, end, metadata);
    var start := first;
    while start < end
      invariant so_far == Applied(ms_cache.metaSets, tag_bus.provider_map, true) && ValidBus(so_far.bus)
      invariant Continued(so_far, start, end, metadata) == all
      decreases end - start
    {
      ghost var word := ApplyOne(so_far.sets, so_far.bus, start, metadata);
      WordFirst(so_far, start, end, metadata);
      assert Continued(word, start + WORD, end, metadata) == all;
      ok := ApplyWord(start, metadata, tag_bus, ms_cache);
      so_far := word;
      if !ok {
        assert all == word;
        return;
      }
      start := start + WORD;
    }
    assert all == so_far;
    ok := true;
  }

  method ApplyWord(start: Address, metadata: MetaSet, tag_bus: TagBus, ms_cache: MetaSetCache) returns (ok: bool)
    requires ValidBus(tag_bus.provider_map)
    modifies tag_bus, ms_cache
    ensures ValidBus(tag_bus.provider_map)
    ensures Applied(ms_cache.metaSets, tag_bus.provider_map, ok)
            == ApplyOne(old(ms_cache.metaSets), old(tag_bus.provider_map), start, metadata)
  {
    var tag := ms_cache.Canonize(metadata);
    ghost var bus := tag_bus.provider_map;
    ok := tag_bus.SetTagAt(start, Insn, tag);
    if !ok { OutOfRange(bus, start, tag); }
  }

  lemma WordFirst(a: Applied, start: nat, end: nat, tags: MetaSet)
    requires ValidBus(a.bus) && a.ok && start < end && end + WORD < ADDRESS_SPACE
    ensures Continued(a, start, end, tags) == Continued(ApplyOne(a.sets, a.bus, start, tags), start + WORD, end, tags)
  {}

  lemma OutOfRange(bus: Bus, addr: Address, tag: Tag)
    requires ValidBus(bus) && Read(bus, addr, Insn).None?
    ensures Write(bus, addr, Insn, tag) == bus
  {}

  lemma InternTwice(sets: seq<MetaSet>, tags: MetaSet)
    ensures Intern(Intern(sets, tags), tags) == Intern(sets, tags)
  {
    var grown := Intern(sets, tags);
    assert grown[IndexOf(sets, tags)] in grown;
    IndexOfIsFirst(grown, tags);
  }

  /** The set is canonised before the address is looked up, so a range that reaches no region still leaves it. */
  lemma {:induction false} RangeSets(sets: seq<MetaSet>, bus: Bus, start: nat, end: nat, tags: MetaSet)
    requires ValidBus(bus) && end + WORD < ADDRESS_SPACE && start < end
    ensures ApplyRange(sets, bus, start, end, tags).sets == Intern(sets, tags)
    decreases end - start
  {
    var w := ApplyOne(sets, bus, start, tags);
    if w.ok && start + WORD < end {
      RangeSets(w.sets, w.bus, start + WORD, end, tags);
      InternTwice(sets, tags);
    }
  }
}
