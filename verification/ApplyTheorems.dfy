/** After a memory map is applied, every word's instruction tag means the word's tag set; and the map
    may come from a tag file. */
module ApplyTheorems {
  import opened Wrappers
  import opened RiscvIsa
  import opened Interning
  import opened TagBus
  import opened TagBusTheorems
  import opened ApplyMetadata
  import opened MemoryMapTheorems
  import opened RunIterator
  import Bits
  import MM = MetadataMemoryMap
  import TagInfo
  import TagInfoTheorems

  // ---- one range ----

  /** The state before and after applying tags: regions and old tags keep their meaning. */
  predicate Grows(sets: seq<MetaSet>, bus: Bus, a: Applied) {
    && sets <= a.sets && NoDuplicates(a.sets)
    && DisjointRegions(a.bus) && SameRegions(bus, a.bus)
  }

  /** An address beyond 2^63 reaches no provider. */
  lemma HighUnmapped(bus: Bus, addr: Address, kind: Access)
    requires DisjointRegions(bus) && addr >= HALF
    ensures Read(bus, addr, kind) == None
  {
    var i := LowerBound(bus, Key(addr));
    if i < |bus| { assert bus[i].0 <= 0; }
  }

  lemma MappedRegion(bus: Bus, addr: Address, kind: Access) returns (q: nat)
    requires DisjointRegions(bus) && Read(bus, addr, kind).Some?
    ensures addr < HALF && q < |bus| && InRegion(bus[q], addr)
  {
    if addr >= HALF { HighUnmapped(bus, addr, kind); }
    if forall r | 0 <= r < |bus| :: !InRegion(bus[r], addr) { NoRegion(bus, addr, kind); }
    q :| 0 <= q < |bus| && InRegion(bus[q], addr);
  }

  lemma SameRegionsRam(bus: Bus, bus': Bus, r: nat, b: Address)
    requires SameRegions(bus, bus') && r < |bus| && InRegion(bus[r], b) && bus[r].1.Ram?
    ensures r < |bus'| && InRegion(bus'[r], b) && bus'[r].1.Ram?
  {}

  /** A word and an address inside it are in the same region. */
  lemma WordRegion(bus: Bus, q: nat, r: nat, a: Address, b: Address)
    requires DisjointRegions(bus) && q < |bus| && r < |bus| && InRegion(bus[q], a) && InRegion(bus[r], b)
    requires a % MIN_TAG_GRANULARITY == 0 && a <= b < a + MIN_TAG_GRANULARITY
    ensures q == r
  {
    assert StartOf(bus[r].0) <= a;
    OneRegion(bus, q, r, a);
  }

  /** The word at `start` has `tag`, which means `tags`; other addresses read what they read before. */
  predicate WordResult(bus: Bus, w: Applied, start: nat, tags: MetaSet, tag: Tag, b: Address)
    requires ValidBus(bus) && ValidBus(w.bus)
  {
    && Meaning(w.sets, tag) == Some(tags)
    && Read(w.bus, b, Insn) == if start <= b < start + WORD then Some(tag) else Read(bus, b, Insn)
  }

  /** Tagging one word changes the instruction tag of exactly its four addresses, in RAM. */
  lemma OneApplied(sets: seq<MetaSet>, bus: Bus, a: Address, tags: MetaSet, r: nat, b: Address)
    requires DisjointRegions(bus) && NoDuplicates(sets) && a % MIN_TAG_GRANULARITY == 0
    requires r < |bus| && InRegion(bus[r], b) && bus[r].1.Ram?
    ensures var w := ApplyOne(sets, bus, a, tags);
            w.ok ==> WordResult(bus, w, a, tags, TagOf(sets, tags), b)
  {
    var w := ApplyOne(sets, bus, a, tags);
    CanonizeIsStable(sets, tags, 0);
    if w.ok {
      var q := MappedRegion(bus, a, Insn);
      if q == r {
        InsnWriteTouchesOneWord(bus, r, a, b, TagOf(sets, tags));
      } else {
        if a <= b < a + MIN_TAG_GRANULARITY { WordRegion(bus, q, r, a, b); }
        if InRegion(bus[q], b) { OneRegion(bus, q, r, b); }
        ReadAfterWrite(bus, q, a, Insn, b, Insn, TagOf(sets, tags));
      }
    }
  }

  /** What the address `b` reads after `tags` were applied to the words of `start .. end`. */
  predicate Result(bus: Bus, a: Applied, start: nat, end: nat, tags: MetaSet, b: Address)
    requires ValidBus(bus) && ValidBus(a.bus)
  {
    if start <= b < end then Read(a.bus, b, Insn).Some? && Meaning(a.sets, Read(a.bus, b, Insn).value) == Some(tags)
    else Read(a.bus, b, Insn) == Read(bus, b, Insn)
  }

  lemma MeaningGrows(sets: seq<MetaSet>, more: seq<MetaSet>, tag: Tag)
    requires sets <= more && Meaning(sets, tag).Some?
    ensures Meaning(more, tag) == Meaning(sets, tag)
  {}

  lemma NextWord(start: nat, end: nat)
    requires Aligned(start) && start < end
    ensures Aligned(start + WORD) && start % MIN_TAG_GRANULARITY == 0
    ensures Aligned(end) ==> start + WORD <= end
  {}

  lemma GrowsOn(sets: seq<MetaSet>, bus: Bus, w: Applied, a: Applied)
    requires Grows(sets, bus, w) && Grows(w.sets, w.bus, a)
    ensures Grows(sets, bus, a)
  {}

  /** One word first, then the rest of the range. */
  lemma RangeStep(bus: Bus, w: Applied, a: Applied, start: nat, next: nat, end: nat, tags: MetaSet, tag: Tag,
                  b: Address)
    requires ValidBus(bus) && ValidBus(w.bus) && ValidBus(a.bus)
    requires w.sets <= a.sets && next == start + WORD <= end && WordResult(bus, w, start, tags, tag, b)
    requires Result(w.bus, a, next, end, tags, b)
    ensures Result(bus, a, start, end, tags, b)
  {
    if start <= b < next { MeaningGrows(w.sets, a.sets, tag); }
  }

  lemma OneGrows(sets: seq<MetaSet>, bus: Bus, a: Address, tags: MetaSet)
    requires DisjointRegions(bus) && NoDuplicates(sets)
    ensures Grows(sets, bus, ApplyOne(sets, bus, a, tags))
  {
    InternExtends(sets, tags);
    InternKeepsDistinct(sets, tags);
    OneKeepsRegions(sets, bus, a, tags);
  }

  lemma {:induction false} RangeExtends(sets: seq<MetaSet>, bus: Bus, start: nat, end: nat, tags: MetaSet, a: Applied)
    requires ValidBus(bus) && NoDuplicates(sets) && end + WORD < ADDRESS_SPACE
    requires a == ApplyRange(sets, bus, start, end, tags)
    ensures sets <= a.sets && NoDuplicates(a.sets)
    decreases end - start
  {
    if start < end {
      var w := ApplyOne(sets, bus, start, tags);
      OneExtends(sets, bus, start, tags);
      if w.ok { RangeExtends(w.sets, w.bus, start + WORD, end, tags, a); }
    }
  }

  lemma OneExtends(sets: seq<MetaSet>, bus: Bus, addr: Address, tags: MetaSet)
    requires ValidBus(bus) && NoDuplicates(sets)
    ensures var w := ApplyOne(sets, bus, addr, tags);
            sets <= w.sets && NoDuplicates(w.sets)
  {
    InternExtends(sets, tags);
    InternKeepsDistinct(sets, tags);
  }

  lemma {:induction false} RangeKeepsRegions(sets: seq<MetaSet>, bus: Bus, start: nat, end: nat, tags: MetaSet,
                                             a: Applied)
    requires ValidBus(bus) && end + WORD < ADDRESS_SPACE
    requires a == ApplyRange(sets, bus, start, end, tags)
    ensures SameRegions(bus, a.bus)
    decreases end - start
  {
    if start < end {
      var w := ApplyOne(sets, bus, start, tags);
      OneKeepsSize(sets, bus, start, tags);
      if w.ok {
        RangeKeepsRegions(w.sets, w.bus, start + WORD, end, tags, a);
        SameRegionsTransitive(bus, w.bus, a.bus);
      }
    }
  }

  lemma OneKeepsSize(sets: seq<MetaSet>, bus: Bus, addr: Address, tags: MetaSet)
    requires ValidBus(bus)
    ensures SameRegions(bus, ApplyOne(sets, bus, addr, tags).bus)
  {}

  lemma StaysDisjoint(bus: Bus, bus': Bus)
    requires DisjointRegions(bus) && SameRegions(bus, bus') && ValidBus(bus')
    ensures DisjointRegions(bus')
  {
    forall i, j | 0 <= i < j < |bus'| ensures StartOf(bus'[j].0) + bus'[j].1.size <= StartOf(bus'[i].0) {
      assert StartOf(bus[j].0) + bus[j].1.size <= StartOf(bus[i].0);
    }
  }

  lemma SameRegionsTransitive(bus: Bus, bus': Bus, bus'': Bus)
    requires SameRegions(bus, bus') && SameRegions(bus', bus'')
    ensures SameRegions(bus, bus'')
  {}

  lemma RangeGrows(sets: seq<MetaSet>, bus: Bus, start: nat, end: nat, tags: MetaSet)
    requires DisjointRegions(bus) && NoDuplicates(sets) && end + WORD < ADDRESS_SPACE
    ensures Grows(sets, bus, ApplyRange(sets, bus, start, end, tags))
  {
    var a := ApplyRange(sets, bus, start, end, tags);
    RangeExtends(sets, bus, start, end, tags, a);
    RangeKeepsRegions(sets, bus, start, end, tags, a);
    StaysDisjoint(bus, a.bus);
  }

  lemma {:induction false} RangeApplied(sets: seq<MetaSet>, bus: Bus, start: nat, end: nat, tags: MetaSet, a: Applied,
                                        r: nat, b: Address)
    requires DisjointRegions(bus) && NoDuplicates(sets) && end + WORD < ADDRESS_SPACE
    requires Aligned(start) && Aligned(end)
    requires r < |bus| && InRegion(bus[r], b) && bus[r].1.Ram?
    requires a == ApplyRange(sets, bus, start, end, tags) && a.ok
    ensures Result(bus, a, start, end, tags, b)
    decreases end - start
  {
    if start < end {
      var w := ApplyOne(sets, bus, start, tags);
      var next := start + WORD;
      NextWord(start, end);
      OneGrows(sets, bus, start, tags);
      SameRegionsRam(bus, w.bus, r, b);
      RangeApplied(w.sets, w.bus, next, end, tags, a, r, b);
      FirstWord(sets, bus, w, a, start, next, end, tags, r, b);
    }
  }

  lemma FirstWord(sets: seq<MetaSet>, bus: Bus, w: Applied, a: Applied, start: nat, next: nat, end: nat, tags: MetaSet,
                  r: nat, b: Address)
    requires DisjointRegions(bus) && NoDuplicates(sets) && DisjointRegions(w.bus) && NoDuplicates(w.sets)
    requires Aligned(start) && start % MIN_TAG_GRANULARITY == 0 && next == start + WORD <= end
             && end + WORD < ADDRESS_SPACE
    requires r < |bus| && InRegion(bus[r], b) && bus[r].1.Ram?
    requires w == ApplyOne(sets, bus, start, tags) && w.ok && a == ApplyRange(w.sets, w.bus, next, end, tags)
    requires Result(w.bus, a, next, end, tags, b)
    ensures Result(bus, a, start, end, tags, b)
  {
    OneApplied(sets, bus, start, tags, r, b);
    RangeGrows(w.sets, w.bus, next, end, tags);
    RangeStep(bus, w, a, start, next, end, tags, TagOf(sets, tags), b);
  }

  // ---- all runs ----

  /** What `b` reads after the runs were applied. */
  predicate RunResult(bus: Bus, a: Applied, canon: seq<MetaSet>, p: Option<MM.Pointer>, b: Address)
    requires ValidBus(bus) && ValidBus(a.bus)
  {
    && (p.None? ==> Read(a.bus, b, Insn) == Read(bus, b, Insn))
    && (p.Some? ==> p.value.Some? && p.value.value < |canon|
                    && Read(a.bus, b, Insn).Some?
                    && Meaning(a.sets, Read(a.bus, b, Insn).value) == Some(canon[p.value.value]))
  }

  lemma {:induction false} LaterRunsMiss(runs: seq<Run>, addr: nat)
    requires forall k | 0 <= k < |runs| :: addr < runs[k].range.start
    ensures RunsAt(runs, addr) == None
  {
    if |runs| > 0 { LaterRunsMiss(runs[1..], addr); }
  }

  /** The first run, then the others. */
  lemma RunStep(bus: Bus, first: Applied, a: Applied, canon: seq<MetaSet>, runs: seq<Run>, b: Address)
    requires |runs| > 0 && InOrder(runs) && Applicable(canon, runs)
    requires ValidBus(bus) && ValidBus(first.bus) && ValidBus(a.bus) && Grows(first.sets, first.bus, a)
    requires Result(bus, first, runs[0].range.start, runs[0].range.end, canon[runs[0].md.value], b)
    requires RunResult(first.bus, a, canon, RunsAt(runs[1..], b), b)
    ensures RunResult(bus, a, canon, RunsAt(runs, b), b)
  {
    if runs[0].range.start <= b < runs[0].range.end {
      LaterRunsMiss(runs[1..], b);
      MeaningGrows(first.sets, a.sets, Read(first.bus, b, Insn).value);
    }
  }

  lemma {:induction false} RunsGrow(sets: seq<MetaSet>, bus: Bus, canon: seq<MetaSet>, runs: seq<Run>)
    requires DisjointRegions(bus) && NoDuplicates(sets) && Applicable(canon, runs)
    ensures Grows(sets, bus, ApplyRuns(sets, bus, canon, runs))
    decreases |runs|
  {
    if |runs| > 0 {
      var range, tags := runs[0].range, canon[runs[0].md.value];
      var first := ApplyRange(sets, bus, range.start, range.end, tags);
      RangeGrows(sets, bus, range.start, range.end, tags);
      if first.ok {
        RunsGrow(first.sets, first.bus, canon, runs[1..]);
        GrowsOn(sets, bus, first, ApplyRuns(first.sets, first.bus, canon, runs[1..]));
      }
    }
  }

  lemma LaterRuns(canon: seq<MetaSet>, runs: seq<Run>)
    requires |runs| > 0 && Applicable(canon, runs) && NonEmpty(runs) && InOrder(runs)
    ensures Applicable(canon, runs[1..]) && NonEmpty(runs[1..]) && InOrder(runs[1..])
  {}

  /** The induction step of `RunsApplied`. */
  lemma {:induction false} RestApplied(bus: Bus, first: Applied, a: Applied, canon: seq<MetaSet>, rest: seq<Run>,
                                       r: nat, b: Address)
    requires DisjointRegions(first.bus) && NoDuplicates(first.sets) && SameRegions(bus, first.bus)
    requires Applicable(canon, rest) && NonEmpty(rest) && InOrder(rest)
    requires r < |bus| && InRegion(bus[r], b) && bus[r].1.Ram?
    requires a == ApplyRuns(first.sets, first.bus, canon, rest) && a.ok
    ensures RunResult(first.bus, a, canon, RunsAt(rest, b), b) && Grows(first.sets, first.bus, a)
    decreases |rest|, 1
  {
    SameRegionsRam(bus, first.bus, r, b);
    RunsApplied(first.sets, first.bus, canon, rest, a, r, b);
    RunsGrow(first.sets, first.bus, canon, rest);
  }

  lemma FirstRunApplied(sets: seq<MetaSet>, bus: Bus, first: Applied, run: Run, tags: MetaSet, r: nat, b: Address)
    requires DisjointRegions(bus) && NoDuplicates(sets) && InBounds(run.range.start, run.range.end)
    requires run.range.end + WORD < ADDRESS_SPACE && r < |bus| && InRegion(bus[r], b) && bus[r].1.Ram?
    requires first == ApplyRange(sets, bus, run.range.start, run.range.end, tags) && first.ok
    ensures Grows(sets, bus, first) && Result(bus, first, run.range.start, run.range.end, tags, b)
  {
    RangeGrows(sets, bus, run.range.start, run.range.end, tags);
    RangeApplied(sets, bus, run.range.start, run.range.end, tags, first, r, b);
  }

  lemma {:induction false} RunsApplied(sets: seq<MetaSet>, bus: Bus, canon: seq<MetaSet>, runs: seq<Run>, a: Applied,
                                       r: nat, b: Address)
    requires DisjointRegions(bus) && NoDuplicates(sets) && Applicable(canon, runs) && NonEmpty(runs) && InOrder(runs)
    requires r < |bus| && InRegion(bus[r], b) && bus[r].1.Ram?
    requires a == ApplyRuns(sets, bus, canon, runs) && a.ok
    ensures RunResult(bus, a, canon, RunsAt(runs, b), b)
    decreases |runs|, 0
  {
    if |runs| > 0 {
      var range, tags := runs[0].range, canon[runs[0].md.value];
      var first := ApplyRange(sets, bus, range.start, range.end, tags);
      LaterRuns(canon, runs);
      FirstRunApplied(sets, bus, first, runs[0], tags, r, b);
      RestApplied(bus, first, a, canon, runs[1..], r, b);
      RunStep(bus, first, a, canon, runs, b);
    }
  }

  // ---- the whole map ----

  /** A map whose regions have no null words. */
  predicate Taggable(m: MM.Map) {
    Inv(m) && TagInfo.Pointed(m.canon, MapRuns(m.mrs))
  }

  lemma TaggableIsApplicable(m: MM.Map)
    requires Taggable(m)
    ensures Applicable(m.canon, MapRuns(m.mrs)) && NonEmpty(MapRuns(m.mrs)) && InOrder(MapRuns(m.mrs))
  {
    MapRunsOrdered(m.mrs, 0);
  }

  /** After the map is applied without an exception, every address in a RAM region reads an instruction
      tag that means exactly the map's tag set for it, and addresses the map does not cover read the
      tag they had. Tags issued before keep their meaning. */
  lemma MapApplied(sets: seq<MetaSet>, bus: Bus, m: MM.Map, r: nat, b: Address)
    requires DisjointRegions(bus) && NoDuplicates(sets) && Taggable(m)
    requires r < |bus| && InRegion(bus[r], b) && bus[r].1.Ram?
    ensures Applicable(m.canon, MapRuns(m.mrs))
    ensures var a := ApplyRuns(sets, bus, m.canon, MapRuns(m.mrs));
            && sets <= a.sets && NoDuplicates(a.sets) && SameRegions(bus, a.bus) && ValidBus(a.bus)
            && (a.ok ==> ReadsMap(bus, a, m, b, b, Insn))
  {
    TaggableIsApplicable(m);
    var a := ApplyRuns(sets, bus, m.canon, MapRuns(m.mrs));
    if a.ok { RunsApplied(sets, bus, m.canon, MapRuns(m.mrs), a, r, b); }
    RunsGrow(sets, bus, m.canon, MapRuns(m.mrs));
    MapRunsAt(m.mrs, b);
    TagInfoTheorems.TagsOfPointer(m, b);
  }

  /** What an access reads after a map was applied: a tag that means the map's tag set at `at`, or its old
      tag where the map has none. */
  ghost predicate ReadsMap(bus: Bus, a: Applied, m: MM.Map, at: nat, b: Address, kind: Access)
    requires ValidBus(bus) && ValidBus(a.bus) && MM.WellFormed(m)
  {
    && (MM.TagsAt(m, at).None? ==> Read(a.bus, b, kind) == Read(bus, b, kind))
    && (MM.TagsAt(m, at).Some? ==>
          Read(a.bus, b, kind).Some? && Meaning(a.sets, Read(a.bus, b, kind).value) == MM.TagsAt(m, at))
  }

  /** The granules of a RAM region stay the same. */
  lemma SameBase(bus: Bus, bus': Bus, r: nat, b: Address)
    requires DisjointRegions(bus) && DisjointRegions(bus') && SameRegions(bus, bus')
    requires r < |bus| && InRegion(bus[r], b) && bus[r].1.Ram?
    ensures InRegion(bus'[r], b) && bus'[r].1.Ram? && BaseOf(bus', r, b) == BaseOf(bus, r, b)
  {}

  lemma DataReadsFirstWord(bus: Bus, a: Applied, m: MM.Map, r: nat, b: Address)
    requires DisjointRegions(bus) && DisjointRegions(a.bus) && SameRegions(bus, a.bus) && MM.WellFormed(m)
    requires r < |bus| && InRegion(bus[r], b) && bus[r].1.Ram?
    requires ReadsMap(bus, a, m, BaseOf(bus, r, b), BaseOf(bus, r, b), Insn)
    ensures ReadsMap(bus, a, m, BaseOf(bus, r, b), b, Data)
  {
    SameBase(bus, a.bus, r, b);
    DataTagIsFirstInsnTag(bus, r, b);
    DataTagIsFirstInsnTag(a.bus, r, b);
  }

  /** The data tags. A data access reads the cell of the first word of its granule, so it finds the tag set the
      map has there: the one for the address itself exactly when the map has the same at both. */
  lemma MapAppliedData(sets: seq<MetaSet>, bus: Bus, m: MM.Map, r: nat, b: Address)
    requires DisjointRegions(bus) && NoDuplicates(sets) && Taggable(m)
    requires r < |bus| && InRegion(bus[r], b) && bus[r].1.Ram?
    ensures Applicable(m.canon, MapRuns(m.mrs))
    ensures var a := ApplyRuns(sets, bus, m.canon, MapRuns(m.mrs));
            ValidBus(a.bus) && (a.ok ==> ReadsMap(bus, a, m, BaseOf(bus, r, b), b, Data))
    ensures var a, base := ApplyRuns(sets, bus, m.canon, MapRuns(m.mrs)), BaseOf(bus, r, b);
            a.ok && MM.TagsAt(m, base).Some? ==>
              && Read(a.bus, b, Data).Some?
              && (Meaning(a.sets, Read(a.bus, b, Data).value) == MM.TagsAt(m, b)
                  <==> MM.TagsAt(m, b) == MM.TagsAt(m, base))
  {
    MapApplied(sets, bus, m, r, BaseOf(bus, r, b));
    RunsGrow(sets, bus, m.canon, MapRuns(m.mrs));
    var a := ApplyRuns(sets, bus, m.canon, MapRuns(m.mrs));
    if a.ok { DataReadsFirstWord(bus, a, m, r, b); }
  }

  // ---- exceptions ----

  /** All words of the range are in some region. */
  predicate AllMapped(bus: Bus, start: nat, end: nat)
    requires ValidBus(bus) && end < ADDRESS_SPACE
  {
    forall addr: nat | start <= addr < end && Aligned(addr) :: Read(bus, addr, Insn).Some?
  }

  lemma SameRegionsMap(bus: Bus, bus': Bus, addr: Address)
    requires DisjointRegions(bus) && DisjointRegions(bus') && SameRegions(bus, bus')
    ensures Read(bus, addr, Insn).Some? <==> Read(bus', addr, Insn).Some?
  {
    if addr >= HALF {
      HighUnmapped(bus, addr, Insn);
      HighUnmapped(bus', addr, Insn);
    } else if q: nat :| q < |bus| && InRegion(bus[q], addr) {
      ReadInRegion(bus, q, addr, Insn);
      assert InRegion(bus'[q], addr);
      ReadInRegion(bus', q, addr, Insn);
    } else {
      forall r | 0 <= r < |bus'| ensures !InRegion(bus'[r], addr) { assert !InRegion(bus[r], addr); }
      NoRegion(bus, addr, Insn);
      NoRegion(bus', addr, Insn);
    }
  }

  lemma OneKeepsRegions(sets: seq<MetaSet>, bus: Bus, a: Address, tags: MetaSet)
    requires DisjointRegions(bus)
    ensures var w := ApplyOne(sets, bus, a, tags); DisjointRegions(w.bus) && SameRegions(bus, w.bus)
  {
    if Read(bus, a, Insn).Some? { WriteKeepsRegions(bus, a, Insn, TagOf(sets, tags)); }
  }

  lemma AllMappedFirst(bus: Bus, start: nat, end: nat)
    requires ValidBus(bus) && end < ADDRESS_SPACE && Aligned(start) && start < end
    ensures AllMapped(bus, start, end) <==> Read(bus, start, Insn).Some? && AllMapped(bus, start + WORD, end)
  {
    forall addr: nat | start <= addr < end && Aligned(addr) ensures addr == start || start + WORD <= addr {}
  }

  /** Applying a range succeeds exactly when every word of it is in some region. */
  lemma {:induction false} RangeOkIff(sets: seq<MetaSet>, bus: Bus, start: nat, end: nat, tags: MetaSet)
    requires DisjointRegions(bus) && NoDuplicates(sets) && end + WORD < ADDRESS_SPACE && Aligned(start)
    ensures ApplyRange(sets, bus, start, end, tags).ok <==> AllMapped(bus, start, end)
    decreases end - start
  {
    if start < end {
      var w := ApplyOne(sets, bus, start, tags);
      OneGrows(sets, bus, start, tags);
      NextWord(start, end);
      AllMappedFirst(bus, start, end);
      if w.ok {
        RangeOkIff(w.sets, w.bus, start + WORD, end, tags);
        MappedTransfer(bus, w.bus, start + WORD, end);
      }
    }
  }

  predicate RunsMapped(bus: Bus, canon: seq<MetaSet>, runs: seq<Run>)
    requires ValidBus(bus) && Applicable(canon, runs)
  {
    forall k | 0 <= k < |runs| :: AllMapped(bus, runs[k].range.start, runs[k].range.end)
  }

  lemma MappedTransfer(bus: Bus, bus': Bus, start: nat, end: nat)
    requires DisjointRegions(bus) && DisjointRegions(bus') && SameRegions(bus, bus') && end < ADDRESS_SPACE
    ensures AllMapped(bus, start, end) <==> AllMapped(bus', start, end)
  {
    forall addr: nat | start <= addr < end && Aligned(addr)
      ensures Read(bus, addr, Insn).Some? <==> Read(bus', addr, Insn).Some?
    {
      SameRegionsMap(bus, bus', addr);
    }
  }

  lemma RunsTransfer(bus: Bus, bus': Bus, canon: seq<MetaSet>, runs: seq<Run>)
    requires DisjointRegions(bus) && DisjointRegions(bus') && SameRegions(bus, bus') && Applicable(canon, runs)
    ensures RunsMapped(bus, canon, runs) <==> RunsMapped(bus', canon, runs)
  {
    forall k | 0 <= k < |runs|
      ensures AllMapped(bus, runs[k].range.start, runs[k].range.end)
              <==> AllMapped(bus', runs[k].range.start, runs[k].range.end)
    {
      MappedTransfer(bus, bus', runs[k].range.start, runs[k].range.end);
    }
  }

  lemma RunsMappedFirst(bus: Bus, canon: seq<MetaSet>, runs: seq<Run>)
    requires ValidBus(bus) && Applicable(canon, runs) && |runs| > 0
    ensures RunsMapped(bus, canon, runs)
            <==> AllMapped(bus, runs[0].range.start, runs[0].range.end) && RunsMapped(bus, canon, runs[1..])
  {
    assert runs == [runs[0]] + runs[1..];
  }

  /** The configuration exception is thrown exactly when some word of the map is in no region. */
  lemma {:induction false} RunsOkIff(sets: seq<MetaSet>, bus: Bus, canon: seq<MetaSet>, runs: seq<Run>)
    requires DisjointRegions(bus) && NoDuplicates(sets) && Applicable(canon, runs) && NonEmpty(runs)
    ensures ApplyRuns(sets, bus, canon, runs).ok <==> RunsMapped(bus, canon, runs)
    decreases |runs|
  {
    if |runs| > 0 {
      var range, tags, rest := runs[0].range, canon[runs[0].md.value], runs[1..];
      var first := ApplyRange(sets, bus, range.start, range.end, tags);
      RangeOkIff(sets, bus, range.start, range.end, tags);
      RangeGrows(sets, bus, range.start, range.end, tags);
      RunsMappedFirst(bus, canon, runs);
      if first.ok {
        RunsOkIff(first.sets, first.bus, canon, rest);
        RunsTransfer(bus, first.bus, canon, rest);
      }
    }
  }

  // ---- from the file to the validator ----

  /** A map saved to a file, loaded and applied: for every address in RAM the validator reads an instruction
      tag that means exactly the original map's tag set there, and a data tag that means the tag set at the
      beginning of the granule; where the map has no tags the old tags stay. */
  lemma FileReachesValidator(m: MM.Map, xlen: nat, sets: seq<MetaSet>, bus: Bus, r: nat, b: Address)
    requires TagInfoTheorems.Savable(m) && xlen < Bits.Pow2(32)
    requires DisjointRegions(bus) && NoDuplicates(sets) && r < |bus| && InRegion(bus[r], b) && bus[r].1.Ram?
    ensures var loaded := TagInfoTheorems.Loaded(TagInfoTheorems.Saved(m, xlen));
            && Taggable(loaded) && Applicable(loaded.canon, MapRuns(loaded.mrs))
            && var a := ApplyRuns(sets, bus, loaded.canon, MapRuns(loaded.mrs));
               ValidBus(a.bus)
               && (a.ok ==> ReadsMap(bus, a, m, b, b, Insn) && ReadsMap(bus, a, m, BaseOf(bus, r, b), b, Data))
  {
    var loaded := TagInfoTheorems.Loaded(TagInfoTheorems.Saved(m, xlen));
    TagInfoTheorems.LoadedHasNoGaps(m, xlen);
    TagInfoTheorems.LoadOfSave(m, xlen, b);
    TagInfoTheorems.LoadOfSave(m, xlen, BaseOf(bus, r, b));
    MapApplied(sets, bus, loaded, r, b);
    MapAppliedData(sets, bus, loaded, r, b);
  }
}
