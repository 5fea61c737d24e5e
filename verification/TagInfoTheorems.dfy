/** Loading a saved memory map gives back the same map. */
module TagInfoTheorems {
  import opened Wrappers
  import opened Bits
  import opened Interning
  import opened MetadataMemoryMap
  import opened MemoryMapTheorems
  import opened RunIterator
  import opened TagInfo

  // ---- ranges added from left to right ----

  /** Aligned ranges, each at or after the end of those before it. */
  predicate LeftToRight(adds: seq<Added>) {
    && (forall i | 0 <= i < |adds| :: InBounds(adds[i].start, adds[i].end))
    && (forall i, j | 0 <= i < j < |adds| :: adds[i].end <= adds[j].start)
  }

  predicate EndsBy(mrs: seq<Region>, limit: nat) {
    forall i | 0 <= i < |mrs| :: mrs[i].range.end <= limit
  }

  /** To the right of everything, only the region that ends exactly there is adjacent. */
  lemma AdjacentOnTheRight(m: Map, start: nat, end: nat)
    requires Inv(m) && InBounds(start, end) && EndsBy(m.mrs, start)
    ensures HullClear(m, start, end)
  {
    var i := FirstAdjacent(m.mrs, start, end);
    forall j | 0 <= j < |m.mrs| && j != i
      ensures Disjoint(m.mrs[j].range, if i < |m.mrs| then Hull(m.mrs[i].range, start, end) else Range(start, end))
    {
      if i < |m.mrs| {
        EndsAt(m.mrs[i], start, end);
        if j < i { assert m.mrs[j].range.end <= m.mrs[i].range.start; }
      }
    }
  }

  lemma EndsAt(r: Region, start: nat, end: nat)
    requires ValidRegion(r) && InBounds(start, end) && r.range.end <= start
    requires Adjacent(r, start) || Adjacent(r, end)
    ensures r.range.end == start
  {}

  lemma AddOnTheRight(m: Map, start: nat, end: nat, tags: TagSet)
    requires Inv(m) && InBounds(start, end) && EndsBy(m.mrs, start)
    ensures EndsBy(WithRange(m, start, end, tags).mrs, end)
  {
    var m' := WithRange(m, start, end, tags);
    var i := FirstAdjacent(m.mrs, start, end);
    if i < |m.mrs| {
      AddToRegionMeaning(m.canon, m.mrs[i], start, end, tags, 0);
    } else {
      AddToRegionMeaning(m.canon, EMPTY_REGION, start, end, tags, 0);
    }
  }

  /** Ranges added from left to right never meet an occupied hull. */
  lemma {:induction false} LeftToRightIsClear(adds: seq<Added>, limit: nat)
    requires LeftToRight(adds) && forall i | 0 <= i < |adds| :: adds[i].end <= limit
    ensures AllClear(adds) && Inv(Build(adds)) && EndsBy(Build(adds).mrs, limit)
  {
    if adds != [] {
      var before, last := adds[..|adds| - 1], adds[|adds| - 1];
      LeftToRightIsClear(before, last.start);
      AdjacentOnTheRight(Build(before), last.start, last.end);
      AddOnTheRight(Build(before), last.start, last.end, last.tags);
      BuildMeaning(adds, 0);
    }
  }

  lemma {:induction false} AddAllBuilds(before: seq<Added>, rs: seq<Record>)
    ensures AddAll(Build(before), rs) == Build(before + rs)
    decreases |rs|
  {
    if |rs| == 0 {
      assert before + rs == before;
    } else {
      var next := before + [rs[0]];
      assert before + rs == next + rs[1..];
      AddAllBuilds(next, rs[1..]);
      BuildNext(before, rs[0]);
      AddAllFirst(Build(before), rs);
    }
  }

  lemma AddAllFirst(m: Map, rs: seq<Record>)
    requires WellFormed(m) && |rs| > 0
    ensures AddAll(m, rs) == AddAll(WithRange(m, rs[0].start, rs[0].end, rs[0].tags), rs[1..])
  {}

  lemma BuildNext(before: seq<Added>, a: Added)
    ensures Build(before + [a]) == WithRange(Build(before), a.start, a.end, a.tags)
  {
    assert (before + [a])[..|before|] == before;
  }

  // ---- the tags the records carry ----

  lemma {:induction false} UnionOfNone(adds: seq<Added>, addr: nat)
    requires forall i | 0 <= i < |adds| :: !(adds[i].start <= addr < adds[i].end)
    ensures UnionAt(adds, addr) == None
  {
    if adds != [] { UnionOfNone(adds[..|adds| - 1], addr); }
  }

  lemma {:induction false} UnionOfOne(adds: seq<Added>, k: nat, addr: nat)
    requires LeftToRight(adds) && k < |adds| && adds[k].start <= addr < adds[k].end
    ensures UnionAt(adds, addr) == Some(adds[k].tags)
  {
    var before := adds[..|adds| - 1];
    if k == |adds| - 1 {
      UnionOfNone(before, addr);
    } else {
      assert adds[k].end <= adds[|adds| - 1].start;
      UnionOfOne(before, k, addr);
    }
  }

  lemma {:induction false} RunFound(runs: seq<Run>, addr: nat) returns (k: nat)
    requires RunsAt(runs, addr).Some?
    ensures k < |runs| && Contains(runs[k].range, addr) && RunsAt(runs, addr) == Some(runs[k].md)
  {
    if Contains(runs[0].range, addr) {
      k := 0;
    } else {
      k := RunFound(runs[1..], addr);
      k := k + 1;
    }
  }

  lemma {:induction false} RunNotFound(runs: seq<Run>, k: nat, addr: nat)
    requires RunsAt(runs, addr).None? && k < |runs|
    ensures !Contains(runs[k].range, addr)
  {
    if k > 0 { RunNotFound(runs[1..], k - 1, addr); }
  }

  /** The tags of the run at an address. */
  lemma RecordsAt(canon: seq<TagSet>, runs: seq<Run>, addr: nat)
    requires Pointed(canon, runs) && LeftToRight(RunRecords(canon, runs))
    ensures var p := RunsAt(runs, addr);
            && (p.None? ==> UnionAt(RunRecords(canon, runs), addr) == None)
            && (p.Some? ==> p.value.Some? && p.value.value < |canon|
                            && UnionAt(RunRecords(canon, runs), addr) == Some(canon[p.value.value]))
  {
    var rs := RunRecords(canon, runs);
    if RunsAt(runs, addr).Some? {
      var k := RunFound(runs, addr);
      UnionOfOne(rs, k, addr);
    } else {
      forall i | 0 <= i < |rs| ensures !(rs[i].start <= addr < rs[i].end) { RunNotFound(runs, i, addr); }
      UnionOfNone(rs, addr);
    }
  }

  lemma {:induction false} TagsOfPointer(m: Map, addr: nat)
    requires WellFormed(m)
    ensures var p := PointerAt(m.mrs, addr);
            && (p.None? ==> TagsAt(m, addr) == None)
            && (p.Some? ==> (p.value.Some? ==> p.value.value < |m.canon|) && TagsAt(m, addr) == Deref(m.canon, p.value))
    decreases |m.mrs|
  {
    if m.mrs != [] && !Contains(m.mrs[0].range, addr) {
      var rest := Map(m.canon, m.mrs[1..]);
      TagsOfPointer(rest, addr);
      assert FirstContaining(m.mrs, addr) == 1 + FirstContaining(rest.mrs, addr);
    }
  }

  // ---- the round trip ----

  /** What the saver needs, and what fits the reader's types. */
  predicate Savable(m: Map) {
    && Inv(m)
    && Pointed(m.canon, MapRuns(m.mrs))
    && AllFit(RunRecords(m.canon, MapRuns(m.mrs)))
  }

  function Saved(m: Map, xlen: nat): seq<Byte>
    requires Savable(m)
  {
    FileBytes(xlen, RunRecords(m.canon, MapRuns(m.mrs)))
  }

  /** The map read from a file into an empty map. */
  function Loaded(bytes: seq<Byte>): Map {
    var file := ParseFile(bytes);
    if file.None? then Map([], []) else AddAll(Map([], []), file.value.1.1)
  }

  /** A gap-free map is saved and loaded with the same word size and the same tags at every address. */
  lemma LoadOfSave(m: Map, xlen: nat, addr: nat)
    requires Savable(m) && xlen < Pow2(32)
    ensures var file := ParseFile(Saved(m, xlen));
            file.Some? && file.value.0 == xlen && file.value.1.0
    ensures Inv(Loaded(Saved(m, xlen)))
    ensures TagsAt(Loaded(Saved(m, xlen)), addr) == TagsAt(m, addr)
  {
    ParseFileInverts(xlen, RunRecords(m.canon, MapRuns(m.mrs)));
    RecordsRebuild(m, RunRecords(m.canon, MapRuns(m.mrs)), addr);
  }

  lemma RecordsRebuild(m: Map, rs: seq<Record>, addr: nat)
    requires Inv(m) && Pointed(m.canon, MapRuns(m.mrs)) && rs == RunRecords(m.canon, MapRuns(m.mrs))
    ensures Inv(AddAll(Map([], []), rs))
    ensures TagsAt(AddAll(Map([], []), rs), addr) == TagsAt(m, addr)
  {
    MapRunsOrdered(m.mrs, 0);
    RecordsAt(m.canon, MapRuns(m.mrs), addr);
    MapRunsAt(m.mrs, addr);
    TagsOfPointer(m, addr);
    AddedInOrder(rs, addr);
  }

  lemma AddedInOrder(rs: seq<Record>, addr: nat)
    requires LeftToRight(rs)
    ensures Inv(AddAll(Map([], []), rs)) && TagsAt(AddAll(Map([], []), rs), addr) == UnionAt(rs, addr)
  {
    LeftToRightIsClear(rs, ADDRESS_SPACE);
    AddAllBuilds([], rs);
    assert [] + rs == rs && Build([]) == Map([], []);
    BuildMeaning(rs, addr);
  }

  // ---- the loaded map has no gaps ----

  predicate RegionFull(canon: seq<TagSet>, r: Region)
    requires ValidPointers(canon, r.mem)
  {
    forall addr: nat | addr < r.range.end && r.range.start <= addr :: RegionTags(canon, r, addr).Some?
  }

  predicate NoGaps(m: Map)
    requires WellFormed(m)
  {
    forall i | 0 <= i < |m.mrs| :: RegionFull(m.canon, m.mrs[i])
  }

  lemma FullAfterAdd(canon: seq<TagSet>, r: Region, start: nat, end: nat, tags: TagSet)
    requires ValidPointers(canon, r.mem) && NoDuplicates(canon) && InBounds(start, end)
    requires r == EMPTY_REGION || (ValidRegion(r) && RegionFull(canon, r) && r.range.end == start)
    ensures RegionFull(AddToRegion(canon, r, start, end, tags).0, AddToRegion(canon, r, start, end, tags).1)
  {
    var res := AddToRegion(canon, r, start, end, tags);
    AddToRegionMeaning(canon, r, start, end, tags, 0);
    forall addr: nat | addr < res.1.range.end && res.1.range.start <= addr
      ensures RegionTags(res.0, res.1, addr).Some?
    {
      AddToRegionMeaning(canon, r, start, end, tags, addr);
    }
  }

  lemma FullStays(canon: seq<TagSet>, canon': seq<TagSet>, r: Region)
    requires ValidPointers(canon, r.mem) && canon <= canon' && RegionFull(canon, r)
    ensures ValidPointers(canon', r.mem) && RegionFull(canon', r)
  {
    forall addr: nat | addr < r.range.end && r.range.start <= addr ensures RegionTags(canon', r, addr).Some? {
      StableTags(canon, canon', r, addr);
    }
  }

  lemma AddLeavesNoGaps(m: Map, start: nat, end: nat, tags: TagSet)
    requires Inv(m) && InBounds(start, end) && EndsBy(m.mrs, start) && NoGaps(m)
    ensures NoGaps(WithRange(m, start, end, tags))
  {
    var m' := WithRange(m, start, end, tags);
    var i := FirstAdjacent(m.mrs, start, end);
    var r := if i < |m.mrs| then m.mrs[i] else EMPTY_REGION;
    if i < |m.mrs| { EndsAt(r, start, end); }
    FullAfterAdd(m.canon, r, start, end, tags);
    AddExtends(m.canon, r, start, end, tags);
    forall j | 0 <= j < |m.mrs| ensures ValidPointers(m'.canon, m.mrs[j].mem) && RegionFull(m'.canon, m.mrs[j]) {
      FullStays(m.canon, m'.canon, m.mrs[j]);
    }
    NoGapsOf(m, m', i, AddToRegion(m.canon, r, start, end, tags).1, FirstAfter(m.mrs, end));
  }

  /** Every region of the new map is the added one or a region of the old map. */
  lemma NoGapsOf(m: Map, m': Map, i: nat, r': Region, at: nat)
    requires WellFormed(m') && i <= |m.mrs| && at <= |m.mrs|
    requires m'.mrs == if i < |m.mrs| then m.mrs[i := r'] else m.mrs[..at] + [r'] + m.mrs[at..]
    requires forall j | 0 <= j < |m.mrs| :: ValidPointers(m'.canon, m.mrs[j].mem) && RegionFull(m'.canon, m.mrs[j])
    requires ValidPointers(m'.canon, r'.mem) && RegionFull(m'.canon, r')
    ensures NoGaps(m')
  {
    forall j | 0 <= j < |m'.mrs| ensures m'.mrs[j] == r' || m'.mrs[j] in m.mrs {}
  }

  lemma {:induction false} BuildHasNoGaps(adds: seq<Added>, limit: nat)
    requires LeftToRight(adds) && forall i | 0 <= i < |adds| :: adds[i].end <= limit
    ensures NoGaps(Build(adds))
  {
    if adds != [] {
      var before, last := adds[..|adds| - 1], adds[|adds| - 1];
      BuildHasNoGaps(before, last.start);
      LeftToRightIsClear(before, last.start);
      AddLeavesNoGaps(Build(before), last.start, last.end, last.tags);
    }
  }

  /** A map without gaps is one the saver accepts. */
  lemma NoGapsPointed(m: Map)
    requires Inv(m) && NoGaps(m)
    ensures Pointed(m.canon, MapRuns(m.mrs))
  {
    var runs := MapRuns(m.mrs);
    MapRunsOrdered(m.mrs, 0);
    forall k | 0 <= k < |runs| ensures runs[k].md.Some? && runs[k].md.value < |m.canon| {
      var addr := runs[k].range.start;
      if RunsAt(runs, addr).None? { RunNotFound(runs, k, addr); }
      var f := RunFound(runs, addr);
      assert f == k;
      MapRunsAt(m.mrs, addr);
      TagsOfPointer(m, addr);
      PointerInRegion(m, addr);
    }
  }

  lemma PointerInRegion(m: Map, addr: nat)
    requires Inv(m) && NoGaps(m) && PointerAt(m.mrs, addr).Some?
    ensures TagsAt(m, addr).Some?
  {
    if forall i | 0 <= i < |m.mrs| :: !Contains(m.mrs[i].range, addr) {
      NotInMap(m.mrs, addr);
    }
    var i :| 0 <= i < |m.mrs| && Contains(m.mrs[i].range, addr);
    TagsInRegion(m, i, addr);
  }

  lemma {:induction false} NotInMap(mrs: seq<Region>, addr: nat)
    requires forall i | 0 <= i < |mrs| :: !Contains(mrs[i].range, addr)
    ensures PointerAt(mrs, addr).None?
  {
    if |mrs| > 0 { NotInMap(mrs[1..], addr); }
  }

  /** So a loaded map can be saved again. */
  lemma LoadedHasNoGaps(m: Map, xlen: nat)
    requires Savable(m) && xlen < Pow2(32)
    ensures Inv(Loaded(Saved(m, xlen))) && Pointed(Loaded(Saved(m, xlen)).canon, MapRuns(Loaded(Saved(m, xlen)).mrs))
  {
    MapRunsOrdered(m.mrs, 0);
    ParseFileInverts(xlen, RunRecords(m.canon, MapRuns(m.mrs)));
    AddedHasNoGaps(RunRecords(m.canon, MapRuns(m.mrs)));
    NoGapsPointed(Loaded(Saved(m, xlen)));
  }

  lemma AddedHasNoGaps(rs: seq<Record>)
    requires LeftToRight(rs)
    ensures Inv(AddAll(Map([], []), rs)) && NoGaps(AddAll(Map([], []), rs))
  {
    AddedInOrder(rs, 0);
    BuildHasNoGaps(rs, ADDRESS_SPACE);
    AddAllBuilds([], rs);
    assert [] + rs == rs && Build([]) == Map([], []);
  }
}
