/** Walking the memory map as maximal runs of words with the same pointer
    (tagging_tools/metadata_memory_map.h, `ForwardIterator`). */
module RunIterator {
  import opened Wrappers
  import opened Interning
  import opened MetadataMemoryMap
  import opened MemoryMapTheorems

  /** What the iterator yields. */
  datatype Run = Run(range: Range, md: Pointer)

  /** Where the run that includes word `j - 1` ends. */
  function RunEnd(mem: seq<Pointer>, j: nat): (e: nat)
    requires 0 < j <= |mem|
    ensures j <= e <= |mem|
    decreases |mem| - j
  {
    if j < |mem| && mem[j] == mem[j - 1] then RunEnd(mem, j + 1) else j
  }

  function AddrOf(r: Region, i: nat): nat {
    r.range.start + i * STRIDE
  }

  /** The run starting at word `i`. */
  function RunFrom(r: Region, i: nat): Run
    requires i < |r.mem|
  {
    var e := RunEnd(r.mem, i + 1);
    Run(Range(AddrOf(r, i), if e == |r.mem| then r.range.end else AddrOf(r, e)), r.mem[i])
  }

  function RegionRuns(r: Region, i: nat): seq<Run>
    requires i <= |r.mem|
    decreases |r.mem| - i
  {
    if i == |r.mem| then [] else [RunFrom(r, i)] + RegionRuns(r, RunEnd(r.mem, i + 1))
  }

  function MapRuns(mrs: seq<Region>): seq<Run> {
    if |mrs| == 0 then [] else RegionRuns(mrs[0], 0) + MapRuns(mrs[1..])
  }

  /** The last run of a region ends where the region does, even if that is not the end of a word. */
  lemma {:induction false} RegionRunsEnd(r: Region, i: nat)
    requires i < |r.mem|
    ensures var runs := RegionRuns(r, i); |runs| > 0 && runs[|runs| - 1].range.end == r.range.end
    decreases |r.mem| - i
  {
    if RunEnd(r.mem, i + 1) < |r.mem| { RegionRunsEnd(r, RunEnd(r.mem, i + 1)); }
  }

  lemma FirstRun(r: Region, i: nat, after: seq<Run>)
    requires i < |r.mem|
    ensures RegionRuns(r, i) + after == [RunFrom(r, i)] + (RegionRuns(r, RunEnd(r.mem, i + 1)) + after)
  {}

  // ---- the iterator ----

  class ForwardIterator {
    const mrs: seq<Region>
    var it: nat
    var mr_it: nat
    var current: Run

    /** The runs not yet passed, `current` not included. */
    ghost function Rest(): seq<Run>
      requires it < |mrs| ==> mr_it <= |mrs[it].mem|
      reads this
    {
      if it >= |mrs| then [] else RegionRuns(mrs[it], mr_it) + MapRuns(mrs[it + 1..])
    }

    /** `current` and the runs after it, nothing for the end iterator. */
    ghost function Pending(): seq<Run>
      requires it < |mrs| ==> mr_it <= |mrs[it].mem|
      reads this
    {
      if it >= |mrs| then [] else [current] + Rest()
    }

    ghost predicate Valid()
      reads this
    {
      && it <= |mrs|
      && (forall i | 0 <= i < |mrs| :: |mrs[i].mem| > 0)
      && (it < |mrs| ==> mr_it <= |mrs[it].mem|)
    }

    /** `begin` makes the iterator for the first run; otherwise it is the end iterator. */
    constructor (mrs: seq<Region>, begin: bool)
      requires forall i | 0 <= i < |mrs| :: |mrs[i].mem| > 0
      ensures Valid() && this.mrs == mrs
      ensures Pending() == if begin then MapRuns(mrs) else []
    {
      this.mrs := mrs;
      mr_it := 0;
      it := if begin && mrs != [] then 0 else |mrs|;
      current := Run(Range(0, 0), None);
      new;
      if begin && mrs != [] {
        assert Rest() == MapRuns(mrs);
        Advance(); // the first run becomes the current one
      }
    }

    /** Move to the next run, or past the end. */
    method Advance()
      requires Valid()
      modifies this
      ensures Valid() && Pending() == old(Rest())
    {
      if it == |mrs| { return; }
      // the current region is used up
      if mr_it == |mrs[it].mem| {
        NextRegion();
        if it == |mrs| { return; }
      }
      TakeNext();
    }

    method TakeNext()
      requires Valid() && it < |mrs| && mr_it < |mrs[it].mem|
      modifies `mr_it, `current
      ensures Valid() && Pending() == old(Rest())
    {
      ghost var i, after := mr_it, MapRuns(mrs[it + 1..]);
      TakeRun();
      FirstRun(mrs[it], i, after);
    }

    method NextRegion()
      requires Valid() && it < |mrs| && mr_it == |mrs[it].mem|
      modifies `it, `mr_it
      ensures Valid() && it == old(it) + 1 && (it < |mrs| ==> mr_it == 0)
      ensures Rest() == old(Rest())
    {
      it := it + 1;
      if it != |mrs| {
        mr_it := 0;
        assert mrs[it..][0] == mrs[it] && mrs[it..][1..] == mrs[it + 1..];
      }
    }

    /** Record the run that starts at the iterator and pass over it. */
    method TakeRun()
      requires Valid() && it < |mrs| && mr_it < |mrs[it].mem|
      modifies `mr_it, `current
      ensures current == RunFrom(mrs[it], old(mr_it)) && mr_it == RunEnd(mrs[it].mem, old(mr_it) + 1)
    {
      var r := mrs[it];
      var start := AddrOf(r, mr_it);
      var md := r.mem[mr_it];
      // the run goes on while the pointers are the same
      mr_it := mr_it + 1;
      while mr_it != |r.mem| && r.mem[mr_it] == r.mem[mr_it - 1]
        invariant 0 < mr_it <= |r.mem| && RunEnd(r.mem, mr_it) == RunEnd(r.mem, old(mr_it) + 1)
        decreases |r.mem| - mr_it
      {
        mr_it := mr_it + 1;
      }
      current := Run(Range(start, if mr_it == |r.mem| then r.range.end else AddrOf(r, mr_it)), md);
    }
  }

  /** `for (const auto& run : map)` */
  method CollectRuns(mrs: seq<Region>) returns (runs: seq<Run>)
    requires forall i | 0 <= i < |mrs| :: |mrs[i].mem| > 0
    ensures runs == MapRuns(mrs)
  {
    runs := [];
    var itr := new ForwardIterator(mrs, true);
    ghost var pending, all := itr.Pending(), MapRuns(mrs);
    while itr.it != |mrs|
      invariant itr.Valid() && itr.mrs == mrs && fresh(itr) && pending == itr.Pending()
      invariant all == runs + pending
      decreases |pending|
    {
      MoveFirst(runs, pending);
      runs := runs + [itr.current];
      pending := pending[1..];
      itr.Advance();
    }
  }

  lemma MoveFirst(a: seq<Run>, b: seq<Run>)
    requires |b| > 0
    ensures a + b == (a + [b[0]]) + b[1..]
  {}

  // ---- what the runs are ----

  /** The pointer of the first run that contains an address. */
  function RunsAt(runs: seq<Run>, addr: nat): Option<Pointer> {
    if |runs| == 0 then None
    else if Contains(runs[0].range, addr) then Some(runs[0].md)
    else RunsAt(runs[1..], addr)
  }

  /** The pointer the map holds for an address, none outside all regions. */
  function PointerAt(mrs: seq<Region>, addr: nat): Option<Pointer> {
    if |mrs| == 0 then None
    else if Contains(mrs[0].range, addr) then
      var k := (addr - mrs[0].range.start) / STRIDE;
      if k < |mrs[0].mem| then Some(mrs[0].mem[k]) else None
    else PointerAt(mrs[1..], addr)
  }

  lemma {:induction false} RunsAtConcat(a: seq<Run>, b: seq<Run>, addr: nat)
    ensures RunsAt(a + b, addr) == if RunsAt(a, addr).Some? then RunsAt(a, addr) else RunsAt(b, addr)
  {
    if |a| == 0 {
      assert a + b == b;
    } else {
      assert (a + b)[1..] == a[1..] + b;
      RunsAtConcat(a[1..], b, addr);
    }
  }

  /** All words of a run hold the same pointer, and the word after it another one. */
  lemma {:induction false} RunEndMaximal(mem: seq<Pointer>, j: nat)
    requires 0 < j <= |mem|
    ensures var e := RunEnd(mem, j);
            && (forall k | j - 1 <= k < e :: mem[k] == mem[j - 1])
            && (e < |mem| ==> mem[e] != mem[j - 1])
    decreases |mem| - j
  {
    if j < |mem| && mem[j] == mem[j - 1] { RunEndMaximal(mem, j + 1); }
  }

  /** The runs of a region from word `i` on hold exactly the region's pointers from there on. */
  lemma {:induction false} RegionRunsAt(r: Region, i: nat, addr: nat)
    requires ValidRegion(r) && i <= |r.mem|
    ensures RunsAt(RegionRuns(r, i), addr)
            == if AddrOf(r, i) <= addr < r.range.end then Some(r.mem[(addr - r.range.start) / STRIDE]) else None
    decreases |r.mem| - i
  {
    if i < |r.mem| {
      var e := RunEnd(r.mem, i + 1);
      RunEndMaximal(r.mem, i + 1);
      RegionRunsAt(r, e, addr);
      assert RegionRuns(r, i)[1..] == RegionRuns(r, e);
    }
  }

  /** The runs cover exactly the map and carry its pointers. */
  lemma {:induction false} MapRunsAt(mrs: seq<Region>, addr: nat)
    requires forall i | 0 <= i < |mrs| :: ValidRegion(mrs[i])
    ensures RunsAt(MapRuns(mrs), addr) == PointerAt(mrs, addr)
  {
    if |mrs| != 0 {
      MapRunsAt(mrs[1..], addr);
      RunsAtConcat(RegionRuns(mrs[0], 0), MapRuns(mrs[1..]), addr);
      RegionRunsAt(mrs[0], 0, addr);
      if Contains(mrs[0].range, addr) { IndexWithin(mrs[0], addr); }
    }
  }

  // ---- order and maximality ----

  predicate NonEmpty(runs: seq<Run>) {
    forall k | 0 <= k < |runs| :: InBounds(runs[k].range.start, runs[k].range.end)
  }

  predicate InOrder(runs: seq<Run>) {
    forall k, l | 0 <= k < l < |runs| :: runs[k].range.end <= runs[l].range.start
  }

  predicate Within(runs: seq<Run>, lo: nat, hi: nat) {
    forall k | 0 <= k < |runs| :: lo <= runs[k].range.start && runs[k].range.end <= hi
  }

  lemma InOrderConcat(a: seq<Run>, b: seq<Run>, lo: nat, mid: nat, hi: nat)
    requires NonEmpty(a) && NonEmpty(b) && InOrder(a) && InOrder(b)
    requires Within(a, lo, mid) && Within(b, mid, hi) && lo <= mid <= hi
    ensures NonEmpty(a + b) && InOrder(a + b) && Within(a + b, lo, hi)
  {
    forall k, l | 0 <= k < l < |a + b| ensures (a + b)[k].range.end <= (a + b)[l].range.start {
      if l < |a| {
        assert a[k].range.end <= a[l].range.start;
      } else if k >= |a| {
        assert b[k - |a|].range.end <= b[l - |a|].range.start;
      }
    }
  }

  lemma {:induction false} RegionRunsOrdered(r: Region, i: nat)
    requires ValidRegion(r) && i <= |r.mem|
    ensures var runs := RegionRuns(r, i);
            NonEmpty(runs) && InOrder(runs) && Within(runs, AddrOf(r, i), r.range.end)
    decreases |r.mem| - i
  {
    if i < |r.mem| {
      var e := RunEnd(r.mem, i + 1);
      RegionRunsOrdered(r, e);
      InOrderConcat([RunFrom(r, i)], RegionRuns(r, e), AddrOf(r, i), AddrOf(r, e), r.range.end);
    }
  }

  /** The runs of a sorted map are non-empty, word-aligned, in order and disjoint. */
  lemma {:induction false} MapRunsOrdered(mrs: seq<Region>, lo: nat)
    requires (forall i | 0 <= i < |mrs| :: ValidRegion(mrs[i]) && lo <= mrs[i].range.start)
    requires Ascending(mrs)
    ensures var runs := MapRuns(mrs);
            NonEmpty(runs) && InOrder(runs) && Within(runs, lo, ADDRESS_SPACE)
  {
    if |mrs| != 0 {
      var mid := mrs[0].range.end;
      RegionRunsOrdered(mrs[0], 0);
      MapRunsOrdered(mrs[1..], mid);
      InOrderConcat(RegionRuns(mrs[0], 0), MapRuns(mrs[1..]), lo, mid, ADDRESS_SPACE);
    }
  }

  /** Two neighbouring runs that touch hold different pointers. */
  predicate Maximal(runs: seq<Run>) {
    forall k | 0 <= k < |runs| - 1 :: runs[k].range.end == runs[k + 1].range.start ==> runs[k].md != runs[k + 1].md
  }

  lemma {:induction false} RegionRunsMaximal(r: Region, i: nat)
    requires ValidRegion(r) && i <= |r.mem|
    ensures var runs := RegionRuns(r, i);
            && Maximal(runs)
            && (i < |r.mem| ==> |runs| > 0 && runs[0].range.start == AddrOf(r, i) && runs[0].md == r.mem[i]
                                && runs[|runs| - 1].range.end == r.range.end
                                && runs[|runs| - 1].md == r.mem[|r.mem| - 1])
    decreases |r.mem| - i
  {
    if i < |r.mem| {
      var e := RunEnd(r.mem, i + 1);
      RunEndMaximal(r.mem, i + 1);
      RegionRunsMaximal(r, e);
      var runs, rest := RegionRuns(r, i), RegionRuns(r, e);
      assert runs[0] == RunFrom(r, i) && runs[1..] == rest;
      forall k | 0 <= k < |runs| - 1
        ensures runs[k].range.end == runs[k + 1].range.start ==> runs[k].md != runs[k + 1].md
      {
        if k > 0 { assert runs[k] == rest[k - 1] && runs[k + 1] == rest[k]; }
      }
    }
  }

  /** Region `b` starts where `a` ends, with the same pointer on both sides. */
  predicate SeamAt(a: Region, b: Region) {
    |a.mem| > 0 && |b.mem| > 0 && a.range.end == b.range.start && a.mem[|a.mem| - 1] == b.mem[0]
  }

  predicate NoSeam(mrs: seq<Region>) {
    forall i | 0 <= i < |mrs| - 1 :: !SeamAt(mrs[i], mrs[i + 1])
  }

  lemma MaximalConcat(a: seq<Run>, b: seq<Run>)
    requires |a| > 0 && |b| > 0
    ensures Maximal(a + b) <==>
            Maximal(a) && Maximal(b) && (a[|a| - 1].range.end == b[0].range.start ==> a[|a| - 1].md != b[0].md)
  {
    var s := a + b;
    assert forall k | 0 <= k < |a| :: s[k] == a[k];
    assert forall k | 0 <= k < |b| :: s[|a| + k] == b[k];
    if Maximal(s) {
      forall k | 0 <= k < |b| - 1 ensures b[k].range.end == b[k + 1].range.start ==> b[k].md != b[k + 1].md {
        assert s[|a| + k] == b[k] && s[|a| + k + 1] == b[k + 1];
      }
    }
  }

  /** Runs never merge across regions, so they are maximal in the whole map exactly when no two
      regions touch with the same tags at the seam. */
  lemma {:induction false} MapRunsMaximalIff(mrs: seq<Region>)
    requires forall i | 0 <= i < |mrs| :: ValidRegion(mrs[i])
    ensures Maximal(MapRuns(mrs)) <==> NoSeam(mrs)
  {
    if |mrs| == 1 {
      RegionRunsMaximal(mrs[0], 0);
      assert MapRuns(mrs) == RegionRuns(mrs[0], 0) + MapRuns([]) by { assert mrs[1..] == []; }
      assert MapRuns(mrs) == RegionRuns(mrs[0], 0);
    } else if |mrs| > 1 {
      var rest := mrs[1..];
      RegionRunsMaximal(mrs[0], 0);
      RegionRunsMaximal(rest[0], 0);
      MapRunsMaximalIff(rest);
      MaximalConcat(RegionRuns(mrs[0], 0), MapRuns(rest));
      assert MapRuns(rest)[0] == RegionRuns(rest[0], 0)[0];
      SeamSplit(mrs);
    }
  }

  lemma SeamSplit(mrs: seq<Region>)
    requires |mrs| > 1
    ensures NoSeam(mrs) <==> NoSeam(mrs[1..]) && !SeamAt(mrs[0], mrs[1])
  {
    var rest := mrs[1..];
    assert forall i | 0 <= i < |rest| :: rest[i] == mrs[i + 1];
    if NoSeam(rest) && !SeamAt(mrs[0], mrs[1]) {
      forall i | 0 <= i < |mrs| - 1 ensures !SeamAt(mrs[i], mrs[i + 1]) {
        if i > 0 { assert rest[i - 1] == mrs[i] && rest[i] == mrs[i + 1]; }
      }
    }
    if NoSeam(mrs) {
      forall i | 0 <= i < |rest| - 1 ensures !SeamAt(rest[i], rest[i + 1]) {
        assert !SeamAt(mrs[i + 1], mrs[i + 2]);
      }
    }
  }

  const LOW := Region(Range(4, 8), [Some(0)])
  const HIGH := Region(Range(12, 16), [Some(0)])
  const GROWN_LOW := Region(Range(4, 12), [Some(0), Some(0)])

  lemma LowGrows()
    ensures AddToRegion([{1}], LOW, 8, 12, {1}) == ([{1}], GROWN_LOW)
  {
    var g := Grown(LOW, 8, 12);
    assert g == Region(Range(4, 12), [Some(0), None]);
    assert IndexOf([{1}], {1}) == 0 && g.mem[1 := Some(0)] == [Some(0), Some(0)];
    assert AddWords([{1}], [Some(0), Some(0)], 2, 2, {1}) == ([{1}], [Some(0), Some(0)]);
  }

  lemma LowAdded()
    ensures WithRange(Map([], []), 4, 8, {1}) == Map([{1}], [LOW])
  {
    OneWordAdded([], 4, {1});
  }

  lemma HighAdded()
    ensures WithRange(Map([{1}], [LOW]), 12, 16, {1}) == Map([{1}], [LOW, HIGH])
  {
    OneWordAdded([{1}], 12, {1});
    assert FirstAdjacent([LOW], 12, 16) == 1;
    assert FirstAfter([LOW], 16) == 1;
  }

  lemma SeamAdded()
    ensures WithRange(Map([{1}], [LOW, HIGH]), 8, 12, {1}) == Map([{1}], [GROWN_LOW, HIGH])
  {
    LowGrows();
    assert FirstAdjacent([LOW, HIGH], 8, 12) == 0;
  }

  lemma ThreeRanges(a: Added, b: Added, c: Added)
    ensures var one := WithRange(Map([], []), a.start, a.end, a.tags);
            var two := WithRange(one, b.start, b.end, b.tags);
            Build([a, b, c]) == WithRange(two, c.start, c.end, c.tags)
  {
    OneMore([], a);
    OneMore([a], b);
    OneMore([a, b], c);
    assert [] + [a] == [a] && [a] + [b] == [a, b] && [a, b] + [c] == [a, b, c];
  }

  const SEAM_RANGES := [Added(4, 8, {1}), Added(12, 16, {1}), Added(8, 12, {1})]

  lemma SeamBuilt()
    ensures Build(SEAM_RANGES) == Map([{1}], [GROWN_LOW, HIGH])
  {
    LowAdded();
    HighAdded();
    SeamAdded();
    ThreeRanges(Added(4, 8, {1}), Added(12, 16, {1}), Added(8, 12, {1}));
  }

  lemma SeamIsThere()
    ensures !Maximal(MapRuns([GROWN_LOW, HIGH]))
  {
    var mrs := [GROWN_LOW, HIGH];
    assert SeamAt(mrs[0], mrs[1]);
    MapRunsMaximalIff(mrs);
  }

  /** Tagging words 4, 12 and then 8 with the same tags gives two runs that touch and have the same tags. */
  lemma SeamSplitsRun()
    ensures !Maximal(MapRuns(Build(SEAM_RANGES).mrs))
  {
    SeamBuilt();
    SeamIsThere();
  }

  /** Comparing pointers is comparing tag sets, because canonical sets are not repeated. */
  lemma PointersAreSets(canon: seq<TagSet>, a: Pointer, b: Pointer)
    requires NoDuplicates(canon) && (a.Some? ==> a.value < |canon|) && (b.Some? ==> b.value < |canon|)
    ensures a == b <==> Deref(canon, a) == Deref(canon, b)
  {
    if a.Some? && b.Some? { UniquePosition(canon, a.value, b.value); }
  }

  lemma {:induction false} RunPointersValid(canon: seq<TagSet>, mrs: seq<Region>, k: nat)
    requires (forall i | 0 <= i < |mrs| :: ValidPointers(canon, mrs[i].mem)) && k < |MapRuns(mrs)|
    ensures MapRuns(mrs)[k].md.Some? ==> MapRuns(mrs)[k].md.value < |canon|
  {
    var n := |RegionRuns(mrs[0], 0)|;
    if k < n { RegionPointersValid(canon, mrs[0], 0, k); } else { RunPointersValid(canon, mrs[1..], k - n); }
  }

  lemma {:induction false} RegionPointersValid(canon: seq<TagSet>, r: Region, i: nat, k: nat)
    requires ValidPointers(canon, r.mem) && i <= |r.mem| && k < |RegionRuns(r, i)|
    ensures RegionRuns(r, i)[k].md.Some? ==> RegionRuns(r, i)[k].md.value < |canon|
    decreases |r.mem| - i
  {
    if k > 0 { RegionPointersValid(canon, r, RunEnd(r.mem, i + 1), k - 1); }
  }

  /** In a map without seams, two runs that touch have different tag sets. */
  lemma RunsMaximalInTags(m: Map, k: nat)
    requires Inv(m) && NoSeam(m.mrs) && k + 1 < |MapRuns(m.mrs)|
    requires MapRuns(m.mrs)[k].range.end == MapRuns(m.mrs)[k + 1].range.start
    ensures var a, b := MapRuns(m.mrs)[k].md, MapRuns(m.mrs)[k + 1].md;
            && (a.Some? ==> a.value < |m.canon|) && (b.Some? ==> b.value < |m.canon|)
            && Deref(m.canon, a) != Deref(m.canon, b)
  {
    MapRunsMaximalIff(m.mrs);
    RunPointersValid(m.canon, m.mrs, k);
    RunPointersValid(m.canon, m.mrs, k + 1);
    PointersAreSets(m.canon, MapRuns(m.mrs)[k].md, MapRuns(m.mrs)[k + 1].md);
  }
}
