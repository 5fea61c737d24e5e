/** Exactly when adding a range to the memory map leaves the union of the old and the new tags. */
module MemoryMapUnion {
  import opened Wrappers
  import opened MetadataMemoryMap
  import opened MemoryMapTheorems

  function MeetsRange(r: Region, start: nat, end: nat): bool {
    !Disjoint(r.range, Range(start, end))
  }

  /** No region in front of the chosen one meets the range (no region at all when none is chosen), and the
      later regions have no tags in it. */
  ghost predicate UnionReachable(m: Map, start: nat, end: nat)
    requires WellFormed(m)
  {
    && NoneMeets(m, FirstAdjacent(m.mrs, start, end), start, end)
    && NoTagsBehind(m, FirstAdjacent(m.mrs, start, end), start, end)
  }

  predicate NoneMeets(m: Map, i: nat, start: nat, end: nat)
    requires i <= |m.mrs|
  {
    forall j | 0 <= j < i :: !MeetsRange(m.mrs[j], start, end)
  }

  ghost predicate NoTagsBehind(m: Map, i: nat, start: nat, end: nat)
    requires WellFormed(m)
  {
    forall j, addr: nat | i < j < |m.mrs| && start <= addr < end && Contains(m.mrs[j].range, addr) ::
      NoTags(RegionTags(m.canon, m.mrs[j], addr))
  }

  /** Nothing to lose: no tag set, or the empty one. */
  predicate NoTags(tags: Option<TagSet>) {
    tags.None? || tags.value == {}
  }

  /** After the call `get_metadata` is the union, for all tags and at all addresses. */
  ghost predicate UnionRight(m: Map, start: nat, end: nat)
    requires WellFormed(m)
  {
    forall tags: TagSet, addr: nat ::
      TagsAt(WithRange(m, start, end, tags), addr) == Updated(TagsAt(m, addr), start, end, tags, addr)
  }

  /** The first of several regions that contains an address decides, whatever comes behind it. */
  lemma LookedUpIn(m: Map, f: nat, addr: nat)
    requires WellFormed(m) && f < |m.mrs| && ValidRegion(m.mrs[f]) && Contains(m.mrs[f].range, addr)
    requires forall k | 0 <= k < f :: !Contains(m.mrs[k].range, addr)
    ensures TagsAt(m, addr) == RegionTags(m.canon, m.mrs[f], addr)
  {
    LookedUpFirst(m, f, addr);
  }

  lemma SomethingElse(t: TagSet) returns (x: nat)
    ensures x !in t
  {
    x := Bound(t);
  }

  /** A number above all elements. */
  ghost function Bound(t: TagSet): (b: nat)
    ensures forall x | x in t :: x < b
  {
    if t == {} then 0
    else
      var x :| x in t;
      var rest := Bound(t - {x});
      assert forall y | y in t :: y == x || y in t - {x};
      if rest > x then rest else x + 1
  }

  /** Where the old tags stay, the union is wrong for some tags. */
  lemma StayingIsWrong(before: Option<TagSet>, start: nat, end: nat, addr: nat) returns (tags: TagSet)
    requires start <= addr < end
    ensures before != Updated(before, start, end, tags, addr)
  {
    if before.None? {
      tags := {};
    } else {
      var x := SomethingElse(before.value);
      tags := {x};
      assert x in Merged(tags, before);
    }
  }

  // ---- a chosen region ----

  lemma ChosenBefore(m: Map, start: nat, end: nat, tags: TagSet, j: nat, addr: nat)
    requires Inv(m) && InBounds(start, end) && j < FirstAdjacent(m.mrs, start, end) < |m.mrs|
    requires Contains(m.mrs[j].range, addr)
    ensures TagsAt(WithRange(m, start, end, tags), addr) == TagsAt(m, addr)
  {
    var i := FirstAdjacent(m.mrs, start, end);
    var res := AddToRegion(m.canon, m.mrs[i], start, end, tags);
    AddToRegionMeaning(m.canon, m.mrs[i], start, end, tags, addr);
    AddExtends(m.canon, m.mrs[i], start, end, tags);
    forall k | 0 <= k < j ensures !Contains(m.mrs[k].range, addr) { assert m.mrs[k].range.end <= m.mrs[j].range.start; }
    LookedUpIn(m, j, addr);
    LookedUpIn(WithRange(m, start, end, tags), j, addr);
    StableTags(m.canon, res.0, m.mrs[j], addr);
  }

  /** Inside the range, with no earlier region there, the grown region answers. */
  lemma ChosenInside(m: Map, start: nat, end: nat, tags: TagSet, addr: nat)
    requires Inv(m) && InBounds(start, end) && FirstAdjacent(m.mrs, start, end) < |m.mrs| && start <= addr < end
    requires forall j | 0 <= j < FirstAdjacent(m.mrs, start, end) :: !Contains(m.mrs[j].range, addr)
    ensures var r := m.mrs[FirstAdjacent(m.mrs, start, end)];
            TagsAt(WithRange(m, start, end, tags), addr) == Some(Merged(tags, RegionTags(m.canon, r, addr)))
  {
    var i := FirstAdjacent(m.mrs, start, end);
    AddToRegionMeaning(m.canon, m.mrs[i], start, end, tags, addr);
    LookedUpIn(WithRange(m, start, end, tags), i, addr);
  }

  /** A word of the grown region outside the range and outside the old region lies in front of that region. */
  lemma GapIsBelow(r: Region, start: nat, end: nat, addr: nat)
    requires ValidRegion(r) && InBounds(start, end) && (Adjacent(r, start) || Adjacent(r, end))
    requires Contains(Hull(r.range, start, end), addr) && !Contains(r.range, addr) && !(start <= addr < end)
    ensures addr < r.range.start
  {
    AdjacentIsNear(r, start, end);
  }

  lemma AdjacentIsNear(r: Region, start: nat, end: nat)
    requires ValidRegion(r) && InBounds(start, end) && (Adjacent(r, start) || Adjacent(r, end))
    ensures start <= r.range.end && r.range.start <= end + STRIDE
  {}

  /** Outside the range nothing changes. */
  lemma ChosenOutside(m: Map, start: nat, end: nat, tags: TagSet, addr: nat)
    requires Inv(m) && InBounds(start, end) && FirstAdjacent(m.mrs, start, end) < |m.mrs| && !(start <= addr < end)
    requires forall j | 0 <= j < FirstAdjacent(m.mrs, start, end) :: !Contains(m.mrs[j].range, addr)
    ensures TagsAt(WithRange(m, start, end, tags), addr) == TagsAt(m, addr)
  {
    var i := FirstAdjacent(m.mrs, start, end);
    var m', res := WithRange(m, start, end, tags), AddToRegion(m.canon, m.mrs[i], start, end, tags);
    AddToRegionMeaning(m.canon, m.mrs[i], start, end, tags, addr);
    AddExtends(m.canon, m.mrs[i], start, end, tags);
    if Contains(res.1.range, addr) {
      LookedUpIn(m', i, addr);
      if Contains(m.mrs[i].range, addr) {
        LookedUpIn(m, i, addr);
      } else {
        GapIsBelow(m.mrs[i], start, end, addr);
        NothingBelow(m, i, addr);
      }
    } else {
      SameBehind(m, m', i, addr);
    }
  }

  lemma NothingBelow(m: Map, i: nat, addr: nat)
    requires Inv(m) && i < |m.mrs| && addr < m.mrs[i].range.start
    requires forall j | 0 <= j < i :: !Contains(m.mrs[j].range, addr)
    ensures TagsAt(m, addr) == None
  {
    forall j | i < j < |m.mrs| ensures !Contains(m.mrs[j].range, addr) {
      assert m.mrs[i].range.end <= m.mrs[j].range.start;
    }
    TagsOutside(m, addr);
  }

  /** Two maps that differ in a region that does not contain the address. */
  lemma SameBehind(m: Map, m': Map, i: nat, addr: nat)
    requires Inv(m) && WellFormed(m') && i < |m.mrs| && m.canon <= m'.canon
    requires |m'.mrs| == |m.mrs| && m'.mrs == m.mrs[i := m'.mrs[i]]
    requires !Contains(m.mrs[i].range, addr) && !Contains(m'.mrs[i].range, addr)
    ensures TagsAt(m', addr) == TagsAt(m, addr)
  {
    var f := FirstContaining(m.mrs, addr);
    if f < |m.mrs| {
      LookedUpIn(m, f, addr);
      LookedUpIn(m', f, addr);
      StableTags(m.canon, m'.canon, m.mrs[f], addr);
    } else {
      forall k | 0 <= k < |m.mrs| ensures !Contains(m'.mrs[k].range, addr) {
        if k != i { assert m'.mrs[k] == m.mrs[k]; }
      }
    }
  }

  /** Inside the range, the lookup in the old map reaches region `i`, or tags that add nothing. */
  lemma ChosenAdds(m: Map, i: nat, start: nat, end: nat, tags: TagSet, addr: nat)
    requires Inv(m) && i < |m.mrs| && NoTagsBehind(m, i, start, end) && start <= addr < end
    requires forall j | 0 <= j < i :: !Contains(m.mrs[j].range, addr)
    ensures Merged(tags, TagsAt(m, addr)) == Merged(tags, RegionTags(m.canon, m.mrs[i], addr))
  {
    if Contains(m.mrs[i].range, addr) {
      TagsInRegion(m, i, addr);
    } else if j: nat :| i < j < |m.mrs| && Contains(m.mrs[j].range, addr) {
      TagsInRegion(m, j, addr);
    } else {
      TagsOutside(m, addr);
    }
  }

  lemma ChosenRight(m: Map, start: nat, end: nat, tags: TagSet, addr: nat)
    requires Inv(m) && InBounds(start, end) && FirstAdjacent(m.mrs, start, end) < |m.mrs|
    requires UnionReachable(m, start, end)
    ensures TagsAt(WithRange(m, start, end, tags), addr) == Updated(TagsAt(m, addr), start, end, tags, addr)
  {
    var i := FirstAdjacent(m.mrs, start, end);
    if j: nat :| j < i && Contains(m.mrs[j].range, addr) {
      assert !MeetsRange(m.mrs[j], start, end);
      ChosenBefore(m, start, end, tags, j, addr);
    } else if start <= addr < end {
      ChosenInside(m, start, end, tags, addr);
      ChosenAdds(m, i, start, end, tags, addr);
    } else {
      ChosenOutside(m, start, end, tags, addr);
    }
  }

  /** An address that witnesses a meeting. */
  lemma MeetingPoint(r: Region, start: nat, end: nat) returns (addr: nat)
    requires ValidRegion(r) && start < end && MeetsRange(r, start, end)
    ensures Contains(r.range, addr) && start <= addr < end
  {
    addr := Max(r.range.start, start);
  }

  lemma MeetingIsWrong(m: Map, start: nat, end: nat, j: nat) returns (tags: TagSet, addr: nat)
    requires Inv(m) && InBounds(start, end) && j < FirstAdjacent(m.mrs, start, end) < |m.mrs|
    requires MeetsRange(m.mrs[j], start, end)
    ensures TagsAt(WithRange(m, start, end, tags), addr) != Updated(TagsAt(m, addr), start, end, tags, addr)
  {
    addr := MeetingPoint(m.mrs[j], start, end);
    tags := StayingIsWrong(TagsAt(m, addr), start, end, addr);
    ChosenBefore(m, start, end, tags, j, addr);
  }

  /** Tags of a later region are hidden. */
  lemma HidingIsWrong(m: Map, start: nat, end: nat, j: nat, addr: nat)
    requires Inv(m) && InBounds(start, end) && FirstAdjacent(m.mrs, start, end) < j < |m.mrs| && start <= addr < end
    requires Contains(m.mrs[j].range, addr) && !NoTags(RegionTags(m.canon, m.mrs[j], addr))
    ensures TagsAt(WithRange(m, start, end, {}), addr) != Updated(TagsAt(m, addr), start, end, {}, addr)
  {
    HiddenTags(m, start, end, {}, j, addr);
    TagsInRegion(m, j, addr);
  }

  lemma ChosenWrong(m: Map, start: nat, end: nat) returns (tags: TagSet, addr: nat)
    requires Inv(m) && InBounds(start, end) && FirstAdjacent(m.mrs, start, end) < |m.mrs|
    requires !UnionReachable(m, start, end)
    ensures TagsAt(WithRange(m, start, end, tags), addr) != Updated(TagsAt(m, addr), start, end, tags, addr)
  {
    var i := FirstAdjacent(m.mrs, start, end);
    if !NoneMeets(m, i, start, end) {
      var j: nat :| j < i && MeetsRange(m.mrs[j], start, end);
      tags, addr := MeetingIsWrong(m, start, end, j);
    } else {
      var j, a: nat :| i < j < |m.mrs| && start <= a < end && Contains(m.mrs[j].range, a)
                       && !NoTags(RegionTags(m.canon, m.mrs[j], a));
      addr, tags := a, {};
      HidingIsWrong(m, start, end, j, a);
    }
  }

  // ---- a new region ----

  lemma StartsBefore(m: Map, end: nat, j: nat)
    requires Inv(m) && j < |m.mrs| && m.mrs[j].range.start < end
    ensures j < FirstAfter(m.mrs, end)
  {
  }

  lemma NewHides(m: Map, start: nat, end: nat, tags: TagSet, j: nat, addr: nat)
    requires Inv(m) && InBounds(start, end) && FirstAdjacent(m.mrs, start, end) == |m.mrs|
    requires j < |m.mrs| && Contains(m.mrs[j].range, addr) && start <= addr < end
    ensures TagsAt(WithRange(m, start, end, tags), addr) == TagsAt(m, addr)
  {
    var res := AddToRegion(m.canon, EMPTY_REGION, start, end, tags);
    var at, m' := FirstAfter(m.mrs, end), WithRange(m, start, end, tags);
    AddToRegionMeaning(m.canon, EMPTY_REGION, start, end, tags, addr);
    AddExtends(m.canon, EMPTY_REGION, start, end, tags);
    StartsBefore(m, end, j);
    assert forall k | 0 <= k < at :: m'.mrs[k] == m.mrs[k];
    forall k | 0 <= k < j ensures !Contains(m.mrs[k].range, addr) { assert m.mrs[k].range.end <= m.mrs[j].range.start; }
    LookedUpIn(m, j, addr);
    LookedUpIn(m', j, addr);
    StableTags(m.canon, res.0, m.mrs[j], addr);
  }

  lemma NewRight(m: Map, start: nat, end: nat, tags: TagSet, addr: nat)
    requires Inv(m) && InBounds(start, end) && FirstAdjacent(m.mrs, start, end) == |m.mrs|
             && UnionReachable(m, start, end)
    ensures TagsAt(WithRange(m, start, end, tags), addr) == Updated(TagsAt(m, addr), start, end, tags, addr)
  {
    assert forall j | 0 <= j < |m.mrs| :: !MeetsRange(m.mrs[j], start, end);
    AddNewRegion(m, start, end, tags, addr);
  }

  lemma NewWrong(m: Map, start: nat, end: nat) returns (tags: TagSet, addr: nat)
    requires Inv(m) && InBounds(start, end) && FirstAdjacent(m.mrs, start, end) == |m.mrs|
             && !UnionReachable(m, start, end)
    ensures TagsAt(WithRange(m, start, end, tags), addr) != Updated(TagsAt(m, addr), start, end, tags, addr)
  {
    var j: nat :| j < |m.mrs| && MeetsRange(m.mrs[j], start, end);
    addr := MeetingPoint(m.mrs[j], start, end);
    tags := StayingIsWrong(TagsAt(m, addr), start, end, addr);
    NewHides(m, start, end, tags, j, addr);
  }

  /** `get_metadata` is the union of the old tags and the added ones, for all tags and at all addresses, exactly
      when no region in front of the chosen one meets the range and no later region has tags in it. */
  lemma UnionReachableIff(m: Map, start: nat, end: nat)
    requires Inv(m) && InBounds(start, end)
    ensures UnionRight(m, start, end) <==> UnionReachable(m, start, end)
  {
    var chosen := FirstAdjacent(m.mrs, start, end) < |m.mrs|;
    if UnionReachable(m, start, end) {
      forall tags: TagSet, addr: nat
        ensures TagsAt(WithRange(m, start, end, tags), addr) == Updated(TagsAt(m, addr), start, end, tags, addr)
      {
        if chosen { ChosenRight(m, start, end, tags, addr); } else { NewRight(m, start, end, tags, addr); }
      }
    } else {
      var tags: TagSet, addr: nat;
      if chosen { tags, addr := ChosenWrong(m, start, end); } else { tags, addr := NewWrong(m, start, end); }
    }
  }

  // ---- the same, told from the ranges of the regions ----

  /** `addr` is at most one word in front of the range or behind its last word. No address is near a range that
      starts at 0, because the word in front of it is the last one of the address space. */
  predicate Near(r: Range, addr: nat) {
    0 < r.start <= addr + STRIDE && addr <= r.end
  }

  /** The added range begins or ends near the region. */
  predicate Joins(r: Range, start: nat, end: nat) {
    Near(r, start) || Near(r, end)
  }

  lemma AdjacentIff(r: Region, addr: nat)
    requires ValidRegion(r) && Aligned(addr)
    ensures Adjacent(r, addr) <==> Near(r.range, addr)
  {
    AdjacentWraps(r, addr);
  }

  /** At the top of the address space too, where the word behind the region wraps to its bottom. */
  lemma AdjacentWraps(r: Region, addr: nat)
    requires Aligned(r.range.start) && Aligned(r.range.end) && r.range.start < r.range.end < ADDRESS_SPACE
    requires Aligned(addr)
    ensures Adjacent(r, addr) <==> Near(r.range, addr) && r.range.end + STRIDE < ADDRESS_SPACE
  {}

  /** The range is added to region `i`, the first one it joins, or to a new one if it joins none. */
  predicate FirstJoined(mrs: seq<Region>, start: nat, end: nat, i: nat) {
    && i <= |mrs|
    && (i < |mrs| ==> Joins(mrs[i].range, start, end))
    && (forall j | 0 <= j < i :: !Joins(mrs[j].range, start, end))
  }

  lemma FirstJoinedIff(m: Map, start: nat, end: nat, i: nat)
    requires Inv(m) && InBounds(start, end)
    ensures FirstJoined(m.mrs, start, end, i) <==> i == FirstAdjacent(m.mrs, start, end)
  {
    forall j | 0 <= j < |m.mrs|
      ensures Joins(m.mrs[j].range, start, end) <==> Adjacent(m.mrs[j], start) || Adjacent(m.mrs[j], end)
    {
      AdjacentIff(m.mrs[j], start);
      AdjacentIff(m.mrs[j], end);
    }
    var f := FirstAdjacent(m.mrs, start, end);
    if FirstJoined(m.mrs, start, end, i) {
      assert !(i < f) && !(f < i);
    }
  }

  /** `get_metadata` is the union of the old tags and the added ones, for all tags and at all addresses, exactly
      when no region in front of the first joined one meets the range (no region at all if it joins none) and no
      later region has tags in it. */
  lemma UnionRightIff(m: Map, start: nat, end: nat, i: nat)
    requires Inv(m) && InBounds(start, end) && FirstJoined(m.mrs, start, end, i)
    ensures UnionRight(m, start, end) <==> NoneMeets(m, i, start, end) && NoTagsBehind(m, i, start, end)
  {
    FirstJoinedIff(m, start, end, i);
    UnionReachableIff(m, start, end);
  }

  /** The regions stay sorted and disjoint exactly when the range, joined with that region, overlaps no other. */
  lemma StaysSortedIff(m: Map, start: nat, end: nat, tags: TagSet, i: nat)
    requires Inv(m) && InBounds(start, end) && FirstJoined(m.mrs, start, end, i)
    ensures var hull := if i < |m.mrs| then Hull(m.mrs[i].range, start, end) else Range(start, end);
            Inv(WithRange(m, start, end, tags))
            <==> forall j | 0 <= j < |m.mrs| && j != i :: Disjoint(m.mrs[j].range, hull)
  {
    FirstJoinedIff(m, start, end, i);
    StaysDisjointIff(m, start, end, tags);
  }

  /** A range that joins one region, and meets and joins no other, is unioned. */
  lemma OneJoinedIsRight(m: Map, start: nat, end: nat, i: nat)
    requires Inv(m) && InBounds(start, end) && i < |m.mrs| && Joins(m.mrs[i].range, start, end)
    requires forall j | 0 <= j < |m.mrs| && j != i ::
               !Joins(m.mrs[j].range, start, end) && Disjoint(m.mrs[j].range, Range(start, end))
    ensures UnionRight(m, start, end)
  {
    assert NoneMeets(m, i, start, end);
    OthersApart(m, start, end, i);
    UnionRightIff(m, start, end, i);
  }

  lemma OthersApart(m: Map, start: nat, end: nat, i: nat)
    requires WellFormed(m) && forall j | i < j < |m.mrs| :: Disjoint(m.mrs[j].range, Range(start, end))
    ensures NoTagsBehind(m, i, start, end)
  {}

  /** A range that meets and joins no region is unioned. */
  lemma NoneJoinedIsRight(m: Map, start: nat, end: nat)
    requires Inv(m) && InBounds(start, end)
    requires forall j | 0 <= j < |m.mrs| ::
               !Joins(m.mrs[j].range, start, end) && Disjoint(m.mrs[j].range, Range(start, end))
    ensures UnionRight(m, start, end)
  {
    assert NoneMeets(m, |m.mrs|, start, end);
    UnionRightIff(m, start, end, |m.mrs|);
  }

  /** A range inside a region, beginning behind its first word, is unioned exactly when the region does not start
      at address 0. */
  lemma NestedIsRightIff(m: Map, start: nat, end: nat, i: nat)
    requires Inv(m) && InBounds(start, end) && i < |m.mrs|
    requires m.mrs[i].range.start < start && end <= m.mrs[i].range.end
    ensures UnionRight(m, start, end) <==> m.mrs[i].range.start > 0
  {
    var r := m.mrs[i].range;
    forall j | 0 <= j < i ensures !Joins(m.mrs[j].range, start, end) && !MeetsRange(m.mrs[j], start, end) {
      assert m.mrs[j].range.end <= r.start;
    }
    forall j | i < j < |m.mrs| ensures Disjoint(m.mrs[j].range, Range(start, end)) {
      assert r.end <= m.mrs[j].range.start;
    }
    if r.start > 0 {
      OthersApart(m, start, end, i);
      UnionRightIff(m, start, end, i);
    } else {
      var f := FirstAdjacent(m.mrs, start, end);
      FirstJoinedIff(m, start, end, f);
      assert !Joins(r, start, end) && f > i && MeetsRange(m.mrs[i], start, end);
      UnionRightIff(m, start, end, f);
    }
  }

  // ---- a map and a range for which it is wrong ----

  const ONE_WORD := Region(Range(16, 20), [Some(0)])
  const TWO_WORDS := Map([{1}, {2}], [ONE_WORD, Region(Range(28, 32), [Some(1)])])

  const TWO_RANGES := [Added(16, 20, {1}), Added(28, 32, {2})]

  lemma FirstWordAdded()
    ensures WithRange(Map([], []), 16, 20, {1}) == Map([{1}], [ONE_WORD])
  {
    OneWordAdded([], 16, {1});
  }

  lemma SecondWordAdded()
    ensures WithRange(Map([{1}], [ONE_WORD]), 28, 32, {2}) == TWO_WORDS
  {
    OneWordAdded([{1}], 28, {2});
    assert FirstAdjacent([ONE_WORD], 28, 32) == 1;
    assert FirstAfter([ONE_WORD], 32) == 1;
  }

  lemma TwoWordsBuilt()
    ensures Build(TWO_RANGES) == TWO_WORDS
  {
    var first, second := Added(16, 20, {1}), Added(28, 32, {2});
    FirstWordAdded();
    SecondWordAdded();
    OneMore([], first);
    OneMore([first], second);
    assert [] + [first] == [first] && [first] + [second] == TWO_RANGES;
  }

  lemma ThirdRangeHides()
    ensures Inv(TWO_WORDS) && TagsAt(TWO_WORDS, 28) == Some({2}) && !UnionReachable(TWO_WORDS, 20, 32)
    ensures TagsAt(WithRange(TWO_WORDS, 20, 32, {3}), 28) == Some({3})
  {
    var m := TWO_WORDS;
    assert FirstAdjacent(m.mrs, 20, 32) == 0;
    assert RegionTags(m.canon, m.mrs[1], 28) == Some({2});
    TagsInRegion(m, 1, 28);
    HiddenTags(m, 20, 32, {3}, 1, 28);
  }

  /** Words 16 and 28 are tagged {1} and {2}. Tagging 20 to 32 with {3} grows the first region over the second,
      and word 28 is left with {3} alone. */
  lemma TagsLost()
    ensures Inv(Build(TWO_RANGES)) && TagsAt(Build(TWO_RANGES), 28) == Some({2})
    ensures !UnionReachable(Build(TWO_RANGES), 20, 32)
    ensures TagsAt(Build(TWO_RANGES + [Added(20, 32, {3})]), 28) == Some({3})
  {
    TwoWordsBuilt();
    ThirdRangeHides();
    OneMore(TWO_RANGES, Added(20, 32, {3}));
  }
}
