/** The map from addresses to tag sets, kept as regions of words that point to canonical tag sets
    (tagging_tools/metadata_memory_map.cc, tagging_tools/metadata_memory_map.h). */
module MetadataMemoryMap {
  import opened Wrappers
  import opened Interning

  type TagSet = set<nat>

  const STRIDE: nat := 4
  const ADDRESS_SPACE: nat := 0x1_0000_0000_0000_0000

  datatype Range = Range(start: nat, end: nat)

  /** A pointer into the list of canonical tag sets; `None` is a null pointer. */
  type Pointer = Option<nat>

  datatype Region = Region(range: Range, mem: seq<Pointer>)

  /** `md_cache` and `mrs`. */
  datatype Map = Map(canon: seq<TagSet>, mrs: seq<Region>)

  // ---- one region ----

  function Contains(r: Range, addr: nat): bool {
    r.start <= addr < r.end
  }

  /** Unsigned 64-bit `start - stride` and `end + stride`, wrapping as in the C++ code. */
  function Before(start: nat): nat {
    if start < STRIDE then start + ADDRESS_SPACE - STRIDE else start - STRIDE
  }

  function After(end: nat): nat {
    if end + STRIDE >= ADDRESS_SPACE then end + STRIDE - ADDRESS_SPACE else end + STRIDE
  }

  predicate Adjacent(r: Region, addr: nat) {
    Before(r.range.start) <= addr < After(r.range.end)
  }

  function Nulls(n: nat): (s: seq<Pointer>)
    ensures |s| == n && forall i | 0 <= i < n :: s[i] == None
  {
    seq(n, i => None)
  }

  /** What a pointer points to. */
  function Deref(canon: seq<TagSet>, p: Pointer): Option<TagSet>
    requires p.Some? ==> p.value < |canon|
  {
    if p.None? then None else Some(canon[p.value])
  }

  predicate ValidPointers(canon: seq<TagSet>, mem: seq<Pointer>) {
    forall i | 0 <= i < |mem| :: mem[i].Some? ==> mem[i].value < |canon|
  }

  function Merged(tags: TagSet, old_tags: Option<TagSet>): TagSet {
    if old_tags.None? then tags else tags + old_tags.value
  }

  /** The loop of the region's `add_range`: union `tags` into words `s .. e`. */
  function AddWords(canon: seq<TagSet>, mem: seq<Pointer>, s: nat, e: nat,
                    tags: TagSet): (r: (seq<TagSet>, seq<Pointer>))
    requires ValidPointers(canon, mem) && e <= |mem|
    ensures |canon| <= |r.0| && |r.1| == |mem| && ValidPointers(r.0, r.1)
    decreases e - s
  {
    if s >= e then (canon, mem)
    else
      var md := Merged(tags, Deref(canon, mem[s]));
      AddWords(Intern(canon, md), mem[s := Some(IndexOf(canon, md))], s + 1, e, tags)
  }

  /** Room at the front: the base moves down to `start`, over null words. */
  function GrownDown(r: Region, start: nat): (g: Region)
    ensures g.range.start <= start
  {
    if r.range.start == r.range.end then Region(Range(start, r.range.end), r.mem)
    else if start < r.range.start then
      Region(Range(start, r.range.end), Nulls((r.range.start - start) / STRIDE) + r.mem)
    else r
  }

  /** Room at the back: null words up to `end`. */
  function GrownUp(r: Region, end: nat): Region
    requires r.range.start <= end
  {
    var e := (end - r.range.start) / STRIDE;
    if e > |r.mem| then Region(Range(r.range.start, r.range.start + e * STRIDE), r.mem + Nulls(e - |r.mem|)) else r
  }

  /** The region after making room for `start .. end`, before its words are tagged. */
  function Grown(r: Region, start: nat, end: nat): (g: Region)
    requires start <= end
    ensures g.range.start <= start && (end - g.range.start) / STRIDE <= |g.mem|
  {
    GrownUp(GrownDown(r, start), end)
  }

  /** Tag the words `start .. end` of a region that has room for them. */
  function TagRegion(canon: seq<TagSet>, g: Region, start: nat, end: nat, tags: TagSet): (res: (seq<TagSet>, Region))
    requires g.range.start <= start <= end && (end - g.range.start) / STRIDE <= |g.mem| && ValidPointers(canon, g.mem)
    ensures |canon| <= |res.0| && ValidPointers(res.0, res.1.mem)
    ensures res.1.range == g.range && |res.1.mem| == |g.mem|
  {
    var r := AddWords(canon, g.mem, (start - g.range.start) / STRIDE, (end - g.range.start) / STRIDE, tags);
    (r.0, Region(g.range, r.1))
  }

  function AddToRegion(canon: seq<TagSet>, r: Region, start: nat, end: nat, tags: TagSet): (res: (seq<TagSet>, Region))
    requires start <= end && ValidPointers(canon, r.mem)
    ensures |canon| <= |res.0| && ValidPointers(res.0, res.1.mem)
  {
    TagRegion(canon, Grown(r, start, end), start, end, tags)
  }

  // ---- the whole map ----

  predicate WellFormed(m: Map) {
    forall i | 0 <= i < |m.mrs| :: ValidPointers(m.canon, m.mrs[i].mem)
  }

  /** The first region adjacent to either end, or the number of regions. */
  function FirstAdjacent(mrs: seq<Region>, start: nat, end: nat): (i: nat)
    ensures i <= |mrs|
    ensures i < |mrs| ==> Adjacent(mrs[i], start) || Adjacent(mrs[i], end)
    ensures forall j | 0 <= j < i :: !Adjacent(mrs[j], start) && !Adjacent(mrs[j], end)
  {
    if |mrs| == 0 then 0
    else if Adjacent(mrs[0], start) || Adjacent(mrs[0], end) then 0
    else 1 + FirstAdjacent(mrs[1..], start, end)
  }

  /** The first region that starts after `end`, or the number of regions. */
  function FirstAfter(mrs: seq<Region>, end: nat): (i: nat)
    ensures i <= |mrs|
    ensures i < |mrs| ==> end < mrs[i].range.start
    ensures forall j | 0 <= j < i :: end >= mrs[j].range.start
  {
    if |mrs| == 0 then 0
    else if end < mrs[0].range.start then 0
    else 1 + FirstAfter(mrs[1..], end)
  }

  const EMPTY_REGION := Region(Range(0, 0), [])

  function WithRange(m: Map, start: nat, end: nat, tags: TagSet): (m': Map)
    requires WellFormed(m)
    ensures WellFormed(m')
  {
    if start >= end then m
    else
      var i := FirstAdjacent(m.mrs, start, end);
      if i < |m.mrs| then
        var res := AddToRegion(m.canon, m.mrs[i], start, end, tags);
        Map(res.0, m.mrs[i := res.1])
      else
        var res := AddToRegion(m.canon, EMPTY_REGION, start, end, tags);
        var at := FirstAfter(m.mrs, end);
        Map(res.0, m.mrs[..at] + [res.1] + m.mrs[at..])
  }

  function FirstContaining(mrs: seq<Region>, addr: nat): (i: nat)
    ensures i <= |mrs|
    ensures i < |mrs| ==> Contains(mrs[i].range, addr)
    ensures forall j | 0 <= j < i :: !Contains(mrs[j].range, addr)
  {
    if |mrs| == 0 then 0
    else if Contains(mrs[0].range, addr) then 0
    else 1 + FirstContaining(mrs[1..], addr)
  }

  /** `get_metadata`; `None` is a null result. `mem.at` stays in range for word-aligned maps. */
  function TagsAt(m: Map, addr: nat): Option<TagSet>
    requires WellFormed(m)
  {
    var i := FirstContaining(m.mrs, addr);
    if i == |m.mrs| then None
    else
      var r := m.mrs[i];
      var index := (addr - r.range.start) / STRIDE;
      if index < |r.mem| then Deref(m.canon, r.mem[index]) else None
  }

  // ---- the class ----

  class MemoryMap {
    var canon: seq<TagSet>
    var mrs: seq<Region>

    function Model(): Map
      reads this
    {
      Map(canon, mrs)
    }

    constructor ()
      ensures Model() == Map([], [])
    {
      canon, mrs := [], [];
    }

    /** `metadata_cache_t::canonize`, returning the position of the representative. */
    method Canonize(md: TagSet) returns (p: nat)
      modifies `canon
      ensures canon == Intern(old(canon), md) && p == IndexOf(old(canon), md)
    {
      canon, p := FindOrAppend(canon, md);
    }

    /** The loop that unions `metadata` into words `s .. e`. */
    method TagWords(memIn: seq<Pointer>, sIn: nat, e: nat, metadata: TagSet) returns (mem: seq<Pointer>)
      requires ValidPointers(canon, memIn) && e <= |memIn|
      modifies `canon
      ensures (canon, mem) == AddWords(old(canon), memIn, sIn, e, metadata)
    {
      mem := memIn;
      var s := sIn;
      while s < e
        invariant |mem| == |memIn| && ValidPointers(canon, mem)
        invariant AddWords(canon, mem, s, e, metadata) == AddWords(old(canon), memIn, sIn, e, metadata)
      {
        var md := metadata;
        if mem[s].Some? {
          md := md + canon[mem[s].value];
        }
        var p := Canonize(md);
        mem := mem[s := Some(p)];
        s := s + 1;
      }
    }

    /** The first half of `mem_region_t::add_range`: make room. */
    method Grow(r: Region, start: nat, end: nat) returns (g: Region)
      requires start <= end
      ensures g == Grown(r, start, end)
    {
      var range, mem := r.range, r.mem;
      if range.start == range.end {
        range := range.(start := start);
      } else if start < range.start {
        // the range begins below the region
        var nInsert := (range.start - start) / STRIDE;
        mem := Nulls(nInsert) + mem;
        range := range.(start := start);
      }
      assert Region(range, mem) == GrownDown(r, start);
      var e := (end - range.start) / STRIDE;
      if e > |mem| {
        mem := mem + Nulls(e - |mem|);
        range := range.(end := range.start + e * STRIDE);
      }
      g := Region(range, mem);
    }

    /** `mem_region_t::add_range`. The region is a value in the map's vector. */
    method AddRangeToRegion(r: Region, start: nat, end: nat, metadata: TagSet) returns (r': Region)
      requires start <= end && ValidPointers(canon, r.mem)
      modifies `canon
      ensures (canon, r') == AddToRegion(old(canon), r, start, end, metadata)
    {
      var g := Grow(r, start, end);
      var mem := TagWords(g.mem, (start - g.range.start) / STRIDE, (end - g.range.start) / STRIDE, metadata);
      r' := Region(g.range, mem);
    }

    method AddRange(start: nat, end: nat, metadata: TagSet)
      requires WellFormed(Model())
      modifies this
      ensures Model() == WithRange(old(Model()), start, end, metadata)
    {
      if start >= end { return; }
      var it := FirstAdjacent(mrs, start, end);
      if it != |mrs| {
        var r := AddRangeToRegion(mrs[it], start, end, metadata);
        mrs := mrs[it := r];
      } else {
        // no region is adjacent
        var mr := AddRangeToRegion(EMPTY_REGION, start, end, metadata);
        var at := FirstAfter(mrs, end);
        mrs := mrs[..at] + [mr] + mrs[at..];
      }
    }

    method GetMetadata(addr: nat) returns (md: Option<TagSet>)
      requires WellFormed(Model())
      ensures md == TagsAt(Model(), addr)
    {
      for i := 0 to |mrs|
        invariant i <= FirstContaining(mrs, addr)
      {
        if Contains(mrs[i].range, addr) {
          var index := (addr - mrs[i].range.start) / STRIDE;
          return if index < |mrs[i].mem| then Deref(canon, mrs[i].mem[index]) else None;
        }
      }
      return None;
    }
  }
}
