/** The memory map agrees with a plain function from addresses to tag sets. */
module MemoryMapTheorems {
  import opened Wrappers
  import opened Interning
  import opened MetadataMemoryMap

  predicate Aligned(addr: nat) {
    addr % STRIDE == 0
  }

  /** Word-aligned ranges for which `end + stride` does not wrap. Where `start - stride` does, at 0, no address is
      adjacent. */
  predicate InBounds(start: nat, end: nat) {
    Aligned(start) && Aligned(end) && start < end < ADDRESS_SPACE - STRIDE
  }

  predicate ValidRegion(r: Region) {
    InBounds(r.range.start, r.range.end) && r.range.end == r.range.start + STRIDE * |r.mem|
  }

  predicate Disjoint(a: Range, b: Range) {
    a.end <= b.start || b.end <= a.start
  }

  predicate Ascending(mrs: seq<Region>) {
    forall i, j | 0 <= i < j < |mrs| :: mrs[i].range.end <= mrs[j].range.start
  }

  /** Regions are word-aligned, sorted and disjoint, and canonical sets are not repeated. */
  predicate Inv(m: Map) {
    && WellFormed(m) && NoDuplicates(m.canon)
    && (forall i | 0 <= i < |m.mrs| :: ValidRegion(m.mrs[i]))
    && Ascending(m.mrs)
  }

  /** Growing a region upwards leaves whole words, whatever the end of the added range. */
  lemma GrownUpIsFull(r: Region, end: nat)
    requires r.range.start <= end && r.range.end == r.range.start + STRIDE * |r.mem|
    ensures var g := GrownUp(r, end);
            && g.range.start == r.range.start && g.range.end == g.range.start + STRIDE * |g.mem|
            && g.range.end == Max(r.range.end, end - (end - r.range.start) % STRIDE)
  {}

  // ---- one region ----

  /** The tag set a region gives to word `k`. */
  function WordTags(canon: seq<TagSet>, mem: seq<Pointer>, k: int): Option<TagSet>
    requires ValidPointers(canon, mem)
  {
    if 0 <= k < |mem| then Deref(canon, mem[k]) else None
  }

  /** `AddWords` unions the tags into exactly the words `s .. e`. */
  lemma {:induction false} AddWordsMeaning(canon: seq<TagSet>, mem: seq<Pointer>, s: nat, e: nat, tags: TagSet, k: nat)
    requires ValidPointers(canon, mem) && e <= |mem| && NoDuplicates(canon) && k < |mem|
    ensures var (canon', mem') := AddWords(canon, mem, s, e, tags);
            && NoDuplicates(canon')
            && WordTags(canon', mem', k)
               == if s <= k < e then Some(Merged(tags, WordTags(canon, mem, k))) else WordTags(canon, mem, k)
    decreases e - s
  {
    if s < e {
      var md := Merged(tags, Deref(canon, mem[s]));
      InternKeepsDistinct(canon, md);
      AddWordsMeaning(Intern(canon, md), mem[s := Some(IndexOf(canon, md))], s + 1, e, tags, k);
    }
  }

  function Min(a: nat, b: nat): nat { if a <= b then a else b }
  function Max(a: nat, b: nat): nat { if a >= b then a else b }

  /** The smallest range containing both. */
  function Hull(r: Range, start: nat, end: nat): Range {
    Range(Min(r.start, start), Max(r.end, end))
  }

  predicate Fits(r: Region, start: nat, end: nat) {
    InBounds(start, end) && (r == EMPTY_REGION || ValidRegion(r))
  }

  function HullOf(r: Region, start: nat, end: nat): Range {
    if r == EMPTY_REGION then Range(start, end) else Hull(r.range, start, end)
  }

  /** The tags a region gives to an address, none outside the region. */
  function RegionTags(canon: seq<TagSet>, r: Region, addr: nat): Option<TagSet>
    requires ValidPointers(canon, r.mem)
  {
    if Contains(r.range, addr) then WordTags(canon, r.mem, (addr - r.range.start) / STRIDE) else None
  }

  /** Making room covers the hull and changes no address's tags. */
  lemma GrownIs(canon: seq<TagSet>, r: Region, start: nat, end: nat, addr: nat)
    requires Fits(r, start, end) && ValidPointers(canon, r.mem)
    ensures var g := Grown(r, start, end);
            && g.range == HullOf(r, start, end) && ValidRegion(g) && ValidPointers(canon, g.mem)
            && RegionTags(canon, g, addr) == RegionTags(canon, r, addr)
  {
    if r != EMPTY_REGION { GrownDownIs(canon, r, start, addr); }
    GrownUpIs(canon, GrownDown(r, start), end, addr);
  }

  lemma GrownDownIs(canon: seq<TagSet>, r: Region, start: nat, addr: nat)
    requires ValidRegion(r) && ValidPointers(canon, r.mem) && Aligned(start)
    ensures var g := GrownDown(r, start);
            && g.range == Range(Min(r.range.start, start), r.range.end) && ValidRegion(g) && ValidPointers(canon, g.mem)
            && RegionTags(canon, g, addr) == RegionTags(canon, r, addr)
  {
    if start < r.range.start {
      var n := (r.range.start - start) / STRIDE;
      var g := GrownDown(r, start);
      assert g.mem == Nulls(n) + r.mem && r.range.start == start + STRIDE * n;
      if Contains(g.range, addr) {
        var k := (addr - start) / STRIDE;
        if addr < r.range.start {
          assert k < n;
        } else {
          assert k - n == (addr - r.range.start) / STRIDE;
        }
      }
    }
  }

  lemma GrownUpIs(canon: seq<TagSet>, r: Region, end: nat, addr: nat)
    requires ValidPointers(canon, r.mem) && InBounds(r.range.start, end)
    requires ValidRegion(r) || (r.mem == [] && r.range.end == 0)
    ensures var g := GrownUp(r, end);
            && g.range == Range(r.range.start, Max(r.range.end, end)) && ValidRegion(g) && ValidPointers(canon, g.mem)
            && RegionTags(canon, g, addr) == RegionTags(canon, r, addr)
  {
    var e := (end - r.range.start) / STRIDE;
    assert STRIDE * e == end - r.range.start;
  }

  lemma IndexBetween(base: nat, start: nat, end: nat, addr: nat)
    requires Aligned(base) && Aligned(start) && Aligned(end) && base <= start <= end && base <= addr
    ensures (start - base) / STRIDE <= (addr - base) / STRIDE < (end - base) / STRIDE <==> start <= addr < end
  {}

  lemma IndexWithin(r: Region, addr: nat)
    requires ValidRegion(r) && r.range.start <= addr <= r.range.end
    ensures (addr - r.range.start) / STRIDE <= |r.mem|
    ensures addr < r.range.end ==> (addr - r.range.start) / STRIDE < |r.mem|
  {}

  lemma TagRegionIs(canon: seq<TagSet>, g: Region, start: nat, end: nat, tags: TagSet)
    requires g.range.start <= start <= end && (end - g.range.start) / STRIDE <= |g.mem| && ValidPointers(canon, g.mem)
    ensures var w := AddWords(canon, g.mem, (start - g.range.start) / STRIDE, (end - g.range.start) / STRIDE, tags);
            TagRegion(canon, g, start, end, tags) == (w.0, Region(g.range, w.1))
  {}

  /** The same statement for the word with index `k`, the place of an address inside the region. */
  lemma TaggedWord(canon: seq<TagSet>, g: Region, start: nat, end: nat, tags: TagSet, addr: nat, k: nat)
    requires ValidRegion(g) && ValidPointers(canon, g.mem) && NoDuplicates(canon)
    requires InBounds(start, end) && g.range.start <= start && (end - g.range.start) / STRIDE <= |g.mem|
    requires Contains(g.range, addr) && k == (addr - g.range.start) / STRIDE && k < |g.mem|
    ensures var res := TagRegion(canon, g, start, end, tags);
            && NoDuplicates(res.0)
            && WordTags(res.0, res.1.mem, k)
               == if start <= addr < end then Some(Merged(tags, WordTags(canon, g.mem, k)))
                 else WordTags(canon, g.mem, k)
  {
    var s, e := (start - g.range.start) / STRIDE, (end - g.range.start) / STRIDE;
    IndexBetween(g.range.start, start, end, addr);
    assert s <= k < e <==> start <= addr < end;
    AddWordsMeaning(canon, g.mem, s, e, tags, k);
    TagRegionIs(canon, g, start, end, tags);
  }

  /** Tagging words `start .. end` of a region that covers them. */
  lemma TaggedMeaning(canon: seq<TagSet>, g: Region, start: nat, end: nat, tags: TagSet, addr: nat)
    requires ValidRegion(g) && ValidPointers(canon, g.mem) && NoDuplicates(canon)
    requires InBounds(start, end) && g.range.start <= start && end <= g.range.end
    requires (end - g.range.start) / STRIDE <= |g.mem|
    ensures var res := TagRegion(canon, g, start, end, tags);
            && NoDuplicates(res.0)
            && RegionTags(res.0, res.1, addr)
               == if start <= addr < end then Some(Merged(tags, RegionTags(canon, g, addr)))
                 else RegionTags(canon, g, addr)
  {
    if Contains(g.range, addr) {
      IndexWithin(g, addr);
      TaggedWord(canon, g, start, end, tags, addr, (addr - g.range.start) / STRIDE);
    } else {
      TaggedWord(canon, g, start, end, tags, g.range.start, 0);
    }
  }

  /** Adding a range to a region unions its tags into exactly the words of the range. */
  lemma AddToRegionMeaning(canon: seq<TagSet>, r: Region, start: nat, end: nat, tags: TagSet, addr: nat)
    requires Fits(r, start, end) && ValidPointers(canon, r.mem) && NoDuplicates(canon)
    ensures var res := AddToRegion(canon, r, start, end, tags);
            && NoDuplicates(res.0) && ValidRegion(res.1) && res.1.range == HullOf(r, start, end)
            && RegionTags(res.0, res.1, addr)
               == if start <= addr < end then Some(Merged(tags, RegionTags(canon, r, addr)))
                 else RegionTags(canon, r, addr)
  {
    GrownIs(canon, r, start, end, addr);
    TaggedMeaning(canon, Grown(r, start, end), start, end, tags, addr);
  }

  lemma {:induction false} AddWordsExtends(canon: seq<TagSet>, mem: seq<Pointer>, s: nat, e: nat, tags: TagSet)
    requires ValidPointers(canon, mem) && e <= |mem|
    ensures canon <= AddWords(canon, mem, s, e, tags).0
    decreases e - s
  {
    if s < e {
      var md := Merged(tags, Deref(canon, mem[s]));
      InternExtends(canon, md);
      AddWordsExtends(Intern(canon, md), mem[s := Some(IndexOf(canon, md))], s + 1, e, tags);
    }
  }

  // ---- the whole map ----

  /** The new range, joined with the region it would be added to, overlaps no other region. */
  predicate HullClear(m: Map, start: nat, end: nat) {
    var i := FirstAdjacent(m.mrs, start, end);
    var hull := if i < |m.mrs| then Hull(m.mrs[i].range, start, end) else Range(start, end);
    forall j | 0 <= j < |m.mrs| && j != i :: Disjoint(m.mrs[j].range, hull)
  }

  /** In a sorted map, an address is looked up in the one region that contains it. */
  lemma TagsInRegion(m: Map, i: nat, addr: nat)
    requires Inv(m) && i < |m.mrs| && Contains(m.mrs[i].range, addr)
    ensures TagsAt(m, addr) == RegionTags(m.canon, m.mrs[i], addr)
  {
    var f := FirstContaining(m.mrs, addr);
    IndexWithin(m.mrs[i], addr);
  }

  lemma TagsOutside(m: Map, addr: nat)
    requires Inv(m) && forall i | 0 <= i < |m.mrs| :: !Contains(m.mrs[i].range, addr)
    ensures TagsAt(m, addr) == None
  {}

  /** A region's tags survive the growth of the canonical list. */
  lemma StableTags(canon: seq<TagSet>, canon': seq<TagSet>, r: Region, addr: nat)
    requires ValidPointers(canon, r.mem) && canon <= canon'
    ensures RegionTags(canon', r, addr) == RegionTags(canon, r, addr)
  {}

  lemma AddExtends(canon: seq<TagSet>, r: Region, start: nat, end: nat, tags: TagSet)
    requires start <= end && ValidPointers(canon, r.mem)
    ensures canon <= AddToRegion(canon, r, start, end, tags).0
  {
    var g := Grown(r, start, end);
    AddWordsExtends(canon, g.mem, (start - g.range.start) / STRIDE, (end - g.range.start) / STRIDE, tags);
  }

  /** What one more range does to one address. */
  function Updated(before: Option<TagSet>, start: nat, end: nat, tags: TagSet, addr: nat): Option<TagSet> {
    if start <= addr < end then Some(Merged(tags, before)) else before
  }

  /** `canon'` and `r'` can replace `m.canon` and some region, or be a new region. */
  predicate Fresh(m: Map, canon': seq<TagSet>, r': Region) {
    m.canon <= canon' && NoDuplicates(canon') && ValidPointers(canon', r'.mem) && ValidRegion(r')
  }

  /** Growing one region to a hull that overlaps no other keeps the order. */
  lemma ReplacedInv(m: Map, i: nat, canon': seq<TagSet>, r': Region)
    requires Inv(m) && i < |m.mrs| && Fresh(m, canon', r')
    requires r'.range.start <= m.mrs[i].range.start && m.mrs[i].range.end <= r'.range.end
    requires forall j | 0 <= j < |m.mrs| && j != i :: Disjoint(m.mrs[j].range, r'.range)
    ensures Inv(Map(canon', m.mrs[i := r']))
  {
    var mrs := m.mrs[i := r'];
    forall a, b | 0 <= a < b < |mrs| ensures mrs[a].range.end <= mrs[b].range.start {
      assert m.mrs[a].range.end <= m.mrs[b].range.start;
    }
  }

  lemma ReplacedTags(m: Map, i: nat, canon': seq<TagSet>, r': Region, addr: nat)
    requires Inv(m) && i < |m.mrs| && Fresh(m, canon', r') && Inv(Map(canon', m.mrs[i := r']))
    requires r'.range.start <= m.mrs[i].range.start && m.mrs[i].range.end <= r'.range.end
    requires forall j | 0 <= j < |m.mrs| && j != i :: Disjoint(m.mrs[j].range, r'.range)
    ensures TagsAt(Map(canon', m.mrs[i := r']), addr)
            == if Contains(r'.range, addr) then RegionTags(canon', r', addr) else TagsAt(m, addr)
    ensures Contains(r'.range, addr) ==> TagsAt(m, addr) == RegionTags(m.canon, m.mrs[i], addr)
  {
    var m' := Map(canon', m.mrs[i := r']);
    if Contains(r'.range, addr) {
      TagsInRegion(m', i, addr);
      if Contains(m.mrs[i].range, addr) { TagsInRegion(m, i, addr); } else { TagsOutside(m, addr); }
    } else if j: nat :| j < |m.mrs| && Contains(m.mrs[j].range, addr) {
      TagsInRegion(m, j, addr);
      TagsInRegion(m', j, addr);
      StableTags(m.canon, canon', m.mrs[j], addr);
    } else {
      TagsOutside(m, addr);
      TagsOutside(m', addr);
    }
  }

  function Inserted(mrs: seq<Region>, at: nat, r: Region): (s: seq<Region>)
    requires at <= |mrs|
    ensures |s| == |mrs| + 1 && s[at] == r
    ensures forall j | 0 <= j < at :: s[j] == mrs[j]
    ensures forall j | at <= j < |mrs| :: s[j + 1] == mrs[j]
  {
    mrs[..at] + [r] + mrs[at..]
  }

  /** The place found by `FirstAfter` is between the regions before and after the new one. */
  lemma PlaceFound(m: Map, r': Region)
    requires Inv(m) && ValidRegion(r')
    requires forall j | 0 <= j < |m.mrs| :: Disjoint(m.mrs[j].range, r'.range) && m.mrs[j].range.start != r'.range.end
    ensures var at := FirstAfter(m.mrs, r'.range.end);
            && (forall j | 0 <= j < at :: m.mrs[j].range.end <= r'.range.start)
            && (forall j | at <= j < |m.mrs| :: r'.range.end <= m.mrs[j].range.start)
  {
    var at := FirstAfter(m.mrs, r'.range.end);
    forall j | at < j < |m.mrs| ensures r'.range.end <= m.mrs[j].range.start {
      assert m.mrs[at].range.end <= m.mrs[j].range.start;
    }
  }

  lemma InsertedInv(m: Map, at: nat, canon': seq<TagSet>, r': Region)
    requires Inv(m) && Fresh(m, canon', r') && at <= |m.mrs|
    requires forall j | 0 <= j < at :: m.mrs[j].range.end <= r'.range.start
    requires forall j | at <= j < |m.mrs| :: r'.range.end <= m.mrs[j].range.start
    ensures Inv(Map(canon', Inserted(m.mrs, at, r')))
  {
    var mrs := Inserted(m.mrs, at, r');
    forall a | 0 <= a < |mrs| ensures ValidRegion(mrs[a]) && ValidPointers(canon', mrs[a].mem) {
      if a > at { assert mrs[a] == m.mrs[a - 1]; }
    }
    forall a, b | 0 <= a < b < |mrs| ensures mrs[a].range.end <= mrs[b].range.start {
      InsertedPair(m.mrs, at, r', a, b);
    }
  }

  lemma InsertedPair(mrs: seq<Region>, at: nat, r: Region, a: nat, b: nat)
    requires Ascending(mrs) && at <= |mrs| && a < b <= |mrs|
    requires forall j | 0 <= j < at :: mrs[j].range.end <= r.range.start
    requires forall j | at <= j < |mrs| :: r.range.end <= mrs[j].range.start
    ensures Inserted(mrs, at, r)[a].range.end <= Inserted(mrs, at, r)[b].range.start
  {
    var s := Inserted(mrs, at, r);
    if b > at { assert s[b] == mrs[b - 1]; }
    if a > at { assert s[a] == mrs[a - 1]; }
  }

  lemma InsertedTags(m: Map, at: nat, canon': seq<TagSet>, r': Region, addr: nat)
    requires Inv(m) && at <= |m.mrs| && Fresh(m, canon', r') && Inv(Map(canon', Inserted(m.mrs, at, r')))
    requires forall j | 0 <= j < |m.mrs| :: Disjoint(m.mrs[j].range, r'.range)
    ensures TagsAt(Map(canon', Inserted(m.mrs, at, r')), addr)
            == if Contains(r'.range, addr) then RegionTags(canon', r', addr) else TagsAt(m, addr)
    ensures Contains(r'.range, addr) ==> TagsAt(m, addr) == None
  {
    var m' := Map(canon', Inserted(m.mrs, at, r'));
    if Contains(r'.range, addr) {
      TagsInRegion(m', at, addr);
      TagsOutside(m, addr);
    } else if j: nat :| j < |m.mrs| && Contains(m.mrs[j].range, addr) {
      var j' := if j < at then j else j + 1;
      assert m'.mrs[j'] == m.mrs[j];
      TagsInRegion(m, j, addr);
      TagsInRegion(m', j', addr);
      StableTags(m.canon, canon', m.mrs[j], addr);
    } else {
      TagsOutside(m, addr);
      forall k | 0 <= k < |m'.mrs| ensures !Contains(m'.mrs[k].range, addr) {
        if k > at { assert m'.mrs[k] == m.mrs[k - 1]; }
      }
      TagsOutside(m', addr);
    }
  }

  lemma AddToExisting(m: Map, start: nat, end: nat, tags: TagSet, addr: nat)
    requires Inv(m) && InBounds(start, end) && HullClear(m, start, end) && FirstAdjacent(m.mrs, start, end) < |m.mrs|
    ensures Inv(WithRange(m, start, end, tags))
    ensures TagsAt(WithRange(m, start, end, tags), addr) == Updated(TagsAt(m, addr), start, end, tags, addr)
  {
    var i := FirstAdjacent(m.mrs, start, end);
    var res := AddToRegion(m.canon, m.mrs[i], start, end, tags);
    AddToRegionMeaning(m.canon, m.mrs[i], start, end, tags, addr);
    AddExtends(m.canon, m.mrs[i], start, end, tags);
    ReplacedInv(m, i, res.0, res.1);
    ReplacedTags(m, i, res.0, res.1, addr);
  }

  lemma AddNewRegion(m: Map, start: nat, end: nat, tags: TagSet, addr: nat)
    requires Inv(m) && InBounds(start, end) && HullClear(m, start, end) && FirstAdjacent(m.mrs, start, end) == |m.mrs|
    ensures Inv(WithRange(m, start, end, tags))
    ensures TagsAt(WithRange(m, start, end, tags), addr) == Updated(TagsAt(m, addr), start, end, tags, addr)
  {
    var res := AddToRegion(m.canon, EMPTY_REGION, start, end, tags);
    AddToRegionMeaning(m.canon, EMPTY_REGION, start, end, tags, addr);
    AddExtends(m.canon, EMPTY_REGION, start, end, tags);
    forall j | 0 <= j < |m.mrs| ensures Disjoint(m.mrs[j].range, res.1.range) && m.mrs[j].range.start != end {
      assert !Adjacent(m.mrs[j], end);
    }
    PlaceFound(m, res.1);
    InsertedInv(m, FirstAfter(m.mrs, end), res.0, res.1);
    InsertedTags(m, FirstAfter(m.mrs, end), res.0, res.1, addr);
  }

  /** Adding a range whose hull is clear unions its tags into exactly its addresses. */
  lemma AddRangeMeaning(m: Map, start: nat, end: nat, tags: TagSet, addr: nat)
    requires Inv(m) && InBounds(start, end) && HullClear(m, start, end)
    ensures Inv(WithRange(m, start, end, tags))
    ensures TagsAt(WithRange(m, start, end, tags), addr) == Updated(TagsAt(m, addr), start, end, tags, addr)
  {
    if FirstAdjacent(m.mrs, start, end) < |m.mrs| {
      AddToExisting(m, start, end, tags, addr);
    } else {
      AddNewRegion(m, start, end, tags, addr);
    }
  }

  lemma OverlapExisting(m: Map, start: nat, end: nat, tags: TagSet)
    requires Inv(m) && InBounds(start, end) && !HullClear(m, start, end) && FirstAdjacent(m.mrs, start, end) < |m.mrs|
    ensures !Inv(WithRange(m, start, end, tags))
  {
    var m' := WithRange(m, start, end, tags);
    var i := FirstAdjacent(m.mrs, start, end);
    AddToRegionMeaning(m.canon, m.mrs[i], start, end, tags, 0);
    var j :| 0 <= j < |m.mrs| && j != i && !Disjoint(m.mrs[j].range, Hull(m.mrs[i].range, start, end));
    assert m'.mrs[j] == m.mrs[j] && m'.mrs[i].range == Hull(m.mrs[i].range, start, end);
  }

  lemma OverlapNew(m: Map, start: nat, end: nat, tags: TagSet)
    requires Inv(m) && InBounds(start, end) && !HullClear(m, start, end) && FirstAdjacent(m.mrs, start, end) == |m.mrs|
    ensures !Inv(WithRange(m, start, end, tags))
  {
    var m' := WithRange(m, start, end, tags);
    AddToRegionMeaning(m.canon, EMPTY_REGION, start, end, tags, 0);
    var at := FirstAfter(m.mrs, end);
    var r' := AddToRegion(m.canon, EMPTY_REGION, start, end, tags).1;
    assert m'.mrs == Inserted(m.mrs, at, r');
    var j :| 0 <= j < |m.mrs| && !Disjoint(m.mrs[j].range, Range(start, end));
    assert m'.mrs[if j < at then j else j + 1] == m.mrs[j];
  }

  /** The map stays sorted and disjoint exactly when the hull is clear. */
  lemma StaysDisjointIff(m: Map, start: nat, end: nat, tags: TagSet)
    requires Inv(m) && InBounds(start, end)
    ensures Inv(WithRange(m, start, end, tags)) <==> HullClear(m, start, end)
  {
    if HullClear(m, start, end) {
      AddRangeMeaning(m, start, end, tags, 0);
    } else if FirstAdjacent(m.mrs, start, end) < |m.mrs| {
      OverlapExisting(m, start, end, tags);
    } else {
      OverlapNew(m, start, end, tags);
    }
  }

  // ---- any sequence of ranges ----

  datatype Added = Added(start: nat, end: nat, tags: TagSet)

  function Build(adds: seq<Added>): (m: Map)
    ensures WellFormed(m)
  {
    if adds == [] then Map([], [])
    else
      var last := adds[|adds| - 1];
      WithRange(Build(adds[..|adds| - 1]), last.start, last.end, last.tags)
  }

  /** Every range is word-aligned and its hull was clear when it was added. Empty ranges are ignored. */
  predicate AllClear(adds: seq<Added>) {
    adds == [] ||
    (var last := adds[|adds| - 1];
     && AllClear(adds[..|adds| - 1])
     && (last.start < last.end
         ==> InBounds(last.start, last.end) && HullClear(Build(adds[..|adds| - 1]), last.start, last.end)))
  }

  /** The union of the tag sets of all ranges that contain `addr`, none if there are none. */
  function UnionAt(adds: seq<Added>, addr: nat): Option<TagSet> {
    if adds == [] then None
    else
      var last := adds[|adds| - 1];
      Updated(UnionAt(adds[..|adds| - 1], addr), last.start, last.end, last.tags, addr)
  }

  /** `get_metadata` of a map built from ranges is the union of the tag sets of the ranges that
      contain the address, and the regions stay sorted and disjoint. */
  lemma {:induction false} BuildMeaning(adds: seq<Added>, addr: nat)
    requires AllClear(adds)
    ensures Inv(Build(adds)) && TagsAt(Build(adds), addr) == UnionAt(adds, addr)
  {
    if adds != [] {
      var last := adds[|adds| - 1];
      BuildMeaning(adds[..|adds| - 1], addr);
      if last.start < last.end {
        AddRangeMeaning(Build(adds[..|adds| - 1]), last.start, last.end, last.tags, addr);
      }
    }
  }

  lemma OneMore(adds: seq<Added>, last: Added)
    ensures Build(adds + [last]) == WithRange(Build(adds), last.start, last.end, last.tags)
  {
    assert (adds + [last])[..|adds|] == adds;
  }

  /** A new region of one word. */
  lemma OneWordAdded(canon: seq<TagSet>, start: nat, tags: TagSet)
    ensures AddToRegion(canon, EMPTY_REGION, start, start + STRIDE, tags)
            == (Intern(canon, tags), Region(Range(start, start + STRIDE), [Some(IndexOf(canon, tags))]))
  {
    var g := Grown(EMPTY_REGION, start, start + STRIDE);
    assert g == Region(Range(start, start + STRIDE), [None]);
    assert AddWords(canon, g.mem, 0, 1, tags).1 == [Some(IndexOf(canon, tags))];
  }

  /** When the hull is not clear tags are lost: at an address of a later region that the range
      covers, the grown region hides that region's tags. */
  lemma HiddenTags(m: Map, start: nat, end: nat, tags: TagSet, j: nat, addr: nat)
    requires Inv(m) && InBounds(start, end) && start <= addr < end
    requires FirstAdjacent(m.mrs, start, end) < j < |m.mrs| && Contains(m.mrs[j].range, addr)
    ensures TagsAt(WithRange(m, start, end, tags), addr) == Some(tags)
  {
    var i := FirstAdjacent(m.mrs, start, end);
    var res := AddToRegion(m.canon, m.mrs[i], start, end, tags);
    AddToRegionMeaning(m.canon, m.mrs[i], start, end, tags, addr);
    forall k | 0 <= k < j ensures !Contains(m.mrs[k].range, addr) {
      assert m.mrs[k].range.end <= m.mrs[j].range.start;
    }
    assert RegionTags(res.0, res.1, addr) == Some(tags);
    LookedUpFirst(WithRange(m, start, end, tags), i, addr);
  }

  lemma LookedUpFirst(m: Map, i: nat, addr: nat)
    requires WellFormed(m) && i < |m.mrs| && ValidRegion(m.mrs[i]) && Contains(m.mrs[i].range, addr)
    requires forall k | 0 <= k < i :: !Contains(m.mrs[k].range, addr)
    ensures TagsAt(m, addr) == RegionTags(m.canon, m.mrs[i], addr)
  {
    assert FirstContaining(m.mrs, addr) == i;
    IndexWithin(m.mrs[i], addr);
  }
}
