/** Coalescing the address ranges of the tag file (tagging_tools/tag_file.cc, `coalesce_ranges`).
    Both ends of a range are inclusive here. */
module CoalesceRanges {
  import MetadataMemoryMap

  type Range = MetadataMemoryMap.Range

  const ADDRESS_SPACE: nat := MetadataMemoryMap.ADDRESS_SPACE

  predicate ValidRange(r: Range) {
    r.start <= r.end < ADDRESS_SPACE
  }

  predicate AllValid(rs: seq<Range>) {
    forall i | 0 <= i < |rs| :: ValidRange(rs[i])
  }

  predicate In(r: Range, addr: nat) {
    r.start <= addr <= r.end
  }

  /** The set of addresses a list stands for. */
  predicate Covers(rs: seq<Range>, addr: nat) {
    |rs| > 0 && (In(rs[0], addr) || Covers(rs[1..], addr))
  }

  /** `range_t::operator <`, or equal. */
  predicate AtMost(a: Range, b: Range) {
    a.start < b.start || (a.start == b.start && a.end <= b.end)
  }

  // ---- `std::list::sort` ----

  function SortIn(x: Range, s: seq<Range>): (r: seq<Range>)
    ensures |r| == |s| + 1
  {
    if |s| == 0 then [x] else if AtMost(x, s[0]) then [x] + s else [s[0]] + SortIn(x, s[1..])
  }

  function Sort(s: seq<Range>): (r: seq<Range>)
    ensures |r| == |s|
  {
    if |s| == 0 then [] else SortIn(s[0], Sort(s[1..]))
  }

  predicate Sorted(s: seq<Range>) {
    |s| <= 1 || (AtMost(s[0], s[1]) && Sorted(s[1..]))
  }

  lemma {:induction false} SortInSorted(x: Range, s: seq<Range>)
    requires Sorted(s)
    ensures Sorted(SortIn(x, s)) && multiset(SortIn(x, s)) == multiset(s) + multiset{x}
  {
    if |s| > 0 {
      assert s == [s[0]] + s[1..];
      if AtMost(x, s[0]) {
        assert ([x] + s)[1..] == s;
      } else {
        SortInSorted(x, s[1..]);
        assert SortIn(x, s)[1..] == SortIn(x, s[1..]);
      }
    }
  }

  /** The sorted list is ascending and a permutation. */
  lemma {:induction false} SortSorts(s: seq<Range>)
    ensures Sorted(Sort(s)) && multiset(Sort(s)) == multiset(s)
  {
    if |s| > 0 {
      SortSorts(s[1..]);
      SortInSorted(s[0], Sort(s[1..]));
      assert s == [s[0]] + s[1..];
    }
  }

  /** Ranges are ordered by their starts, those with the same start by their ends. */
  lemma {:induction false} SortedPairs(s: seq<Range>, i: nat, j: nat)
    requires Sorted(s) && i < j < |s|
    ensures s[i].start < s[j].start || (s[i].start == s[j].start && s[i].end <= s[j].end)
  {
    if i > 0 {
      SortedPairs(s[1..], i - 1, j - 1);
    } else if j > 1 {
      SortedPairs(s[1..], 0, j - 1);
    }
  }

  // ---- the merging loop ----

  /** Unsigned 64-bit subtraction. */
  function Minus(a: nat, b: nat): int {
    if a >= b then a - b else a + ADDRESS_SPACE - b
  }

  /** The loop with `previous` at the end of the finished part and `rest` still to come. */
  function MergeFrom(previous: Range, rest: seq<Range>): (out: seq<Range>)
    decreases |rest|
  {
    if |rest| == 0 then [previous]
    else
      var current := rest[0];
      if current.end <= previous.end then MergeFrom(previous, rest[1..])
      else if Minus(current.start, previous.end) <= 1 then MergeFrom(previous.(end := current.end), rest[1..])
      else [previous] + MergeFrom(current, rest[1..])
  }

  function Coalesced(rs: seq<Range>): seq<Range>
    requires |rs| > 0
  {
    MergeFrom(Sort(rs)[0], Sort(rs)[1..])
  }

  method Coalesce(input: seq<Range>) returns (ranges: seq<Range>)
    requires |input| > 0
    ensures ranges == Coalesced(input)
  {
    ranges := Sort(input);
    var current := 1;
    while current < |ranges|
      invariant 1 <= current <= |ranges|
      invariant ranges[..current - 1] + MergeFrom(ranges[current - 1], ranges[current..]) == Coalesced(input)
      decreases |ranges| - current
    {
      var before, rest := ranges[..current - 1], ranges[current + 1..];
      var p, c := ranges[current - 1], ranges[current];
      assert ranges[current..] == [c] + rest;
      if c.end <= p.end {
        ranges := before + [p] + rest;
        Parts(before, p, rest);
      } else if Minus(c.start, p.end) <= 1 {
        ranges := before + [p.(end := c.end)] + rest;
        Parts(before, p.(end := c.end), rest);
      } else {
        assert ranges[..current] == before + [p];
        assert before + ([p] + MergeFrom(c, rest)) == before + [p] + MergeFrom(c, rest);
        current := current + 1;
      }
    }
    assert ranges[..current - 1] + [ranges[current - 1]] == ranges;
  }

  lemma Parts(before: seq<Range>, p: Range, rest: seq<Range>)
    ensures var s, k := before + [p] + rest, |before|; s[..k] == before && s[k] == p && s[k + 1..] == rest
  {}

  // ---- the covered set ----

  /** No range of `rest` starts before `previous`, and the starts ascend. */
  predicate Ordered(previous: Range, rest: seq<Range>)
    decreases |rest|
  {
    && ValidRange(previous)
    && (|rest| > 0 ==> previous.start <= rest[0].start && Ordered(rest[0], rest[1..]))
  }

  lemma {:induction false} SortedOrdered(s: seq<Range>)
    requires |s| > 0 && Sorted(s) && AllValid(s)
    ensures Ordered(s[0], s[1..])
  {
    if |s| > 1 { SortedOrdered(s[1..]); }
  }

  lemma {:induction false} MergeCovers(previous: Range, rest: seq<Range>, addr: nat)
    requires Ordered(previous, rest)
    ensures Covers(MergeFrom(previous, rest), addr) <==> In(previous, addr) || Covers(rest, addr)
    decreases |rest|
  {
    if |rest| > 0 {
      var current := rest[0];
      if current.end <= previous.end {
        MergeCovers(previous, rest[1..], addr);
      } else if Minus(current.start, previous.end) <= 1 {
        MergeCovers(previous.(end := current.end), rest[1..], addr);
      } else {
        MergeCovers(current, rest[1..], addr);
        assert MergeFrom(previous, rest)[1..] == MergeFrom(current, rest[1..]);
      }
    }
  }

  lemma {:induction false} SortInCovers(x: Range, s: seq<Range>, addr: nat)
    ensures Covers(SortIn(x, s), addr) <==> In(x, addr) || Covers(s, addr)
  {
    if |s| > 0 {
      if AtMost(x, s[0]) {
        assert ([x] + s)[1..] == s;
      } else {
        SortInCovers(x, s[1..], addr);
        assert SortIn(x, s)[1..] == SortIn(x, s[1..]);
      }
    }
  }

  lemma {:induction false} SortCovers(s: seq<Range>, addr: nat)
    ensures Covers(Sort(s), addr) <==> Covers(s, addr)
  {
    if |s| > 0 {
      SortCovers(s[1..], addr);
      SortInCovers(s[0], Sort(s[1..]), addr);
    }
  }

  lemma SortOrdered(rs: seq<Range>)
    requires |rs| > 0 && AllValid(rs)
    ensures Ordered(Sort(rs)[0], Sort(rs)[1..])
  {
    SortSorts(rs);
    forall i | 0 <= i < |rs| ensures ValidRange(Sort(rs)[i]) {
      assert Sort(rs)[i] in multiset(rs);
    }
    SortedOrdered(Sort(rs));
  }

  /** Coalescing keeps exactly the covered addresses. */
  lemma CoalescedCovers(rs: seq<Range>, addr: nat)
    requires |rs| > 0 && AllValid(rs)
    ensures Covers(Coalesced(rs), addr) <==> Covers(rs, addr)
  {
    SortOrdered(rs);
    SortCovers(rs, addr);
    MergeCovers(Sort(rs)[0], Sort(rs)[1..], addr);
  }

  // ---- the order of the result ----

  /** Starts do not decrease and ends strictly increase. */
  predicate Climbing(rs: seq<Range>) {
    forall i, j | 0 <= i < j < |rs| :: rs[i].start <= rs[j].start && rs[i].end < rs[j].end
  }

  lemma {:induction false} MergeClimbs(previous: Range, rest: seq<Range>)
    requires Ordered(previous, rest)
    ensures var out := MergeFrom(previous, rest);
            AllValid(out) && Climbing(out) && |out| > 0 && out[0].start == previous.start && out[0].end >= previous.end
    decreases |rest|
  {
    if |rest| > 0 {
      var current := rest[0];
      if current.end <= previous.end {
        MergeClimbs(previous, rest[1..]);
      } else if Minus(current.start, previous.end) <= 1 {
        MergeClimbs(previous.(end := current.end), rest[1..]);
      } else {
        MergeClimbs(current, rest[1..]);
        var out, tail := MergeFrom(previous, rest), MergeFrom(current, rest[1..]);
        forall i, j | 0 <= i < j < |out| ensures out[i].start <= out[j].start && out[i].end < out[j].end {
          assert out[j] == tail[j - 1] && (i > 0 ==> out[i] == tail[i - 1]);
        }
      }
    }
  }

  lemma CoalescedClimbs(rs: seq<Range>)
    requires |rs| > 0 && AllValid(rs)
    ensures AllValid(Coalesced(rs)) && Climbing(Coalesced(rs))
  {
    SortOrdered(rs);
    MergeClimbs(Sort(rs)[0], Sort(rs)[1..]);
  }

  // ---- when the result is separated ----

  /** Neighbours leave at least one address between them. */
  predicate Separated(rs: seq<Range>) {
    |rs| <= 1 || (rs[0].end + 1 < rs[1].start && Separated(rs[1..]))
  }

  /** No range starts before the furthest end so far and reaches beyond it. */
  predicate NoStraddle(furthest: nat, rest: seq<Range>)
    decreases |rest|
  {
    |rest| > 0 ==>
      && !(rest[0].start < furthest < rest[0].end)
      && NoStraddle(if rest[0].end > furthest then rest[0].end else furthest, rest[1..])
  }

  lemma {:induction false} MergeSeparatedIff(previous: Range, rest: seq<Range>)
    requires Ordered(previous, rest)
    ensures Separated(MergeFrom(previous, rest)) <==> NoStraddle(previous.end, rest)
    decreases |rest|
  {
    if |rest| > 0 {
      var current := rest[0];
      if current.end <= previous.end {
        MergeSeparatedIff(previous, rest[1..]);
      } else if Minus(current.start, previous.end) <= 1 {
        MergeSeparatedIff(previous.(end := current.end), rest[1..]);
      } else {
        MergeSeparatedIff(current, rest[1..]);
        MergeClimbs(current, rest[1..]);
        assert MergeFrom(previous, rest)[1..] == MergeFrom(current, rest[1..]);
      }
    }
  }

  /** The unsigned difference wraps for overlapping ranges, so these are left unmerged: the result has
      no touching or overlapping ranges exactly when no range straddles the furthest end before it. */
  lemma CoalescedSeparatedIff(rs: seq<Range>)
    requires |rs| > 0 && AllValid(rs)
    ensures Separated(Coalesced(rs)) <==> NoStraddle(Sort(rs)[0].end, Sort(rs)[1..])
  {
    SortOrdered(rs);
    MergeSeparatedIff(Sort(rs)[0], Sort(rs)[1..]);
  }

  const OVERLAPPING: seq<Range> := [MetadataMemoryMap.Range(0, 10), MetadataMemoryMap.Range(5, 20)]

  /** Two overlapping ranges that come back as they are. */
  lemma OverlapStays()
    ensures Coalesced(OVERLAPPING) == OVERLAPPING && !Separated(OVERLAPPING)
  {
    var rs := OVERLAPPING;
    assert Sort(rs[1..]) == rs[1..];
    assert Sort(rs) == rs;
    assert MergeFrom(rs[1], []) == [rs[1]];
    assert Minus(5, 10) > 1;
  }

  predicate Apart(r: Range, rs: seq<Range>) {
    forall i | 0 <= i < |rs| :: r.end < rs[i].start || rs[i].end < r.start
  }

  predicate PairwiseDisjoint(rs: seq<Range>) {
    |rs| > 0 ==> Apart(rs[0], rs[1..]) && PairwiseDisjoint(rs[1..])
  }

  lemma {:induction false} SortInDisjoint(x: Range, s: seq<Range>)
    requires PairwiseDisjoint(s) && Apart(x, s)
    ensures PairwiseDisjoint(SortIn(x, s))
    ensures forall r | Apart(r, s) && (r.end < x.start || x.end < r.start) :: Apart(r, SortIn(x, s))
  {
    if |s| > 0 {
      if AtMost(x, s[0]) {
        assert ([x] + s)[1..] == s;
      } else {
        SortInDisjoint(x, s[1..]);
        assert SortIn(x, s)[1..] == SortIn(x, s[1..]);
        forall r | Apart(r, s) && (r.end < x.start || x.end < r.start) ensures Apart(r, SortIn(x, s)) {
          assert Apart(r, s[1..]);
        }
      }
    }
  }

  lemma {:induction false} SortDisjoint(s: seq<Range>)
    requires PairwiseDisjoint(s)
    ensures PairwiseDisjoint(Sort(s)) && forall r | Apart(r, s) :: Apart(r, Sort(s))
  {
    if |s| > 0 {
      SortDisjoint(s[1..]);
      assert Apart(s[0], Sort(s[1..]));
      SortInDisjoint(s[0], Sort(s[1..]));
      forall r | Apart(r, s) ensures Apart(r, Sort(s)) {
        assert Apart(r, s[1..]);
      }
    }
  }

  lemma {:induction false} DisjointNoStraddle(furthest: nat, rest: seq<Range>)
    requires AllValid(rest) && Sorted(rest) && PairwiseDisjoint(rest) && (|rest| > 0 ==> furthest < rest[0].start)
    ensures NoStraddle(furthest, rest)
    decreases |rest|
  {
    if |rest| > 0 { DisjointNoStraddle(rest[0].end, rest[1..]); }
  }

  // ---- uniqueness and minimality ----

  ghost predicate SameCover(a: seq<Range>, b: seq<Range>) {
    forall addr: nat :: Covers(a, addr) <==> Covers(b, addr)
  }

  lemma {:induction false} CoversFrom(rs: seq<Range>, addr: nat)
    requires AllValid(rs) && Separated(rs) && Covers(rs, addr)
    ensures rs[0].start <= addr && (addr > rs[0].end ==> addr > rs[0].end + 1 && Covers(rs[1..], addr))
  {
    if !In(rs[0], addr) { CoversFrom(rs[1..], addr); }
  }

  lemma TailCover(rs: seq<Range>, addr: nat)
    requires AllValid(rs) && Separated(rs) && |rs| > 0
    ensures Covers(rs[1..], addr) <==> Covers(rs, addr) && addr > rs[0].end
  {
    if Covers(rs[1..], addr) { CoversFrom(rs[1..], addr); }
  }

  /** The first range of a separated list is determined by the covered addresses. */
  lemma FirstDetermined(a: seq<Range>, b: seq<Range>)
    requires AllValid(a) && AllValid(b) && Separated(a) && Separated(b) && SameCover(a, b) && |a| > 0
    ensures |b| > 0 && a[0] == b[0]
  {
    assert Covers(b, a[0].start);
    assert Covers(a, b[0].start);
    CoversFrom(b, a[0].start);
    CoversFrom(a, b[0].start);
    if a[0].end < b[0].end {
      assert Covers(a, a[0].end + 1);
      CoversFrom(a, a[0].end + 1);
    } else if b[0].end < a[0].end {
      assert Covers(b, b[0].end + 1);
      CoversFrom(b, b[0].end + 1);
    }
  }

  /** There is only one separated list for a set of addresses. */
  lemma {:induction false} SeparatedUnique(a: seq<Range>, b: seq<Range>)
    requires AllValid(a) && AllValid(b) && Separated(a) && Separated(b) && SameCover(a, b)
    ensures a == b
  {
    if |a| > 0 {
      FirstDetermined(a, b);
      forall addr: nat ensures Covers(a[1..], addr) <==> Covers(b[1..], addr) {
        TailCover(a, addr);
        TailCover(b, addr);
      }
      SeparatedUnique(a[1..], b[1..]);
      assert a == [a[0]] + a[1..] && b == [b[0]] + b[1..];
    } else if |b| > 0 {
      assert Covers(b, b[0].start);
    }
  }

  /** The ranges of a list that start after `limit`. */
  function Above(rs: seq<Range>, limit: nat): (s: seq<Range>)
    ensures |s| <= |rs|
  {
    if |rs| == 0 then []
    else if rs[0].start > limit then [rs[0]] + Above(rs[1..], limit)
    else Above(rs[1..], limit)
  }

  lemma {:induction false} AboveCovers(rs: seq<Range>, limit: nat, addr: nat)
    requires AllValid(rs) && !Covers(rs, limit + 1)
    ensures AllValid(Above(rs, limit))
    ensures Covers(Above(rs, limit), addr) <==> Covers(rs, addr) && addr > limit
    ensures addr <= limit && Covers(rs, addr) ==> |Above(rs, limit)| < |rs|
  {
    if |rs| > 0 {
      AboveCovers(rs[1..], limit, addr);
      var s := Above(rs, limit);
      if rs[0].start > limit { assert s[1..] == Above(rs[1..], limit); }
    }
  }

  /** No list with the same covered addresses is shorter than a separated one. */
  lemma {:induction false} SeparatedMinimal(a: seq<Range>, b: seq<Range>)
    requires AllValid(a) && AllValid(b) && Separated(a) && SameCover(a, b)
    ensures |a| <= |b|
  {
    if |a| > 0 {
      var limit := a[0].end;
      assert Covers(b, a[0].start);
      if Covers(a, limit + 1) { CoversFrom(a, limit + 1); }
      AboveCovers(b, limit, a[0].start);
      forall addr: nat ensures Covers(a[1..], addr) <==> Covers(Above(b, limit), addr) {
        TailCover(a, addr);
        AboveCovers(b, limit, addr);
      }
      SeparatedMinimal(a[1..], Above(b, limit));
    }
  }

  /** Pairwise disjoint ranges are coalesced to the unique minimal list: ranges that leave gaps
      between them, equal to any other such list for the same addresses and no longer than any list. */
  lemma CoalescedIsMinimal(rs: seq<Range>, other: seq<Range>)
    requires |rs| > 0 && AllValid(rs) && PairwiseDisjoint(rs)
    requires AllValid(other) && SameCover(other, rs)
    ensures Separated(Coalesced(rs)) && |Coalesced(rs)| <= |other|
    ensures Separated(other) ==> other == Coalesced(rs)
  {
    var out, s := Coalesced(rs), Sort(rs);
    SortSorts(rs);
    SortOrdered(rs);
    SortDisjoint(rs);
    forall i | 0 <= i < |rs| ensures ValidRange(s[i]) { assert s[i] in multiset(rs); }
    DisjointNoStraddle(s[0].end, s[1..]);
    CoalescedSeparatedIff(rs);
    CoalescedClimbs(rs);
    forall addr: nat ensures Covers(out, addr) <==> Covers(other, addr) { CoalescedCovers(rs, addr); }
    SeparatedMinimal(out, other);
    if Separated(other) { SeparatedUnique(out, other); }
  }
}
