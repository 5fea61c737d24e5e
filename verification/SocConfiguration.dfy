/** The tag bus that the validator configures from the SOC's elements
    (validator/src/soc_tag_configuration.cc, `apply`). */
module SocConfiguration {
  import opened Wrappers
  import opened RiscvIsa
  import opened TagBus
  import opened TagBusTheorems
  import opened Bits

  /** `soc_element_t`; the tag granularity is `1 << log`. */
  datatype Element = Element(start: Address, end: Address, heterogeneous: bool, tag: Tag, log: nat)

  /** Unsigned 64-bit `end - start`. */
  function SizeOf(e: Element): nat {
    if e.start <= e.end then e.end - e.start else e.end + ADDRESS_SPACE - e.start
  }

  lemma SizeOfIs(e: Element)
    ensures SizeOf(e) == (e.end - e.start) % ADDRESS_SPACE
  {}

  function ProviderOf(e: Element): (p: Provider)
    ensures ValidProvider(p) && p.size == SizeOf(e)
  {
    if e.heterogeneous then NewRam(SizeOf(e), e.tag, e.log) else Uniform(SizeOf(e), e.tag)
  }

  /** The bus after the elements have been added in order. */
  function Configured(elements: seq<Element>): (bus: Bus)
    ensures ValidBus(bus)
  {
    if elements == [] then []
    else
      var last := elements[|elements| - 1];
      AddProvider(Configured(elements[..|elements| - 1]), last.start, ProviderOf(last))
  }

  method Apply(elements: seq<Element>, tag_bus: TagBus)
    requires tag_bus.provider_map == []
    modifies tag_bus
    ensures tag_bus.provider_map == Configured(elements)
  {
    for i := 0 to |elements|
      invariant ValidBus(tag_bus.provider_map) && tag_bus.provider_map == Configured(elements[..i])
    {
      assert elements[..i + 1][..i] == elements[..i];
      tag_bus.AddTagProvider(elements[i].start, ProviderOf(elements[i]));
    }
    assert elements[..|elements|] == elements;
  }

  // ---- what the configured bus reads ----

  /** A non-empty element below 2^63 with a word-aligned start. */
  predicate Placed(e: Element) {
    e.start < e.end <= HALF && e.start % MIN_TAG_GRANULARITY == 0
  }

  predicate Apart(e: Element, f: Element) {
    e.end <= f.start || f.end <= e.start
  }

  /** The elements do not overlap. */
  predicate Disjoint(elements: seq<Element>) {
    && (forall i | 0 <= i < |elements| :: Placed(elements[i]))
    && (forall i, j | 0 <= i < j < |elements| :: Apart(elements[i], elements[j]))
  }

  predicate IsRegionOf(entry: (int, Provider), e: Element) {
    StartOf(entry.0) == e.start && entry.1 == ProviderOf(e)
  }

  /** Every region of the bus is one of the elements. */
  ghost predicate Among(bus: Bus, elements: seq<Element>) {
    forall entry | entry in bus :: exists e :: e in elements && IsRegionOf(entry, e)
  }

  lemma NextFits(bus: Bus, before: seq<Element>, e: Element)
    requires DisjointRegions(bus) && Among(bus, before) && Disjoint(before + [e])
    ensures Fits(bus, e.start, ProviderOf(e))
  {
    var elements := before + [e];
    assert elements[|before|] == e && Placed(elements[|before|]);
    forall r | 0 <= r < |bus| ensures e.end <= StartOf(bus[r].0) || StartOf(bus[r].0) + bus[r].1.size <= e.start {
      assert bus[r] in bus;
      var f :| f in before && IsRegionOf(bus[r], f);
      var k :| 0 <= k < |before| && before[k] == f;
      assert elements[k] == f && Placed(f) && Apart(elements[k], elements[|before|]);
    }
  }

  lemma AddedAmong(bus: Bus, before: seq<Element>, e: Element)
    requires DisjointRegions(bus) && Among(bus, before) && Fits(bus, e.start, ProviderOf(e))
    ensures Among(AddProvider(bus, e.start, ProviderOf(e)), before + [e])
  {
    var i, bus' := LowerBound(bus, Key(e.start)), AddProvider(bus, e.start, ProviderOf(e));
    AddKeepsDisjoint(bus, e.start, ProviderOf(e));
    assert bus' == bus[..i] + [bus'[i]] + bus[i..];
    forall entry | entry in bus' ensures exists f :: f in before + [e] && IsRegionOf(entry, f) {
      if entry in bus {
        var f :| f in before && IsRegionOf(entry, f);
        assert f in before + [e];
      } else {
        assert entry == bus'[i] && e in before + [e];
      }
    }
  }

  /** Where the regions of the bus are once another one is added. */
  lemma AddedAt(bus: Bus, start: Address, p: Provider, r: nat)
    requires DisjointRegions(bus) && Fits(bus, start, p) && r < |bus|
    ensures var i, bus' := LowerBound(bus, Key(start)), AddProvider(bus, start, p);
            |bus'| == |bus| + 1 && bus'[if r < i then r else r + 1] == bus[r]
  {
    var i, bus' := LowerBound(bus, Key(start)), AddProvider(bus, start, p);
    AddKeepsDisjoint(bus, start, p);
    assert if r < i then bus'[r] == bus'[..i][r] else bus'[r + 1] == bus'[i + 1..][r - i];
  }

  lemma SameRegion(bus: Bus, bus': Bus, r: nat, r': nat, addr: Address, kind: Access)
    requires DisjointRegions(bus) && DisjointRegions(bus') && r < |bus| && r' < |bus'| && bus'[r'] == bus[r]
    requires InRegion(bus[r], addr)
    ensures Read(bus', addr, kind) == Read(bus, addr, kind)
  {
    ReadInRegion(bus, r, addr, kind);
    ReadInRegion(bus', r', addr, kind);
  }

  lemma ReadInside(bus: Bus, start: Address, p: Provider, addr: Address, kind: Access)
    requires DisjointRegions(bus) && Fits(bus, start, p) && start <= addr < start + p.size
    ensures Read(AddProvider(bus, start, p), addr, kind) == ReadProvider(p, addr - start, kind)
  {
    AddKeepsDisjoint(bus, start, p);
    ReadInRegion(AddProvider(bus, start, p), LowerBound(bus, Key(start)), addr, kind);
  }

  lemma ReadBeside(bus: Bus, start: Address, p: Provider, r: nat, addr: Address, kind: Access)
    requires DisjointRegions(bus) && Fits(bus, start, p) && r < |bus| && InRegion(bus[r], addr)
    ensures Read(AddProvider(bus, start, p), addr, kind) == Read(bus, addr, kind)
  {
    AddKeepsDisjoint(bus, start, p);
    AddedAt(bus, start, p, r);
    SameRegion(bus, AddProvider(bus, start, p), r, if r < LowerBound(bus, Key(start)) then r else r + 1, addr, kind);
  }

  lemma ReadNoneOf(bus: Bus, start: Address, p: Provider, addr: Address, kind: Access)
    requires DisjointRegions(bus) && Fits(bus, start, p) && !(start <= addr < start + p.size)
    requires forall r | 0 <= r < |bus| :: !InRegion(bus[r], addr)
    ensures Read(AddProvider(bus, start, p), addr, kind) == None && Read(bus, addr, kind) == None
  {
    var i, bus' := LowerBound(bus, Key(start)), AddProvider(bus, start, p);
    AddKeepsDisjoint(bus, start, p);
    NoRegion(bus, addr, kind);
    forall k | 0 <= k < |bus'| ensures !InRegion(bus'[k], addr) {
      if k < i { AddedAt(bus, start, p, k); } else if k > i { AddedAt(bus, start, p, k - 1); }
    }
    NoRegion(bus', addr, kind);
  }

  /** A provider that fits is read inside its region, and everything else is read as before. */
  lemma AddedRead(bus: Bus, start: Address, p: Provider, addr: Address, kind: Access)
    requires DisjointRegions(bus) && Fits(bus, start, p)
    ensures Read(AddProvider(bus, start, p), addr, kind)
            == if start <= addr < start + p.size then ReadProvider(p, addr - start, kind) else Read(bus, addr, kind)
  {
    if start <= addr < start + p.size {
      ReadInside(bus, start, p, addr, kind);
    } else if r: nat :| r < |bus| && InRegion(bus[r], addr) {
      ReadBeside(bus, start, p, r, addr, kind);
    } else {
      ReadNoneOf(bus, start, p, addr, kind);
    }
  }

  lemma FewerDisjoint(elements: seq<Element>, n: nat)
    requires Disjoint(elements) && n <= |elements|
    ensures Disjoint(elements[..n])
  {}

  /** Elements that do not overlap give disjoint regions, in whatever order they are listed. */
  lemma {:induction false} ConfiguredDisjoint(elements: seq<Element>)
    requires Disjoint(elements)
    ensures DisjointRegions(Configured(elements)) && Among(Configured(elements), elements)
  {
    if elements != [] {
      var before, last := elements[..|elements| - 1], elements[|elements| - 1];
      FewerDisjoint(elements, |elements| - 1);
      ConfiguredDisjoint(before);
      assert before + [last] == elements;
      NextFits(Configured(before), before, last);
      AddKeepsDisjoint(Configured(before), last.start, ProviderOf(last));
      AddedAmong(Configured(before), before, last);
    }
  }

  lemma FreshProvider(e: Element, offset: nat, kind: Access)
    requires offset < SizeOf(e)
    ensures ReadProvider(ProviderOf(e), offset, kind) == Some(e.tag)
  {}

  /** The tag of the element that contains the address. */
  function TagIn(elements: seq<Element>, addr: Address): Option<Tag> {
    if elements == [] then None
    else
      var last := elements[|elements| - 1];
      if last.start <= addr < last.end then Some(last.tag) else TagIn(elements[..|elements| - 1], addr)
  }

  lemma LastRead(before: seq<Element>, last: Element, addr: Address, kind: Access)
    requires Disjoint(before + [last]) && Disjoint(before)
    ensures Read(AddProvider(Configured(before), last.start, ProviderOf(last)), addr, kind)
            == if last.start <= addr < last.end then Some(last.tag) else Read(Configured(before), addr, kind)
  {
    ConfiguredDisjoint(before);
    NextFits(Configured(before), before, last);
    AddedRead(Configured(before), last.start, ProviderOf(last), addr, kind);
    assert (before + [last])[|before|] == last && Placed(last);
    if last.start <= addr < last.end { FreshProvider(last, addr - last.start, kind); }
  }

  /** Then every address reads the tag of its element, as data and as an instruction, and an address of none is out
      of range. */
  lemma {:induction false} ConfiguredReads(elements: seq<Element>, addr: Address, kind: Access)
    requires Disjoint(elements)
    ensures Read(Configured(elements), addr, kind) == TagIn(elements, addr)
  {
    if elements != [] {
      var before, last := elements[..|elements| - 1], elements[|elements| - 1];
      assert before + [last] == elements;
      FewerDisjoint(elements, |elements| - 1);
      ConfiguredReads(before, addr, kind);
      LastRead(before, last, addr, kind);
      LastFirst(before, last, addr);
    } else {
      NoRegion([], addr, kind);
    }
  }

  lemma LastFirst(before: seq<Element>, last: Element, addr: Address)
    ensures var elements := before + [last];
            && Configured(elements) == AddProvider(Configured(before), last.start, ProviderOf(last))
            && TagIn(elements, addr) == if last.start <= addr < last.end then Some(last.tag) else TagIn(before, addr)
  {
    assert (before + [last])[..|before|] == before;
  }

  // ---- what a write changes ----

  /** Each element has its region on the bus. */
  lemma {:induction false} RegionOfElement(elements: seq<Element>, k: nat) returns (r: nat)
    requires Disjoint(elements) && k < |elements|
    ensures r < |Configured(elements)| && IsRegionOf(Configured(elements)[r], elements[k])
  {
    var before, last := elements[..|elements| - 1], elements[|elements| - 1];
    FewerDisjoint(elements, |elements| - 1);
    ConfiguredDisjoint(before);
    assert before + [last] == elements;
    NextFits(Configured(before), before, last);
    var bus, at := Configured(before), LowerBound(Configured(before), Key(last.start));
    AddKeepsDisjoint(bus, last.start, ProviderOf(last));
    if k == |elements| - 1 {
      r := at;
    } else {
      var q := RegionOfElement(before, k);
      AddedAt(bus, last.start, ProviderOf(last), q);
      r := if q < at then q else q + 1;
    }
  }

  predicate InElement(e: Element, addr: Address) {
    e.start <= addr < e.end
  }

  /** The two addresses have one tag: a uniform element has only one; a heterogeneous one has a data tag for each
      granule of `1 << log` bytes, at least a word, and an instruction tag for each word. */
  predicate OneTag(e: Element, a: Address, b: Address, kind: Access)
    requires InElement(e, a) && InElement(e, b)
  {
    e.heterogeneous ==>
      match kind
      case Data => Shr(a - e.start, GranuleLog(e.log)) == Shr(b - e.start, GranuleLog(e.log))
      case Insn => (a - e.start) / 4 == (b - e.start) / 4
  }

  /** A tag written to the freshly configured bus is read at exactly the addresses of its element that have one tag
      with the address it was written to. */
  lemma ConfiguredWrite(elements: seq<Element>, k: nat, a: Address, b: Address, kind: Access, tag: Tag)
    requires Disjoint(elements) && k < |elements| && InElement(elements[k], a)
    ensures Read(Write(Configured(elements), a, kind, tag), b, kind)
            == if InElement(elements[k], b) && OneTag(elements[k], a, b, kind) then Some(tag) else TagIn(elements, b)
  {
    var e, bus := elements[k], Configured(elements);
    assert Placed(e);
    ConfiguredDisjoint(elements);
    ConfiguredReads(elements, b, kind);
    var r := RegionOfElement(elements, k);
    ReadAfterWrite(bus, r, a, kind, b, kind, tag);
    if InElement(e, b) { SharesOneTag(bus, r, e, a, b, kind); }
  }

  lemma SharesOneTag(bus: Bus, r: nat, e: Element, a: Address, b: Address, kind: Access)
    requires DisjointRegions(bus) && r < |bus| && Placed(e) && IsRegionOf(bus[r], e)
    requires InElement(e, a) && InElement(e, b)
    ensures SharesTag(bus, r, a, kind, b, kind) <==> OneTag(e, a, b, kind)
  {
    if e.heterogeneous && kind.Data? { SharesDataTag(bus, r, a, b); }
  }

  lemma Replaced(bus: Bus, r: nat, p: Provider)
    requires DisjointRegions(bus) && r < |bus| && ValidProvider(p)
    ensures AddProvider(bus, StartOf(bus[r].0), p) == bus[r := (bus[r].0, p)]
  {
    RegionFound(bus, r, StartOf(bus[r].0));
  }

  lemma ReplacedDisjoint(bus: Bus, r: nat, p: Provider, bus': Bus)
    requires DisjointRegions(bus) && r < |bus| && ValidProvider(p) && p.size == bus[r].1.size
    requires bus' == bus[r := (bus[r].0, p)]
    ensures DisjointRegions(bus')
  {
    assert forall i | 0 <= i < |bus| :: bus'[i].0 == bus[i].0 && bus'[i].1.size == bus[i].1.size;
    forall i, j | 0 <= i < j < |bus'| ensures StartOf(bus'[j].0) + bus'[j].1.size <= StartOf(bus'[i].0) {
      assert StartOf(bus[j].0) + bus[j].1.size <= StartOf(bus[i].0);
    }
  }

  /** An element that begins where an earlier one of the same size does takes its place. */
  lemma AddReplaces(bus: Bus, r: nat, p: Provider, addr: Address, kind: Access)
    requires DisjointRegions(bus) && r < |bus| && ValidProvider(p) && p.size == bus[r].1.size
    ensures Read(AddProvider(bus, StartOf(bus[r].0), p), addr, kind)
            == if InRegion(bus[r], addr) then ReadProvider(p, addr - StartOf(bus[r].0), kind) else Read(bus, addr, kind)
  {
    var bus' := AddProvider(bus, StartOf(bus[r].0), p);
    Replaced(bus, r, p);
    ReplacedDisjoint(bus, r, p, bus');
    if InRegion(bus[r], addr) {
      ReadInRegion(bus', r, addr, kind);
    } else if q: nat :| q < |bus| && InRegion(bus[q], addr) {
      ReadOtherRegion(bus, bus', r, q, addr, kind);
    } else {
      NoRegion(bus, addr, kind);
      NoRegion(bus', addr, kind);
    }
  }
}
