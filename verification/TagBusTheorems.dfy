/** Reads and writes through the tag bus, and applying a tag map to it. */
module TagBusTheorems {
  import opened Wrappers
  import opened RiscvIsa
  import opened Bits
  import opened TagBus

  function StartOf(key: int): int {
    -key
  }

  predicate InRegion(entry: (int, Provider), addr: Address) {
    StartOf(entry.0) <= addr < StartOf(entry.0) + entry.1.size
  }

  /** The providers cover disjoint non-empty regions below 2^63 with word-aligned bases. */
  predicate DisjointRegions(bus: Bus) {
    && ValidBus(bus)
    && (forall i | 0 <= i < |bus| ::
          && 0 <= StartOf(bus[i].0) && StartOf(bus[i].0) % MIN_TAG_GRANULARITY == 0
          && 0 < bus[i].1.size && StartOf(bus[i].0) + bus[i].1.size <= HALF)
    && (forall i, j | 0 <= i < j < |bus| :: StartOf(bus[j].0) + bus[j].1.size <= StartOf(bus[i].0))
  }

  /** A provider for `start .. start + p.size` overlaps no region of the bus. */
  predicate Fits(bus: Bus, start: Address, p: Provider)
    requires DisjointRegions(bus)
  {
    && ValidProvider(p) && start % MIN_TAG_GRANULARITY == 0 && 0 < p.size && start + p.size <= HALF
    && forall i | 0 <= i < |bus| :: start + p.size <= StartOf(bus[i].0) || StartOf(bus[i].0) + bus[i].1.size <= start
  }

  /** Adding a provider that overlaps nothing keeps the regions disjoint, and files it under its start. */
  lemma AddKeepsDisjoint(bus: Bus, start: Address, p: Provider)
    requires DisjointRegions(bus) && Fits(bus, start, p)
    ensures var i, bus' := LowerBound(bus, Key(start)), AddProvider(bus, start, p);
            && DisjointRegions(bus') && |bus'| == |bus| + 1
            && bus'[i] == (Key(start), p) && StartOf(bus'[i].0) == start
            && bus'[..i] == bus[..i] && bus'[i + 1..] == bus[i..]
  {
    var i, bus' := LowerBound(bus, Key(start)), AddProvider(bus, start, p);
    assert bus' == bus[..i] + [(Key(start), p)] + bus[i..];
    forall k | 0 <= k < i ensures StartOf(bus[k].0) >= start + p.size {
      assert bus[k].0 < Key(start);
    }
    forall k | i <= k < |bus| ensures StartOf(bus[k].0) + bus[k].1.size <= start {
      assert bus[k].0 >= bus[i].0;
    }
    AddedInOrder(bus, i, (Key(start), p));
  }

  predicate Region(e: (int, Provider)) {
    && -HALF <= e.0 < HALF && ValidProvider(e.1) && 0 <= StartOf(e.0) && StartOf(e.0) % MIN_TAG_GRANULARITY == 0
    && 0 < e.1.size && StartOf(e.0) + e.1.size <= HALF
  }

  predicate Below(e: (int, Provider), f: (int, Provider)) {
    StartOf(e.0) + e.1.size <= StartOf(f.0)
  }

  lemma AddedInOrder(bus: Bus, i: nat, e: (int, Provider))
    requires DisjointRegions(bus) && i <= |bus| && Region(e)
    requires forall k | 0 <= k < i :: Below(e, bus[k])
    requires forall k | i <= k < |bus| :: Below(bus[k], e)
    ensures DisjointRegions(bus[..i] + [e] + bus[i..])
  {
    var bus' := bus[..i] + [e] + bus[i..];
    forall k | 0 <= k < |bus'| ensures Region(bus'[k]) {
      assert bus'[k] == e || (k < i && bus'[k] == bus[k]) || (k > i && bus'[k] == bus[k - 1]);
    }
    forall a, b | 0 <= a < b < |bus'| ensures Below(bus'[b], bus'[a]) {
      AddedPair(bus, i, e, a, b);
    }
    forall a, b | 0 <= a < b < |bus'| ensures bus'[a].0 < bus'[b].0 {
      assert Below(bus'[b], bus'[a]) && Region(bus'[b]);
    }
  }

  lemma AddedPair(bus: Bus, i: nat, e: (int, Provider), a: nat, b: nat)
    requires DisjointRegions(bus) && i <= |bus| && a < b <= |bus|
    requires forall k | 0 <= k < i :: Below(e, bus[k])
    requires forall k | i <= k < |bus| :: Below(bus[k], e)
    ensures Below((bus[..i] + [e] + bus[i..])[b], (bus[..i] + [e] + bus[i..])[a])
  {
    if b < i {
      assert Below(bus[b], bus[a]);
    } else if b > i && a != i {
      assert Below(bus[b - 1], bus[if a < i then a else a - 1]);
    }
  }

  /** An address inside a region reaches that region's provider, at its distance from the base. */
  lemma RegionFound(bus: Bus, r: nat, addr: Address)
    requires DisjointRegions(bus) && r < |bus| && InRegion(bus[r], addr)
    ensures LowerBound(bus, Key(addr)) == r
    ensures Offset(addr, bus[r].0) == addr - StartOf(bus[r].0)
  {
    var i := LowerBound(bus, Key(addr));
    assert i < r ==> StartOf(bus[r].0) + bus[r].1.size <= StartOf(bus[i].0);
  }

  lemma ReadInRegion(bus: Bus, r: nat, addr: Address, kind: Access)
    requires DisjointRegions(bus) && r < |bus| && InRegion(bus[r], addr)
    ensures Read(bus, addr, kind) == ReadProvider(bus[r].1, addr - StartOf(bus[r].0), kind)
  {
    RegionFound(bus, r, addr);
  }

  /** An address in no region is out of range. */
  lemma NoRegion(bus: Bus, addr: Address, kind: Access)
    requires DisjointRegions(bus)
    requires forall r | 0 <= r < |bus| :: !InRegion(bus[r], addr)
    ensures Read(bus, addr, kind) == None
  {
    var i := LowerBound(bus, Key(addr));
    if i < |bus| { assert !InRegion(bus[i], addr); }
  }

  /** Accesses to the two addresses share one tag: the same uniform region, or the same cell of a RAM region.
      Both kinds of access use the same cells. */
  predicate SharesTag(bus: Bus, r: nat, a: Address, ka: Access, b: Address, kb: Access)
    requires DisjointRegions(bus) && r < |bus| && InRegion(bus[r], a)
  {
    InRegion(bus[r], b) &&
    (bus[r].1.Uniform? ||
     CellOf(bus[r].1, a - StartOf(bus[r].0), ka) == CellOf(bus[r].1, b - StartOf(bus[r].0), kb))
  }

  /** The same regions, possibly with other tags. */
  predicate SameRegions(bus: Bus, bus': Bus) {
    && |bus'| == |bus|
    && forall i | 0 <= i < |bus| ::
         && bus'[i].0 == bus[i].0
         && bus'[i].1.size == bus[i].1.size
         && bus'[i].1.Ram? == bus[i].1.Ram?
         && (bus[i].1.Ram? ==> bus'[i].1.log == bus[i].1.log)
  }

  lemma WriteKeepsRegions(bus: Bus, addr: Address, kind: Access, tag: Tag)
    requires DisjointRegions(bus)
    ensures SameRegions(bus, Write(bus, addr, kind, tag)) && DisjointRegions(Write(bus, addr, kind, tag))
  {
    var bus' := Write(bus, addr, kind, tag);
    assert SameRegions(bus, bus');
    forall i, j | 0 <= i < j < |bus'| ensures StartOf(bus'[j].0) + bus'[j].1.size <= StartOf(bus'[i].0) {
      assert StartOf(bus[j].0) + bus[j].1.size <= StartOf(bus[i].0);
    }
  }

  lemma ReadWriteProvider(p: Provider, x: nat, kx: Access, y: nat, ky: Access, tag: Tag)
    requires ValidProvider(p) && x < p.size && y < p.size
    ensures ReadProvider(WriteProvider(p, x, kx, tag), y, ky)
            == if p.Uniform? || CellOf(p, x, kx) == CellOf(p, y, ky) then Some(tag) else ReadProvider(p, y, ky)
  {}

  /** The write replaces one provider by its updated version. */
  lemma WriteInRegion(bus: Bus, r: nat, a: Address, kind: Access, tag: Tag)
    requires DisjointRegions(bus) && r < |bus| && InRegion(bus[r], a)
    ensures Write(bus, a, kind, tag)
            == bus[r := (bus[r].0, WriteProvider(bus[r].1, a - StartOf(bus[r].0), kind, tag))]
  {
    RegionFound(bus, r, a);
  }

  lemma OneRegion(bus: Bus, r: nat, q: nat, b: Address)
    requires DisjointRegions(bus) && r < |bus| && q < |bus| && InRegion(bus[r], b) && InRegion(bus[q], b)
    ensures q == r
  {
    RegionFound(bus, r, b);
    RegionFound(bus, q, b);
  }

  lemma ReadAfterWriteHere(bus: Bus, r: nat, a: Address, ka: Access, b: Address, kb: Access, tag: Tag)
    requires DisjointRegions(bus) && r < |bus| && InRegion(bus[r], a) && InRegion(bus[r], b)
    ensures Read(Write(bus, a, ka, tag), b, kb)
            == if SharesTag(bus, r, a, ka, b, kb) then Some(tag) else Read(bus, b, kb)
  {
    WriteInRegion(bus, r, a, ka, tag);
    WriteKeepsRegions(bus, a, ka, tag);
    ReadInRegion(bus, r, b, kb);
    ReadInRegion(Write(bus, a, ka, tag), r, b, kb);
    ReadWriteProvider(bus[r].1, a - StartOf(bus[r].0), ka, b - StartOf(bus[r].0), kb, tag);
  }

  /** Another region's provider is not touched. */
  lemma ReadOtherRegion(bus: Bus, bus': Bus, r: nat, q: nat, b: Address, kb: Access)
    requires DisjointRegions(bus) && DisjointRegions(bus') && |bus'| == |bus| && q < |bus| && q != r
    requires r < |bus| && bus' == bus[r := bus'[r]] && InRegion(bus[q], b)
    ensures Read(bus', b, kb) == Read(bus, b, kb)
  {
    ReadInRegion(bus, q, b, kb);
    ReadInRegion(bus', q, b, kb);
  }

  lemma ReadNowhere(bus: Bus, bus': Bus, b: Address, kb: Access)
    requires DisjointRegions(bus) && DisjointRegions(bus') && SameRegions(bus, bus')
    requires forall q | 0 <= q < |bus| :: !InRegion(bus[q], b)
    ensures Read(bus', b, kb) == Read(bus, b, kb)
  {
    NoRegion(bus, b, kb);
    NoRegion(bus', b, kb);
  }

  lemma ReadAfterWriteElsewhere(bus: Bus, r: nat, a: Address, ka: Access, b: Address, kb: Access, tag: Tag)
    requires DisjointRegions(bus) && r < |bus| && InRegion(bus[r], a) && !InRegion(bus[r], b)
    ensures Read(Write(bus, a, ka, tag), b, kb) == Read(bus, b, kb)
  {
    WriteInRegion(bus, r, a, ka, tag);
    WriteKeepsRegions(bus, a, ka, tag);
    var bus' := Write(bus, a, ka, tag);
    if q: nat :| q < |bus| && InRegion(bus[q], b) {
      ReadOtherRegion(bus, bus', r, q, b, kb);
    } else {
      ReadNowhere(bus, bus', b, kb);
    }
  }

  /** A write changes the tag of exactly the accesses that share its tag, of either kind. */
  lemma ReadAfterWrite(bus: Bus, r: nat, a: Address, ka: Access, b: Address, kb: Access, tag: Tag)
    requires DisjointRegions(bus) && r < |bus| && InRegion(bus[r], a)
    ensures Read(Write(bus, a, ka, tag), b, kb)
            == if SharesTag(bus, r, a, ka, b, kb) then Some(tag) else Read(bus, b, kb)
  {
    if InRegion(bus[r], b) {
      ReadAfterWriteHere(bus, r, a, ka, b, kb, tag);
    } else {
      ReadAfterWriteElsewhere(bus, r, a, ka, b, kb, tag);
    }
  }

  // ---- granules ----

  /** A data tag covers `1 << log` bytes, but never less than one word. */
  function GranuleLog(log: nat): nat {
    if log < 2 then 2 else log
  }

  lemma {:induction false} ShlInjective(x: nat, y: nat, n: nat)
    ensures Shl(x, n) == Shl(y, n) <==> x == y
  {
    if n != 0 { ShlInjective(x, y, n - 1); }
  }

  lemma CellOfGranule(log: nat, x: nat)
    ensures DataCell(log, x) == if log < 2 then Shr(x, 2) else Shl(Shr(x, log), log - 2)
  {
    assert Shr(x, 2) == x / 4 by { assert Shr(x, 2) == Shr(x / 2, 1) == Shr(x / 2 / 2, 0); }
    if log >= 2 {
      ShlAdd(Shr(x, log), log - 2, 2);
      var z := Shl(Shr(x, log), log - 2);
      assert Shl(z, 2) == 2 * Shl(z, 1) == 4 * z;
    } else if log == 1 {
      assert Shr(x, 1) == x / 2 && Shl(x / 2, 1) == 2 * (x / 2);
    }
  }

  /** Data offsets use the same cell exactly when they lie in the same granule. */
  lemma SameGranule(log: nat, x: nat, y: nat)
    ensures DataCell(log, x) == DataCell(log, y) <==> Shr(x, GranuleLog(log)) == Shr(y, GranuleLog(log))
  {
    CellOfGranule(log, x);
    CellOfGranule(log, y);
    if log >= 2 { ShlInjective(Shr(x, log), Shr(y, log), log - 2); }
  }

  /** `b` lies in the same granule of region `r` as `a`, counted from the region's base. */
  predicate InGranule(bus: Bus, r: nat, a: Address, b: Address)
    requires DisjointRegions(bus) && r < |bus| && InRegion(bus[r], a) && bus[r].1.Ram?
  {
    var g, start := GranuleLog(bus[r].1.log), StartOf(bus[r].0);
    InRegion(bus[r], b) && Shr(a - start, g) == Shr(b - start, g)
  }

  lemma SharesDataTag(bus: Bus, r: nat, a: Address, b: Address)
    requires DisjointRegions(bus) && r < |bus| && InRegion(bus[r], a) && bus[r].1.Ram?
    ensures SharesTag(bus, r, a, Data, b, Data) <==> InGranule(bus, r, a, b)
  {
    if InRegion(bus[r], b) { SameGranule(bus[r].1.log, a - StartOf(bus[r].0), b - StartOf(bus[r].0)); }
  }

  /** Writing a data tag in a RAM region changes the data tag of exactly the addresses in the same
      granule. */
  lemma DataWriteTouchesOneGranule(bus: Bus, r: nat, a: Address, b: Address, tag: Tag)
    requires DisjointRegions(bus) && r < |bus| && InRegion(bus[r], a) && bus[r].1.Ram?
    ensures Read(Write(bus, a, Data, tag), b, Data)
            == if InGranule(bus, r, a, b) then Some(tag) else Read(bus, b, Data)
  {
    ReadAfterWrite(bus, r, a, Data, b, Data, tag);
    SharesDataTag(bus, r, a, b);
  }

  lemma SameWord(a: nat, b: nat, start: nat)
    requires start <= a && start <= b && a % 4 == 0 && start % 4 == 0
    ensures (a - start) / 4 == (b - start) / 4 <==> a <= b < a + 4
  {}

  predicate InWord(bus: Bus, r: nat, a: Address, b: Address)
    requires DisjointRegions(bus) && r < |bus|
  {
    InRegion(bus[r], b) && a <= b < a + MIN_TAG_GRANULARITY
  }

  lemma SharesInsnTag(bus: Bus, r: nat, a: Address, b: Address)
    requires DisjointRegions(bus) && r < |bus| && InRegion(bus[r], a) && bus[r].1.Ram? && a % MIN_TAG_GRANULARITY == 0
    ensures SharesTag(bus, r, a, Insn, b, Insn) <==> InWord(bus, r, a, b)
  {
    if InRegion(bus[r], b) { SameWord(a, b, StartOf(bus[r].0)); }
  }

  /** Writing an instruction tag at an aligned address in a RAM region changes the instruction tag
      of exactly the four addresses of that word. */
  lemma InsnWriteTouchesOneWord(bus: Bus, r: nat, a: Address, b: Address, tag: Tag)
    requires DisjointRegions(bus) && r < |bus| && InRegion(bus[r], a) && bus[r].1.Ram?
    requires a % MIN_TAG_GRANULARITY == 0
    ensures Read(Write(bus, a, Insn, tag), b, Insn)
            == if InWord(bus, r, a, b) then Some(tag) else Read(bus, b, Insn)
  {
    ReadAfterWrite(bus, r, a, Insn, b, Insn, tag);
    SharesInsnTag(bus, r, a, b);
  }

  // ---- data tags and instruction tags share cells ----

  /** Where the granule of an offset begins. */
  function GranuleBase(log: nat, x: nat): nat {
    Shl(Shr(x, GranuleLog(log)), GranuleLog(log))
  }

  lemma ShlFour(x: nat, n: nat)
    requires n >= 2
    ensures Shl(x, n) % 4 == 0 && Shl(x, n) / 4 == Shl(x, n - 2)
  {
    ShlAdd(x, n - 2, 2);
    var y := Shl(x, n - 2);
    assert Shl(y, 2) == 2 * Shl(y, 1) == 4 * y;
  }

  /** A data access uses the cell of the first word of its granule. */
  lemma DataCellIsFirstWord(log: nat, x: nat)
    ensures DataCell(log, x) == InsnCell(GranuleBase(log, x))
    ensures GranuleBase(log, x) % MIN_TAG_GRANULARITY == 0 && GranuleBase(log, x) <= x
  {
    var g := GranuleLog(log);
    CellOfGranule(log, x);
    ShlFour(Shr(x, g), g);
    LowAndHigh(x, g);
  }

  /** The first address of the granule of `b`. */
  function BaseOf(bus: Bus, r: nat, b: Address): (base: Address)
    requires DisjointRegions(bus) && r < |bus| && InRegion(bus[r], b) && bus[r].1.Ram?
    ensures InRegion(bus[r], base) && base % MIN_TAG_GRANULARITY == 0 && base <= b
  {
    var offset := b - StartOf(bus[r].0);
    DataCellIsFirstWord(bus[r].1.log, offset);
    StartOf(bus[r].0) + GranuleBase(bus[r].1.log, offset)
  }

  /** The data tag of an address is the instruction tag of the first word of its granule. */
  lemma DataTagIsFirstInsnTag(bus: Bus, r: nat, b: Address)
    requires DisjointRegions(bus) && r < |bus| && InRegion(bus[r], b) && bus[r].1.Ram?
    ensures Read(bus, b, Data) == Read(bus, BaseOf(bus, r, b), Insn)
  {
    DataCellIsFirstWord(bus[r].1.log, b - StartOf(bus[r].0));
    ReadInRegion(bus, r, b, Data);
    ReadInRegion(bus, r, BaseOf(bus, r, b), Insn);
  }

  lemma SharesFirstWord(bus: Bus, r: nat, a: Address, b: Address)
    requires DisjointRegions(bus) && r < |bus| && InRegion(bus[r], a) && bus[r].1.Ram?
    ensures SharesTag(bus, r, a, Data, b, Insn) <==> InWord(bus, r, BaseOf(bus, r, a), b)
  {
    DataCellIsFirstWord(bus[r].1.log, a - StartOf(bus[r].0));
    if InRegion(bus[r], b) { SameWord(BaseOf(bus, r, a), b, StartOf(bus[r].0)); }
  }

  lemma SharesGranule(bus: Bus, r: nat, a: Address, b: Address)
    requires DisjointRegions(bus) && r < |bus| && InRegion(bus[r], a) && bus[r].1.Ram? && a % MIN_TAG_GRANULARITY == 0
    ensures SharesTag(bus, r, a, Insn, b, Data) <==> InRegion(bus[r], b) && BaseOf(bus, r, b) == a
  {
    if InRegion(bus[r], b) {
      DataCellIsFirstWord(bus[r].1.log, b - StartOf(bus[r].0));
      SameWord(a, BaseOf(bus, r, b), StartOf(bus[r].0));
    }
  }

  /** So a data-tag write also changes the instruction tag of exactly the first word of the granule. */
  lemma DataWriteRetagsFirstWord(bus: Bus, r: nat, a: Address, b: Address, tag: Tag)
    requires DisjointRegions(bus) && r < |bus| && InRegion(bus[r], a) && bus[r].1.Ram?
    ensures Read(Write(bus, a, Data, tag), b, Insn)
            == if InWord(bus, r, BaseOf(bus, r, a), b) then Some(tag) else Read(bus, b, Insn)
  {
    ReadAfterWrite(bus, r, a, Data, b, Insn, tag);
    SharesFirstWord(bus, r, a, b);
  }

  /** And an instruction-tag write at an aligned address changes the data tag of exactly the addresses whose
      granule begins there. */
  lemma InsnWriteRetagsGranule(bus: Bus, r: nat, a: Address, b: Address, tag: Tag)
    requires DisjointRegions(bus) && r < |bus| && InRegion(bus[r], a) && bus[r].1.Ram?
    requires a % MIN_TAG_GRANULARITY == 0
    ensures Read(Write(bus, a, Insn, tag), b, Data)
            == if InRegion(bus[r], b) && BaseOf(bus, r, b) == a then Some(tag) else Read(bus, b, Data)
  {
    ReadAfterWrite(bus, r, a, Insn, b, Data, tag);
    SharesGranule(bus, r, a, b);
  }
}
