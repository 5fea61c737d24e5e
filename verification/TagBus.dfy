/** Canonical tag numbers and the tag bus (validator/riscv/meta_cache.cc,
    validator/include/tag_utils.h). */
module TagBus {
  import opened Wrappers
  import opened RiscvIsa
  import opened Interning
  import opened Bits

  const MIN_TAG_GRANULARITY: nat := 4
  const ADDRESS_SPACE: nat := 0x1_0000_0000_0000_0000
  const HALF: int := 0x8000_0000_0000_0000

  /** `address_t`: 64-bit and unsigned. */
  type Address = a: nat | a < ADDRESS_SPACE

  /** A `meta_set_t`: the set of its metadata elements. */
  type MetaSet = set<nat>

  // ---- canonical tags ----

  /** `meta_set_cache_t`: tag `t` stands for `metaSets[t - 1]`; tag 0 is never issued. */
  class MetaSetCache {
    var metaSets: seq<MetaSet>

    constructor ()
      ensures metaSets == []
    {
      metaSets := [];
    }

    method Canonize(ts: MetaSet) returns (tag: Tag)
      modifies this
      ensures metaSets == Intern(old(metaSets), ts) && tag == TagOf(old(metaSets), ts)
    {
      var index;
      metaSets, index := FindOrAppend(metaSets, ts);
      tag := index + 1;
    }
  }

  function TagOf(metaSets: seq<MetaSet>, ts: MetaSet): Tag {
    IndexOf(metaSets, ts) + 1
  }

  /** `meta_set_cache_t::operator []` */
  function Meaning(metaSets: seq<MetaSet>, tag: Tag): Option<MetaSet> {
    if 1 <= tag <= |metaSets| then Some(metaSets[tag - 1]) else None
  }

  /** A canonised set's tag means that set, tags issued earlier keep their meaning, and equal tags
      stand for equal sets only. The bad tag is never issued. */
  lemma CanonizeIsStable(metaSets: seq<MetaSet>, ts: MetaSet, tag: Tag)
    requires NoDuplicates(metaSets)
    ensures var after := Intern(metaSets, ts);
            && NoDuplicates(after)
            && Meaning(after, TagOf(metaSets, ts)) == Some(ts)
            && TagOf(after, ts) == TagOf(metaSets, ts)
            && (Meaning(metaSets, tag).Some? ==> Meaning(after, tag) == Meaning(metaSets, tag))
            && (Meaning(after, tag) == Some(ts) <==> tag == TagOf(metaSets, ts))
            && TagOf(metaSets, ts) != BAD_TAG_VALUE
  {
    InternKeepsDistinct(metaSets, ts);
    IndexOfIsFirst(metaSets, ts);
    var after := Intern(metaSets, ts);
    var i := IndexOf(metaSets, ts);
    IndexOfIsFirst(after, ts);
    UniquePosition(after, IndexOf(after, ts), i);
    if 1 <= tag <= |after| { UniquePosition(after, tag - 1, i); }
  }

  // ---- providers ----

  /** `uniform_tag_provider_t` and `platform_ram_tag_provider_t`; the latter's tag granularity is
      the power of two `1 << log`. */
  datatype Provider =
    | Uniform(size: nat, tag: Tag)
    | Ram(size: nat, log: nat, tags: seq<Tag>)

  predicate ValidProvider(p: Provider) {
    p.Ram? ==> |p.tags| == p.size / MIN_TAG_GRANULARITY + 1
  }

  function NewRam(size: nat, tag: Tag, log: nat): (p: Provider)
    ensures ValidProvider(p)
  {
    Ram(size, log, seq(size / MIN_TAG_GRANULARITY + 1, i => tag))
  }

  /** Which cell of `tags` an offset uses: `(addr & -granularity)/4` for data, `addr/4` for code.
      Masking with the negated granularity clears the low `log` digits. */
  function DataCell(log: nat, offset: nat): (cell: nat)
    ensures cell <= offset / MIN_TAG_GRANULARITY
  {
    LowAndHigh(offset, log);
    Shl(Shr(offset, log), log) / MIN_TAG_GRANULARITY
  }

  function InsnCell(offset: nat): nat {
    offset / MIN_TAG_GRANULARITY
  }

  datatype Access = Data | Insn

  function CellOf(p: Provider, offset: nat, kind: Access): (cell: nat)
    requires p.Ram?
    ensures cell <= offset / MIN_TAG_GRANULARITY
  {
    if kind.Data? then DataCell(p.log, offset) else InsnCell(offset)
  }

  function ReadProvider(p: Provider, offset: nat, kind: Access): Option<Tag>
    requires ValidProvider(p)
  {
    if offset >= p.size then None
    else if p.Uniform? then Some(p.tag)
    else Some(p.tags[CellOf(p, offset, kind)])
  }

  /** Assignment through the returned reference. */
  function WriteProvider(p: Provider, offset: nat, kind: Access, tag: Tag): (p': Provider)
    requires ValidProvider(p)
    ensures ValidProvider(p') && p'.size == p.size
  {
    if offset >= p.size then p
    else if p.Uniform? then p.(tag := tag)
    else p.(tags := p.tags[CellOf(p, offset, kind) := tag])
  }

  // ---- the bus ----

  /** The key of a start address: its negation modulo 2^64, read as a signed number. */
  function Key(addr: Address): (key: int)
    ensures -HALF <= key < HALF
  {
    if addr <= HALF then 0 - addr else ADDRESS_SPACE - addr
  }

  /** `provider_map`: providers in increasing order of key. */
  type Bus = seq<(int, Provider)>

  predicate ValidBus(bus: Bus) {
    && (forall i, j | 0 <= i < j < |bus| :: bus[i].0 < bus[j].0)
    && (forall i | 0 <= i < |bus| :: -HALF <= bus[i].0 < HALF && ValidProvider(bus[i].1))
  }

  /** `lower_bound`: the first entry whose key is at least `key`, or the length. */
  function LowerBound(bus: Bus, key: int): (i: nat)
    ensures i <= |bus|
    ensures i < |bus| ==> bus[i].0 >= key
    ensures forall j | 0 <= j < i :: bus[j].0 < key
  {
    if |bus| == 0 then 0 else if bus[0].0 >= key then 0 else 1 + LowerBound(bus[1..], key)
  }

  /** `addr - -base` in unsigned 64-bit arithmetic. */
  function Offset(addr: Address, key: int): Address
    requires -HALF <= key < HALF
  {
    if addr + key < 0 then addr + key + ADDRESS_SPACE
    else if addr + key >= ADDRESS_SPACE then addr + key - ADDRESS_SPACE
    else addr + key
  }

  lemma AddressArithmetic(addr: Address, key: int)
    requires -HALF <= key < HALF
    ensures (Key(addr) + addr) % ADDRESS_SPACE == 0
    ensures Offset(addr, key) == (addr + key) % ADDRESS_SPACE
  {}

  function Read(bus: Bus, addr: Address, kind: Access): Option<Tag>
    requires ValidBus(bus)
  {
    var i := LowerBound(bus, Key(addr));
    if i == |bus| then None else ReadProvider(bus[i].1, Offset(addr, bus[i].0), kind)
  }

  function Write(bus: Bus, addr: Address, kind: Access, tag: Tag): (bus': Bus)
    requires ValidBus(bus)
    ensures ValidBus(bus')
  {
    var i := LowerBound(bus, Key(addr));
    if i == |bus| then bus
    else bus[i := (bus[i].0, WriteProvider(bus[i].1, Offset(addr, bus[i].0), kind, tag))]
  }

  /** `add_provider`: `provider_map[-start] = provider`. */
  function AddProvider(bus: Bus, start: Address, p: Provider): (bus': Bus)
    requires ValidBus(bus) && ValidProvider(p)
    ensures ValidBus(bus')
  {
    var i := LowerBound(bus, Key(start));
    if i < |bus| && bus[i].0 == Key(start) then bus[i := (Key(start), p)]
    else bus[..i] + [(Key(start), p)] + bus[i..]
  }

  /** `tag_bus_t`. The accessors return references that the callers read or assign through; reading
      and assigning are separate methods here. `None` and `false` stand for `std::out_of_range`. */
  class TagBus {
    var provider_map: Bus

    constructor ()
      ensures provider_map == [] && ValidBus(provider_map)
    {
      provider_map := [];
    }

    method AddTagProvider(start: Address, p: Provider)
      requires ValidBus(provider_map) && ValidProvider(p)
      modifies this
      ensures ValidBus(provider_map) && provider_map == AddProvider(old(provider_map), start, p)
    {
      provider_map := AddProvider(provider_map, start, p);
    }

    method TagAt(addr: Address, kind: Access) returns (tag: Option<Tag>)
      requires ValidBus(provider_map)
      ensures tag == Read(provider_map, addr, kind)
    {
      var it := LowerBound(provider_map, Key(addr));
      if it == |provider_map| { return None; }
      var offset := Offset(addr, provider_map[it].0);
      match provider_map[it].1
      case Uniform(size, t) => tag := if offset < size then Some(t) else None;
      case Ram(size, log, tags) =>
        if offset >= size { return None; }
        tag := Some(tags[if kind.Data? then DataCell(log, offset) else InsnCell(offset)]);
    }

    method SetTagAt(addr: Address, kind: Access, t: Tag) returns (ok: bool)
      requires ValidBus(provider_map)
      modifies this
      ensures ValidBus(provider_map) && provider_map == Write(old(provider_map), addr, kind, t)
      ensures ok == Read(old(provider_map), addr, kind).Some?
    {
      var it := LowerBound(provider_map, Key(addr));
      if it == |provider_map| { return false; }
      var (base, p) := provider_map[it];
      var offset := Offset(addr, base);
      ok := offset < p.size;
      if ok {
        provider_map := provider_map[it := (base, WriteProvider(p, offset, kind, t))];
      } else {
        assert provider_map[it := provider_map[it]] == provider_map;
      }
    }
  }
}
