/** From the tag file to the policy: the instruction and memory operands of an instruction mean what the map says
    about its address and about the memory it accesses. */
module ValidatorReadsMap {
  import opened Wrappers
  import opened RiscvIsa
  import opened Interning
  import opened TagBus
  import opened TagBusTheorems
  import opened ApplyMetadata
  import opened ApplyTheorems
  import opened ValidatorSpec
  import opened ValidatorFlow
  import Bits
  import MM = MetadataMemoryMap
  import RunIterator
  import TagInfoTheorems

  /** The bus of `c` is `bus` with the runs of `m` applied to it. */
  ghost predicate MapIsApplied(sets: seq<MetaSet>, bus: Bus, m: MM.Map, a: Applied, c: Core) {
    && DisjointRegions(bus) && NoDuplicates(sets) && Taggable(m) && Applicable(m.canon, RunIterator.MapRuns(m.mrs))
    && a == ApplyRuns(sets, bus, m.canon, RunIterator.MapRuns(m.mrs)) && a.ok
    && ValidCore(c) && c.bus == a.bus
  }

  /** An address of a RAM region. */
  ghost predicate InRam(bus: Bus, r: nat, addr: Address) {
    r < |bus| && InRegion(bus[r], addr) && bus[r].1.Ram?
  }

  /** The tag means the map's tag set at `at`, if the map has one there. */
  ghost predicate MeansMap(a: Applied, m: MM.Map, at: nat, tag: Tag)
    requires MM.WellFormed(m)
  {
    MM.TagsAt(m, at).Some? ==> Meaning(a.sets, tag) == MM.TagsAt(m, at)
  }

  /** The instruction operand means the map's tag set for the instruction's own word. */
  lemma CodeOperandMeansMap(env: Env, c: Core, q: Request, sets: seq<MetaSet>, bus: Bus, m: MM.Map, a: Applied, r: nat)
    requires MapIsApplied(sets, bus, m, a, c) && !Fatal(env, c, q) && InRam(bus, r, env.fix(q.pc))
    ensures MeansMap(a, m, env.fix(q.pc), Gather(env, c, q).ops.ci)
  {
    OperandsFor(env, c, q);
    MapApplied(sets, bus, m, r, env.fix(q.pc));
  }

  /** The memory operand of a load or store means the map's tag set at the beginning of the granule of its address:
      the given address, else one that waits from an earlier instruction, else base register plus immediate. */
  lemma MemoryOperandMeansMap(env: Env, c: Core, q: Request, sets: seq<MetaSet>, bus: Bus, m: MM.Map, a: Applied,
                              r: nat)
    requires MapIsApplied(sets, bus, m, a, c) && !Fatal(env, c, q)
    requires env.decode(q.insn).has_load || env.decode(q.insn).has_store
    requires InRam(bus, r, env.fix(AddressFor(env, c, q)))
    ensures MeansMap(a, m, BaseOf(bus, r, env.fix(AddressFor(env, c, q))), Gather(env, c, q).ops.mem)
  {
    OperandsFor(env, c, q);
    MapAppliedData(sets, bus, m, r, env.fix(AddressFor(env, c, q)));
  }

  /** What a loaded map says is what the saved one said. */
  lemma LoadedMeans(m: MM.Map, xlen: nat, loaded: MM.Map, a: Applied, at: nat, tag: Tag)
    requires TagInfoTheorems.Savable(m) && xlen < Bits.Pow2(32)
    requires loaded == TagInfoTheorems.Loaded(TagInfoTheorems.Saved(m, xlen)) && MM.WellFormed(loaded)
    requires MeansMap(a, loaded, at, tag)
    ensures MeansMap(a, m, at, tag)
  {
    TagInfoTheorems.LoadOfSave(m, xlen, at);
  }

  /** The same for a map that was saved to a file, loaded again and applied. */
  lemma FileReachesPolicy(env: Env, c: Core, q: Request, sets: seq<MetaSet>, bus: Bus, m: MM.Map, xlen: nat,
                          loaded: MM.Map, a: Applied, r: nat, s: nat)
    requires TagInfoTheorems.Savable(m) && xlen < Bits.Pow2(32)
    requires loaded == TagInfoTheorems.Loaded(TagInfoTheorems.Saved(m, xlen))
    requires MapIsApplied(sets, bus, loaded, a, c) && !Fatal(env, c, q)
    requires InRam(bus, r, env.fix(q.pc))
    requires env.decode(q.insn).has_load || env.decode(q.insn).has_store ==>
               InRam(bus, s, env.fix(AddressFor(env, c, q)))
    ensures MeansMap(a, m, env.fix(q.pc), Gather(env, c, q).ops.ci)
    ensures env.decode(q.insn).has_load || env.decode(q.insn).has_store ==>
              MeansMap(a, m, BaseOf(bus, s, env.fix(AddressFor(env, c, q))), Gather(env, c, q).ops.mem)
  {
    var ops := Gather(env, c, q).ops;
    CodeOperandMeansMap(env, c, q, sets, bus, loaded, a, r);
    LoadedMeans(m, xlen, loaded, a, env.fix(q.pc), ops.ci);
    if env.decode(q.insn).has_load || env.decode(q.insn).has_store {
      MemoryOperandMeansMap(env, c, q, sets, bus, loaded, a, s);
      LoadedMeans(m, xlen, loaded, a, BaseOf(bus, s, env.fix(AddressFor(env, c, q))), ops.mem);
    }
  }
}
