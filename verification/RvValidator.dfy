/** The RISC-V validator with its fields updated in place (validator/riscv/rv_validator.cc). */
module RvValidator {
  import opened Wrappers
  import opened RiscvIsa
  import opened TagBus
  import RuleCaches
  import DmhcRuleCache
  import opened ValidatorSpec

  type Config = DmhcRuleCache.Config

  // ---- `rule_cache_t*` ----

  datatype RuleCachePtr =
    | Null
    | IdealPtr(ideal: RuleCaches.IdealRuleCache)
    | FinitePtr(finite: RuleCaches.FiniteRuleCache)
    | DmhcPtr(dmhc: DmhcRuleCache.DmhcRuleCache)

  ghost function CacheRepr(p: RuleCachePtr): set<object> {
    match p
    case Null => {}
    case IdealPtr(c) => {c}
    case FinitePtr(c) => {c}
    case DmhcPtr(c) => c.Repr()
  }

  ghost predicate CacheOk(cfg: Config, p: RuleCachePtr)
    reads CacheRepr(p)
  {
    && (p.FinitePtr? ==> p.finite.Valid())
    && (forall c | c in DmhcBehind(p) :: c.Valid() && c.the_rule_cache.cfg == cfg)
  }

  ghost function DmhcBehind(p: RuleCachePtr): set<DmhcRuleCache.DmhcRuleCache> {
    if p.DmhcPtr? then {p.dmhc} else {}
  }

  ghost function CacheModel(cfg: Config, p: RuleCachePtr): (c: Cache)
    requires CacheOk(cfg, p)
    reads CacheRepr(p)
    ensures ValidCache(cfg, c)
  {
    match p
    case Null => NoCache
    case IdealPtr(c) => Ideal(c.rule_cache_table)
    case FinitePtr(c) => Limited(c.Model())
    case DmhcPtr(c) => Multi(c.Model())
  }

  method CacheAllow(ghost cfg: Config, p: RuleCachePtr, ops: Operands, res: Results)
    returns (found: bool, res': Results)
    requires CacheOk(cfg, p) && !p.Null?
    modifies CacheRepr(p)
    ensures CacheOk(cfg, p) && CacheModel(cfg, p) == AfterAllow(old(CacheModel(cfg, p)), ops)
    ensures var hit := HitOf(cfg, old(CacheModel(cfg, p)), ops);
            found == hit.Some? && res' == if found then hit.value else res
  {
    match p
    case IdealPtr(c) => found, res' := c.Allow(ops, res);
    case FinitePtr(c) => found, res' := c.Allow(ops, res);
    case DmhcPtr(c) => found, res' := c.Allow(ops, res);
  }

  method CacheInstallRule(ghost cfg: Config, p: RuleCachePtr, ops: Operands, res: Results)
    requires CacheOk(cfg, p) && !p.Null?
    modifies CacheRepr(p)
    ensures CacheOk(cfg, p) && CacheModel(cfg, p) == AfterInstall(cfg, old(CacheModel(cfg, p)), ops, res)
  {
    ghost var after := AfterInstall(cfg, CacheModel(cfg, p), ops, res);
    match p
    case IdealPtr(c) =>
      c.InstallRule(ops, res);
      assert CacheModel(cfg, p) == after;
    case FinitePtr(c) =>
      var error := c.InstallRule(ops, res);
      assert CacheModel(cfg, p) == after;
    case DmhcPtr(c) =>
      c.InstallRule(ops, res);
      assert CacheModel(cfg, p) == after;
  }

  method CacheFlush(ghost cfg: Config, p: RuleCachePtr)
    requires CacheOk(cfg, p) && !p.Null?
    modifies CacheRepr(p)
    ensures CacheOk(cfg, p) && CacheModel(cfg, p) == AfterFlush(cfg, old(CacheModel(cfg, p)))
  {
    match p
    case IdealPtr(c) => c.Flush();
    case FinitePtr(c) => c.Flush();
    case DmhcPtr(c) => c.Flush();
  }

  // ---- the validator ----

  function Filled(n: nat, tag: Tag): (s: seq<Tag>)
    ensures |s| == n && forall i | 0 <= i < n :: s[i] == tag
  {
    seq(n, _ => tag)
  }

  /** Every register has the default tag, except that register zero may have its own. */
  function InitialRegisters(register_default: Tag, zero: Option<Tag>): seq<Tag> {
    if zero.Some? then Filled(32, register_default)[0 := zero.value] else Filled(32, register_default)
  }

  lemma InitialRegister(register_default: Tag, zero: Option<Tag>, r: nat)
    requires r < 32
    ensures |InitialRegisters(register_default, zero)| == 32
    ensures InitialRegisters(register_default, zero)[r] == if r == 0 && zero.Some? then zero.value else register_default
  {}

  method NewTags(n: nat, tag: Tag) returns (a: array<Tag>)
    ensures fresh(a) && a.Length == n && a[..] == Filled(n, tag)
  {
    a := new Tag[n](_ => tag);
    assert a[..] == Filled(n, tag);
  }

  /** The tags, the operands of the current instruction and its pending writes. */
  class TagState {
    const env: Env
    const tag_bus: TagBus
    const ireg_tags: array<Tag>
    const csr_tags: array<Tag>
    var pc_tag: Tag
    var ctx: Context
    var ops: Operands
    var pending_RD: nat
    var pending_CSR: nat
    var has_pending_RD: bool
    var has_pending_mem: bool
    var has_pending_CSR: bool
    var mem_addr: Address
    var has_insn_mem_addr: bool

    ghost function Repr(): set<object> {
      {this, tag_bus, ireg_tags, csr_tags}
    }

    ghost predicate Arrays() {
      ireg_tags != csr_tags && ireg_tags.Length == 32 && csr_tags.Length == CSR_COUNT
    }

    ghost predicate Valid()
      reads Repr()
    {
      Arrays() && ValidCore(Model())
    }

    ghost function Model(): Core
      reads Repr()
    {
      Core(pc_tag, ireg_tags[..], csr_tags[..], tag_bus.provider_map, ctx, ops, pending_RD, pending_CSR,
           has_pending_RD, has_pending_mem, has_pending_CSR, mem_addr, has_insn_mem_addr)
    }

    /** The tags come from the metadata factory, the bus from the SOC configuration. */
    constructor (env: Env, tag_bus: TagBus, register_default: Tag, zero: Option<Tag>, csr_default: Tag, pc: Tag)
      requires ValidBus(tag_bus.provider_map)
      ensures Valid() && fresh(Repr() - {tag_bus}) && this.env == env && this.tag_bus == tag_bus
      ensures pc_tag == pc && ireg_tags[..] == InitialRegisters(register_default, zero)
      ensures csr_tags[..] == Filled(CSR_COUNT, csr_default)
    {
      this.env, this.tag_bus, pc_tag := env, tag_bus, pc;
      var iregs := NewTags(32, register_default);
      if zero.Some? { iregs[0] := zero.value; }
      var csrs := NewTags(CSR_COUNT, csr_default);
      ireg_tags, csr_tags := iregs, csrs;
      has_pending_RD, has_pending_mem, has_pending_CSR, has_insn_mem_addr := false, false, false, false;
    }

    method Clear()
      requires Valid()
      modifies this
      ensures Valid() && Model() == Cleared(old(Model()))
    {
      ctx := Context(0, 0);
      ops := ZERO_OPERANDS;
    }

    /** The register and CSR operands; later sources overwrite earlier ones. */
    method ReadOperands(inst: Instruction) returns (o: Operands)
      requires Valid()
      ensures o == RegisterOperands(Model(), inst)
    {
      o := ZERO_OPERANDS;
      if inst.rs1.Some? { o := o.(op1 := ireg_tags[inst.rs1.value]); }
      if inst.has_csr_load || inst.has_csr_store { o := o.(op2 := csr_tags[inst.imm.value]); }
      if inst.rs2.Some? { o := o.(op2 := ireg_tags[inst.rs2.value]); }
      if inst.rs3.Some? { o := o.(op3 := ireg_tags[inst.rs3.value]); }
    }

    method SetOperands(inst: Instruction)
      requires Valid()
      modifies this
      ensures Valid() && Model() == WithOperands(old(Model()), inst)
    {
      ops := ReadOperands(inst);
      pending_RD := if inst.rd.Some? then inst.rd.value else WORD32 - 1;
      has_pending_CSR := inst.has_csr_store;
      has_pending_RD := inst.rd.Some?;
      has_pending_mem := inst.has_store;
      pending_CSR := Unsigned32(inst.imm);
    }

    /** The memory operand; `miss` tells that the memory has no tag, which ends the run. */
    method ReadMemory(inst: Instruction, base: Address) returns (miss: bool)
      requires Valid() && UsesMemory(inst)
      modifies this
      ensures Valid() && Model() == WithMemory(env, old(Model()), inst, base)
      ensures miss == Misses(env, Model(), inst)
    {
      var addr := mem_addr; // used if the longer `validate` stored it
      if !has_insn_mem_addr {
        addr := AddImmediate(base, inst.imm);
      }
      mem_addr, has_insn_mem_addr := addr, false;
      ctx := ctx.(bad_addr := addr);
      var tag := tag_bus.TagAt(env.fix(addr), Data);
      ops := if tag.Some? then ops.(mem := tag.value) else ops;
      miss := tag == Some(BAD_TAG_VALUE);
    }

    method ReadCode(pc: Address)
      requires Valid()
      modifies this
      ensures Valid() && Model() == WithCode(env, old(Model()), pc)
    {
      var ci_tag := tag_bus.TagAt(env.fix(pc), Insn);
      ctx := ctx.(epc := pc);
      ops := ops.(ci := if ci_tag.Some? then ci_tag.value else BAD_TAG_VALUE, pc := pc_tag);
    }

    /** Every operand except the pc and instruction tags. */
    method ReadData(inst: Instruction, base: Address) returns (miss: bool)
      requires Valid()
      modifies this
      ensures Valid() && Model() == WithMemory(env, WithOperands(old(Model()), inst), inst, base)
      ensures miss == Misses(env, Model(), inst)
    {
      SetOperands(inst);
      miss := false;
      if inst.has_load || inst.has_store {
        miss := ReadMemory(inst, base);
      }
    }

    /** The operands of one instruction. */
    method Prepare(pc: Address, insn: nat, base: Address) returns (miss: bool)
      requires Valid()
      modifies this
      ensures Valid()
      ensures var q := Request(pc, insn, None, base);
              miss == Fatal(env, old(Model()), q) && Model() == Gather(env, old(Model()), q)
    {
      Clear();
      miss := ReadData(env.decode(insn), base);
      if !miss { ReadCode(pc); }
    }

    method SetAddress(addr: Address)
      requires Valid()
      modifies this
      ensures Valid() && Model() == Given(old(Model()), Some(addr))
    {
      has_insn_mem_addr := true;
      mem_addr := addr;
    }

    /** The pc tag and the destination register. */
    method UpdateRegisters(res: Results)
      requires Valid()
      modifies this, ireg_tags
      ensures Valid() && Model() == WithRegister(WithPc(old(Model()), res), res)
    {
      if res.pcResult {
        pc_tag := res.pc;
      }
      if has_pending_RD && res.rdResult {
        // register zero keeps its tag
        if pending_RD != 0 { ireg_tags[pending_RD] := res.rd; }
      }
    }

    method UpdateMemory(res: Results) returns (halt: bool)
      requires Valid()
      modifies tag_bus
      ensures Valid() && Model() == WithStore(env, old(Model()), res)
      ensures halt == Lost(env, old(Model()), res)
    {
      halt := false;
      if has_pending_mem && res.rdResult {
        var stored := tag_bus.SetTagAt(env.fix(mem_addr), Data, res.rd);
        halt := !stored;
      }
    }

    method UpdateCsr(res: Results)
      requires Valid()
      modifies csr_tags
      ensures Valid() && Model() == WithCsr(old(Model()), res)
    {
      if has_pending_CSR && res.csrResult {
        csr_tags[pending_CSR] := res.csr;
      }
    }
  }

  class RvValidator {
    const env: Env
    ghost const cfg: Config
    const state: TagState
    const rule_cache: RuleCachePtr
    var ctx_cached: bool
    var res: Results
    var failed: bool
    var rule_cache_hit: bool

    constructor (ghost cfg: Config, state: TagState, rule_cache: RuleCachePtr)
      requires state.Valid() && CacheOk(cfg, rule_cache) && forall o | o in state.Repr() :: o !in CacheRepr(rule_cache)
      ensures Valid() && this.cfg == cfg && this.state == state && this.rule_cache == rule_cache && !failed
      ensures res == Results(BAD_TAG_VALUE, BAD_TAG_VALUE, BAD_TAG_VALUE, true, true, true)
    {
      env, this.cfg, this.state, this.rule_cache := state.env, cfg, state, rule_cache;
      res := Results(BAD_TAG_VALUE, BAD_TAG_VALUE, BAD_TAG_VALUE, true, true, true);
      failed := false;
    }

    /** The validator, its state and its cache do not share objects. */
    ghost predicate Separate() {
      && state.env == env && this !in state.Repr() && this !in CacheRepr(rule_cache)
      && state !in CacheRepr(rule_cache) && state.tag_bus !in CacheRepr(rule_cache)
      && state.ireg_tags !in CacheRepr(rule_cache) && state.csr_tags !in CacheRepr(rule_cache)
    }

    ghost predicate Valid()
      reads this, state.Repr(), CacheRepr(rule_cache)
    {
      Separate() && state.Valid() && CacheOk(cfg, rule_cache)
    }

    ghost function Model(): (m: Machine)
      requires Valid()
      reads this, state.Repr(), CacheRepr(rule_cache)
      ensures ValidMachine(cfg, m)
    {
      Machine(state.Model(), res, ctx_cached, failed, CacheModel(cfg, rule_cache))
    }

    /** A cache whose objects have not changed means the same. */
    twostate lemma CacheUntouched()
      ensures unchanged(CacheRepr(rule_cache)) && old(CacheOk(cfg, rule_cache)) ==>
                CacheOk(cfg, rule_cache) && CacheModel(cfg, rule_cache) == old(CacheModel(cfg, rule_cache))
    {}

    /** Only the tag state has changed. */
    twostate lemma StateReplaced()
      requires old(Valid()) && state.Valid() && unchanged(this) && unchanged(CacheRepr(rule_cache))
      ensures Valid() && Model() == old(Model()).(core := state.Model())
    {
      CacheUntouched();
    }

    /** `setup_validation` and `prepare_eval`. */
    method PrepareEval(pc: Address, insn: nat, base: Address) returns (miss: bool)
      requires Valid()
      modifies this, state
      ensures Valid() && miss == Fatal(env, old(state.Model()), Request(pc, insn, None, base))
      ensures Model() == Ready(env, old(Model()), Request(pc, insn, None, base))
      ensures rule_cache_hit == old(rule_cache_hit)
    {
      ClearResults();
      miss := PrepareState(pc, insn, base);
    }

    /** The tag of the empty set is the same at every call (`CanonizeIsStable`). */
    method ClearResults()
      requires Valid()
      modifies `res, `ctx_cached, `failed
      ensures Valid()
      ensures var m := old(Model()); Model() == Machine(m.core, EmptyResults(env), true, false, m.cache)
    {
      failed := false;
      ctx_cached := true;
      res := Results(env.empty, env.empty, env.empty, false, false, false);
      CacheUntouched();
    }

    method PrepareState(pc: Address, insn: nat, base: Address) returns (miss: bool)
      requires Valid()
      modifies state
      ensures Valid() && miss == Fatal(env, old(state.Model()), Request(pc, insn, None, base))
      ensures Model() == old(Model()).(core := Gather(env, old(state.Model()), Request(pc, insn, None, base)))
    {
      miss := state.Prepare(pc, insn, base);
      StateReplaced();
    }

    method SetAddress(memory_addr: Address)
      requires Valid()
      modifies state
      ensures Valid() && Model() == old(Model()).(core := Given(old(state.Model()), Some(memory_addr)))
    {
      state.SetAddress(memory_addr);
      StateReplaced();
    }

    /** The tag updates of `commit`. */
    method UpdateTags() returns (halt: bool)
      requires Valid()
      modifies state, state.tag_bus, state.ireg_tags, state.csr_tags
      ensures Valid()
      ensures var a := Apply(env, old(state.Model()), res); Model() == old(Model()).(core := a.0) && halt == a.1
    {
      ghost var m := Model();
      UpdateRegisters();
      ghost var c1 := WithRegister(WithPc(m.core, res), res);
      assert Model() == m.(core := c1);
      halt := UpdateMemory();
      ghost var c2 := WithStore(env, c1, res);
      assert Model() == m.(core := c2);
      UpdateCsr();
    }

    method UpdateRegisters()
      requires Valid()
      modifies state, state.ireg_tags
      ensures Valid() && Model() == old(Model()).(core := WithRegister(WithPc(old(state.Model()), res), res))
    {
      state.UpdateRegisters(res);
      CacheUntouched();
    }

    method UpdateMemory() returns (halt: bool)
      requires Valid()
      modifies state.tag_bus
      ensures Valid() && Model() == old(Model()).(core := WithStore(env, old(state.Model()), res))
      ensures halt == Lost(env, old(state.Model()), res)
    {
      halt := state.UpdateMemory(res);
      CacheUntouched();
    }

    method UpdateCsr()
      requires Valid()
      modifies state.csr_tags
      ensures Valid() && Model() == old(Model()).(core := WithCsr(old(state.Model()), res))
    {
      state.UpdateCsr(res);
      CacheUntouched();
    }

    /** `validate` without a memory address. `base` is what the register reader returns. */
    method Validate(pc: Address, insn: nat, base: Address) returns (verdict: Verdict)
      requires Valid()
      modifies this, state, CacheRepr(rule_cache)
      ensures Valid()
      ensures (Model(), verdict) == ValidatorSpec.Validate(env, cfg, old(Model()), Request(pc, insn, None, base))
      ensures rule_cache_hit == if rule_cache.Null? || verdict == TagMiss then old(rule_cache_hit)
                                else HitOf(cfg, old(Model()).cache, state.ops).Some?
    {
      var miss := PrepareEval(pc, insn, base);
      if miss { return TagMiss; }
      verdict := AskCacheThenPolicy();
    }

    method AskCacheThenPolicy() returns (verdict: Verdict)
      requires Valid() && !failed
      modifies this, CacheRepr(rule_cache)
      ensures Valid()
      ensures (Model(), verdict) == Decide(env, cfg, old(Model()))
      ensures rule_cache_hit == if rule_cache.Null? then old(rule_cache_hit)
                                else HitOf(cfg, old(Model()).cache, state.ops).Some?
    {
      var found := AskCache();
      if found { return Permitted; }
      verdict := AskPolicy();
    }

    method AskCache() returns (found: bool)
      requires Valid()
      modifies this, CacheRepr(rule_cache)
      ensures Valid()
      ensures var m := old(Model());
              var hit := HitOf(cfg, m.cache, m.core.ops);
              && found == hit.Some?
              && Model() == m.(res := if hit.Some? then hit.value else m.res, cache := AfterAllow(m.cache, m.core.ops))
              && rule_cache_hit == if rule_cache.Null? then old(rule_cache_hit) else hit.Some?
    {
      found := false;
      if !rule_cache.Null? {
        found, res := CacheAllow(cfg, rule_cache, state.ops, res);
        rule_cache_hit := found;
      }
    }

    method AskPolicy() returns (verdict: Verdict)
      requires Valid()
      modifies `res, `ctx_cached, `failed
      ensures Valid()
      ensures var o := env.policy(old(state.Model()).ctx, old(state.Model()).ops);
              var ok := o.code == POLICY_SUCCESS;
              && verdict == (if ok then Permitted else Violation)
              && Model() == old(Model()).(res := o.res, cached := o.cached, failed := old(failed) || !ok)
    {
      var o := env.policy(state.ctx, state.ops);
      res, ctx_cached := o.res, o.cached;
      if o.code == POLICY_SUCCESS {
        verdict := Permitted;
      } else {
        failed := true;
        verdict := Violation;
      }
      CacheUntouched();
    }

    /** `validate` with a memory address. `hit` tells whether the cache knew the gathered operands; without a
        cache, or when a tag is missing, it is left over from the last time the cache was asked. */
    method ValidateAt(pc: Address, insn: nat, memory_addr: Address, base: Address) returns (verdict: Verdict, hit: bool)
      requires Valid()
      modifies this, state, CacheRepr(rule_cache)
      ensures Valid()
      ensures (Model(), verdict)
              == ValidatorSpec.Validate(env, cfg, old(Model()), Request(pc, insn, Some(memory_addr), base))
      ensures hit == if rule_cache.Null? || verdict == TagMiss then old(rule_cache_hit)
                     else HitOf(cfg, old(Model()).cache, state.ops).Some?
    {
      GivenFirst(env, cfg, Model(), pc, insn, memory_addr, base);
      SetAddress(memory_addr);
      verdict := Validate(pc, insn, base);
      hit := rule_cache_hit;
    }

    static lemma GivenFirst(env: Env, cfg: Config, m: Machine, pc: Address, insn: nat, mem: Address, base: Address)
      requires ValidMachine(cfg, m)
      ensures ValidatorSpec.Validate(env, cfg, m.(core := Given(m.core, Some(mem))), Request(pc, insn, None, base))
              == ValidatorSpec.Validate(env, cfg, m, Request(pc, insn, Some(mem), base))
    {
      assert Given(Given(m.core, Some(mem)), None) == Given(m.core, Some(mem));
    }

    method Commit() returns (halt: bool)
      requires Valid()
      modifies this, state, state.tag_bus, state.ireg_tags, state.csr_tags, CacheRepr(rule_cache)
      ensures Valid()
      ensures (Model(), halt) == ValidatorSpec.Commit(env, cfg, old(Model()))
    {
      halt := UpdateTags();
      UpdateCache();
    }

    method UpdateCache()
      requires Valid()
      modifies this, CacheRepr(rule_cache)
      ensures Valid() && Model() == Remember(cfg, old(Model()))
    {
      if !rule_cache.Null? {
        var res_copy := res;
        if ctx_cached {
          var found;
          found, res := CacheAllow(cfg, rule_cache, state.ops, res);
          if !found { CacheInstallRule(cfg, rule_cache, state.ops, res_copy); }
        }
      }
    }

    method FlushRuleCache()
      requires Valid()
      modifies CacheRepr(rule_cache)
      ensures Valid() && Model() == Next(env, cfg, old(Model()), DoFlush).0
    {
      if !rule_cache.Null? { CacheFlush(cfg, rule_cache); }
    }
  }
}
