/** What a validator run does to the tags, read off its steps. */
module ValidatorMeaning {
  import opened Wrappers
  import opened RiscvIsa
  import opened TagBus
  import opened TagBusTheorems
  import opened DmhcRuleCache
  import opened ValidatorSpec

  // ---- validate ----

  /** The part of the state that outlives an instruction. */
  predicate SameTags(a: Core, b: Core) {
    a.pc_tag == b.pc_tag && a.ireg_tags == b.ireg_tags && a.csr_tags == b.csr_tags && a.bus == b.bus
  }

  lemma GatherKeepsTags(env: Env, c: Core, q: Request)
    requires ValidCore(c)
    ensures SameTags(c, Gather(env, c, q))
  {}

  lemma DecideKeepsCore(env: Env, cfg: Config, m: Machine)
    requires ValidMachine(cfg, m)
    ensures Decide(env, cfg, m).0.core == m.core
  {}

  /** Whatever its verdict, `validate` changes no tag. */
  lemma ValidateKeepsTags(env: Env, cfg: Config, m: Machine, q: Request)
    requires ValidMachine(cfg, m)
    ensures SameTags(m.core, Validate(env, cfg, m, q).0.core)
  {
    GatherKeepsTags(env, m.core, q);
    DecideKeepsCore(env, cfg, Ready(env, m, q));
  }

  /** An address given with an instruction that does not access memory stays behind, and the next load or
      store that comes without an address uses it. */
  lemma AddressCarriesOver(env: Env, c: Core, first: Request, second: Request)
    requires ValidCore(c) && first.mem.Some? && !UsesMemory(env.decode(first.insn))
    requires second.mem.None? && UsesMemory(env.decode(second.insn))
    ensures Gather(env, Gather(env, c, first), second).mem_addr == first.mem.value
  {}

  // ---- commit ----

  lemma RegisterAfter(c: Core, res: Results, r: nat)
    requires ValidCore(c) && r < 32
    ensures WithRegister(c, res).ireg_tags[r]
            == if r != 0 && c.has_pending_RD && r == c.pending_RD && res.rdResult then res.rd else c.ireg_tags[r]
  {}

  lemma CsrAfter(c: Core, res: Results, s: nat)
    requires ValidCore(c) && s < CSR_COUNT
    ensures WithCsr(c, res).csr_tags[s]
            == if c.has_pending_CSR && s == c.pending_CSR && res.csrResult then res.csr else c.csr_tags[s]
  {}

  /** What one commit does to every register, every CSR and the pc. */
  lemma RegistersCommitted(env: Env, c: Core, res: Results, r: nat, s: nat)
    requires ValidCore(c) && r < 32 && s < CSR_COUNT
    ensures var c' := Apply(env, c, res).0;
            && c'.pc_tag == (if res.pcResult then res.pc else c.pc_tag)
            && c'.ireg_tags[r] == (if r != 0 && c.has_pending_RD && r == c.pending_RD && res.rdResult then res.rd
                                   else c.ireg_tags[r])
            && c'.csr_tags[s] == (if c.has_pending_CSR && s == c.pending_CSR && res.csrResult then res.csr
                                  else c.csr_tags[s])
  {
    FieldsApplied(env, c, res);
    RegisterAfter(c, res, r);
    CsrAfter(c, res, s);
  }

  /** The four updates touch different fields. */
  lemma FieldsApplied(env: Env, c: Core, res: Results)
    requires ValidCore(c)
    ensures var c' := Apply(env, c, res).0;
            && c'.pc_tag == WithPc(c, res).pc_tag
            && c'.ireg_tags == WithRegister(c, res).ireg_tags
            && c'.csr_tags == WithCsr(c, res).csr_tags
            && c'.bus == WithStore(env, c, res).bus
  {
    var c1 := WithPc(c, res);
    var c2 := WithRegister(c1, res);
    var c3 := WithStore(env, c2, res);
    assert c1 == c.(pc_tag := c1.pc_tag) && c2 == c1.(ireg_tags := c2.ireg_tags) && c3 == c2.(bus := c3.bus);
    assert c2.ireg_tags == WithRegister(c, res).ireg_tags;
    assert c3.bus == WithStore(env, c, res).bus;
  }

  /** What one commit does to the data and instruction tags of every address, for a store into a mapped
      region: exactly the accesses that share the stored address's tag change. In RAM these are the data
      accesses to its granule and the instruction accesses to the granule's first word. */
  lemma StoreCommitted(env: Env, c: Core, res: Results, q: nat, b: Address, kind: Access)
    requires ValidCore(c) && DisjointRegions(c.bus)
    requires q < |c.bus| && InRegion(c.bus[q], env.fix(c.mem_addr))
    ensures !Lost(env, c, res)
    ensures Read(Apply(env, c, res).0.bus, b, kind)
            == (if c.has_pending_mem && res.rdResult && SharesTag(c.bus, q, env.fix(c.mem_addr), Data, b, kind)
                then Some(res.rd) else Read(c.bus, b, kind))
  {
    ReadAfterWrite(c.bus, q, env.fix(c.mem_addr), Data, b, kind, res.rd);
    ReadInRegion(c.bus, q, env.fix(c.mem_addr), Data);
    FieldsApplied(env, c, res);
  }

  // ---- whole runs ----

  /** Register zero keeps its tag over every run. */
  lemma {:induction false} RegisterZeroConstant(env: Env, cfg: Config, m: Machine, steps: seq<Step>)
    requires ValidMachine(cfg, m)
    ensures Run(env, cfg, m, steps).0.core.ireg_tags[0] == m.core.ireg_tags[0]
    decreases |steps|
  {
    if |steps| > 0 {
      var next := Next(env, cfg, m, steps[0]).0;
      if steps[0].DoCommit? { RegistersCommitted(env, m.core, m.res, 0, 0); }
      RegisterZeroConstant(env, cfg, next, steps[1..]);
    }
  }

  /** Tags change only at commits: a run without one leaves every tag as it was. */
  lemma {:induction false} OnlyCommitsChangeTags(env: Env, cfg: Config, m: Machine, steps: seq<Step>)
    requires ValidMachine(cfg, m) && forall i | 0 <= i < |steps| :: !steps[i].DoCommit?
    ensures SameTags(m.core, Run(env, cfg, m, steps).0.core)
    decreases |steps|
  {
    if |steps| > 0 {
      var next := Next(env, cfg, m, steps[0]).0;
      assert !steps[0].DoCommit?;
      if steps[0].DoValidate? { ValidateKeepsTags(env, cfg, m, steps[0].request); }
      OnlyCommitsChangeTags(env, cfg, next, steps[1..]);
    }
  }
}
