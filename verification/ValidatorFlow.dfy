/** How tags flow from instruction to instruction: the operands the policy sees are those left by the last
    instructions that wrote them, told from the decoded instructions and the results alone. */
module ValidatorFlow {
  import opened Wrappers
  import opened RiscvIsa
  import opened TagBus
  import opened TagBusTheorems
  import opened DmhcRuleCache
  import opened ValidatorSpec
  import opened ValidatorMeaning

  /** An instruction that was validated and committed, and its results. */
  datatype Executed = Executed(q: Request, res: Results)

  /** The state after a list of such instructions. */
  function After(env: Env, c: Core, history: seq<Executed>): (c': Core)
    requires ValidCore(c)
    ensures ValidCore(c')
  {
    if history == [] then c
    else
      var last := history[|history| - 1];
      Apply(env, Gather(env, After(env, c, history[..|history| - 1]), last.q), last.res).0
  }

  // ---- what the instructions and the results say ----

  predicate WritesRegister(env: Env, x: Executed, r: nat) {
    r != 0 && env.decode(x.q.insn).rd == Some(r) && x.res.rdResult
  }

  predicate WritesCsr(env: Env, x: Executed, s: nat) {
    env.decode(x.q.insn).has_csr_store && env.decode(x.q.insn).imm == Some(s) && x.res.csrResult
  }

  predicate Stores(env: Env, x: Executed) {
    env.decode(x.q.insn).has_store && x.res.rdResult
  }

  function PcTag(init: Tag, history: seq<Executed>): Tag {
    if history == [] then init
    else
      var last := history[|history| - 1];
      if last.res.pcResult then last.res.pc else PcTag(init, history[..|history| - 1])
  }

  /** The result of the last instruction that wrote register `r`, its first tag if there is none. */
  function RegisterTag(env: Env, init: seq<Tag>, history: seq<Executed>, r: nat): Tag
    requires r < |init|
  {
    if history == [] then init[r]
    else
      var last := history[|history| - 1];
      if WritesRegister(env, last, r) then last.res.rd else RegisterTag(env, init, history[..|history| - 1], r)
  }

  function CsrTag(env: Env, init: seq<Tag>, history: seq<Executed>, s: nat): Tag
    requires s < |init|
  {
    if history == [] then init[s]
    else
      var last := history[|history| - 1];
      if WritesCsr(env, last, s) then last.res.csr else CsrTag(env, init, history[..|history| - 1], s)
  }

  /** An address that was given and that no load or store has used yet. */
  function WaitingAddress(env: Env, c: Core, history: seq<Executed>): Option<Address> {
    if history == [] then if c.has_insn_mem_addr then Some(c.mem_addr) else None
    else
      var last := history[|history| - 1];
      if env.decode(last.q.insn).has_load || env.decode(last.q.insn).has_store then None
      else if last.q.mem.Some? then last.q.mem
      else WaitingAddress(env, c, history[..|history| - 1])
  }

  /** The address of a load or store after the history: the one given with it, else a waiting one, else the base
      register plus the immediate, modulo 2^64. */
  function EffectiveAddress(env: Env, c: Core, history: seq<Executed>, q: Request): Address {
    var imm := env.decode(q.insn).imm;
    var waiting := WaitingAddress(env, c, history);
    if q.mem.Some? then q.mem.value
    else if waiting.Some? then waiting.value
    else (q.base + if imm.Some? then imm.value else 0) % ADDRESS_SPACE
  }

  /** Writing the data tag of `a` changes what an access to `b` reads. */
  ghost predicate Reaches(bus: Bus, a: Address, b: Address, kind: Access)
    requires DisjointRegions(bus)
  {
    exists r: nat :: r < |bus| && InRegion(bus[r], a) && SharesTag(bus, r, a, Data, b, kind)
  }

  /** The result of the last store that reaches `b`, its first tag if there is none. */
  ghost function MemoryTag(env: Env, c: Core, history: seq<Executed>, b: Address, kind: Access): Option<Tag>
    requires ValidCore(c) && DisjointRegions(c.bus)
  {
    if history == [] then Read(c.bus, b, kind)
    else
      var before, last := history[..|history| - 1], history[|history| - 1];
      if Stores(env, last) && Reaches(c.bus, env.fix(EffectiveAddress(env, c, before, last.q)), b, kind)
      then Some(last.res.rd)
      else MemoryTag(env, c, before, b, kind)
  }

  // ---- one instruction ----

  /** The address is modulo 2^64. */
  lemma AddImmediateIs(base: Address, imm: Option<int>)
    requires imm.Some? ==> -WORD32 / 2 <= imm.value < WORD32 / 2
    ensures AddImmediate(base, imm) == (base + if imm.Some? then imm.value else 0) % ADDRESS_SPACE
  {}

  lemma Unsigned32Is(v: Option<int>)
    requires v.Some? ==> -WORD32 / 2 <= v.value < WORD32 / 2
    ensures Unsigned32(v) == (if v.Some? then v.value else -1) % WORD32
  {}

  /** What gathering leaves for the commit; absent numbers are -1 as unsigned 32-bit numbers. */
  lemma PendingFor(env: Env, c: Core, q: Request)
    requires ValidCore(c)
    ensures var d, g := env.decode(q.insn), Gather(env, c, q);
            && g.has_pending_RD == d.rd.Some? && (d.rd.Some? ==> g.pending_RD == d.rd.value)
            && g.has_pending_CSR == d.has_csr_store && (d.has_csr_store ==> Some(g.pending_CSR) == d.imm)
            && g.has_pending_mem == d.has_store
            && (d.rd.None? ==> g.pending_RD == 0xFFFF_FFFF)
            && g.pending_CSR == (if d.imm.Some? then d.imm.value else -1) % WORD32
  {
    Unsigned32Is(env.decode(q.insn).imm);
  }

  /** The address in terms of the state before. */
  function AddressFor(env: Env, c: Core, q: Request): Address {
    var imm := env.decode(q.insn).imm;
    if q.mem.Some? then q.mem.value
    else if c.has_insn_mem_addr then c.mem_addr
    else (q.base + if imm.Some? then imm.value else 0) % ADDRESS_SPACE
  }

  /** What gathering does to the address. */
  lemma AddressGathered(env: Env, c: Core, q: Request)
    requires ValidCore(c)
    ensures var d, g := env.decode(q.insn), Gather(env, c, q);
            && (d.has_load || d.has_store ==> g.mem_addr == AddressFor(env, c, q) && !g.has_insn_mem_addr)
            && (!d.has_load && !d.has_store ==>
                  if q.mem.Some? then g.has_insn_mem_addr && g.mem_addr == q.mem.value
                  else g.has_insn_mem_addr == c.has_insn_mem_addr && g.mem_addr == c.mem_addr)
  {
    AddressBefore(env, c, q);
    CodeKeepsAddress(env, BeforeCode(env, c, q), q.pc);
  }

  lemma CodeKeepsAddress(env: Env, c: Core, pc: Address)
    requires ValidCore(c)
    ensures var g := WithCode(env, c, pc); g.mem_addr == c.mem_addr && g.has_insn_mem_addr == c.has_insn_mem_addr
  {}

  lemma AddressBefore(env: Env, c: Core, q: Request)
    requires ValidCore(c)
    ensures var d, g := env.decode(q.insn), BeforeCode(env, c, q);
            && (d.has_load || d.has_store ==> g.mem_addr == AddressFor(env, c, q) && !g.has_insn_mem_addr)
            && (!d.has_load && !d.has_store ==>
                  if q.mem.Some? then g.has_insn_mem_addr && g.mem_addr == q.mem.value
                  else g.has_insn_mem_addr == c.has_insn_mem_addr && g.mem_addr == c.mem_addr)
  {
    AddImmediateIs(q.base, env.decode(q.insn).imm);
  }

  lemma ApplyKeepsAddress(env: Env, c: Core, res: Results)
    requires ValidCore(c)
    ensures var c' := Apply(env, c, res).0;
            c'.has_insn_mem_addr == c.has_insn_mem_addr && c'.mem_addr == c.mem_addr
  {
    var c1 := WithRegister(WithPc(c, res), res);
    assert c1.has_insn_mem_addr == c.has_insn_mem_addr && c1.mem_addr == c.mem_addr;
    var c2 := WithStore(env, c1, res);
    assert c2.has_insn_mem_addr == c.has_insn_mem_addr && c2.mem_addr == c.mem_addr;
  }

  /** The address that waits is the one the state keeps. */
  lemma {:induction false} WaitingIs(env: Env, c: Core, history: seq<Executed>)
    requires ValidCore(c)
    ensures var c' := After(env, c, history);
            WaitingAddress(env, c, history) == if c'.has_insn_mem_addr then Some(c'.mem_addr) else None
  {
    if history != [] {
      var before, last := history[..|history| - 1], history[|history| - 1];
      WaitingIs(env, c, before);
      AddressGathered(env, After(env, c, before), last.q);
      ApplyKeepsAddress(env, Gather(env, After(env, c, before), last.q), last.res);
    }
  }

  // ---- the tags after a list of instructions ----

  /** Registers, CSRs and the pc hold what the last instructions that wrote them gave them. */
  lemma {:induction false} RegistersFlow(env: Env, c: Core, history: seq<Executed>, r: nat, s: nat)
    requires ValidCore(c) && r < 32 && s < CSR_COUNT
    ensures var c' := After(env, c, history);
            && c'.pc_tag == PcTag(c.pc_tag, history)
            && c'.ireg_tags[r] == RegisterTag(env, c.ireg_tags, history, r)
            && c'.csr_tags[s] == CsrTag(env, c.csr_tags, history, s)
  {
    if history != [] {
      var before, last := history[..|history| - 1], history[|history| - 1];
      var g := Gather(env, After(env, c, before), last.q);
      RegistersFlow(env, c, before, r, s);
      PendingFor(env, After(env, c, before), last.q);
      GatherKeepsTags(env, After(env, c, before), last.q);
      RegistersCommitted(env, g, last.res, r, s);
    }
  }

  // ---- memory ----

  /** One committed instruction: a store changes what the accesses it reaches read; nothing else does. */
  lemma MemoryStep(env: Env, c: Core, x: Executed, b: Address, kind: Access)
    requires ValidCore(c) && DisjointRegions(c.bus)
    ensures var c' := Apply(env, Gather(env, c, x.q), x.res).0;
            && SameRegions(c.bus, c'.bus) && DisjointRegions(c'.bus)
            && Read(c'.bus, b, kind)
               == if Stores(env, x) && Reaches(c.bus, env.fix(AddressFor(env, c, x.q)), b, kind) then Some(x.res.rd)
                  else Read(c.bus, b, kind)
  {
    var g := Gather(env, c, x.q);
    GatherKeepsTags(env, c, x.q);
    PendingFor(env, c, x.q);
    FieldsApplied(env, g, x.res);
    if Stores(env, x) {
      AddressGathered(env, c, x.q);
      StoredAt(c.bus, env.fix(g.mem_addr), x.res.rd, b, kind);
    } else {
      SameIsSame(c.bus);
    }
  }

  lemma SameIsSame(bus: Bus)
    ensures SameRegions(bus, bus)
  {}

  /** A data tag written anywhere, mapped or not. */
  lemma StoredAt(bus: Bus, a: Address, tag: Tag, b: Address, kind: Access)
    requires DisjointRegions(bus)
    ensures var bus' := Write(bus, a, Data, tag);
            && SameRegions(bus, bus') && DisjointRegions(bus')
            && Read(bus', b, kind) == if Reaches(bus, a, b, kind) then Some(tag) else Read(bus, b, kind)
  {
    WriteKeepsRegions(bus, a, Data, tag);
    if r: nat :| r < |bus| && InRegion(bus[r], a) {
      ReadAfterWrite(bus, r, a, Data, b, kind, tag);
      ReachesFrom(bus, r, a, b, kind);
    } else {
      WriteNowhere(bus, a, Data, tag);
    }
  }

  lemma ReachesFrom(bus: Bus, r: nat, a: Address, b: Address, kind: Access)
    requires DisjointRegions(bus) && r < |bus| && InRegion(bus[r], a)
    ensures Reaches(bus, a, b, kind) <==> SharesTag(bus, r, a, Data, b, kind)
  {
    if Reaches(bus, a, b, kind) {
      var q: nat :| q < |bus| && InRegion(bus[q], a) && SharesTag(bus, q, a, Data, b, kind);
      OneRegion(bus, r, q, a);
    }
  }

  /** The address of no region, which is out of range. */
  predicate Unmapped(bus: Bus, a: Address) {
    forall r | 0 <= r < |bus| :: !InRegion(bus[r], a)
  }

  lemma WriteNowhere(bus: Bus, a: Address, kind: Access, tag: Tag)
    requires DisjointRegions(bus) && Unmapped(bus, a)
    ensures Write(bus, a, kind, tag) == bus && Read(bus, a, kind) == None
  {
    var i := LowerBound(bus, Key(a));
    if i < |bus| { assert !InRegion(bus[i], a); }
  }

  lemma MappedReads(bus: Bus, r: nat, a: Address, kind: Access)
    requires DisjointRegions(bus) && r < |bus| && InRegion(bus[r], a)
    ensures Read(bus, a, kind).Some?
  {
    ReadInRegion(bus, r, a, kind);
  }

  /** `commit` asks to halt exactly after a store whose address is in no region. */
  lemma HaltsIff(env: Env, c: Core, x: Executed)
    requires ValidCore(c) && DisjointRegions(c.bus)
    ensures Apply(env, Gather(env, c, x.q), x.res).1
            <==> Stores(env, x) && Unmapped(c.bus, env.fix(AddressFor(env, c, x.q)))
  {
    var a := env.fix(AddressFor(env, c, x.q));
    GatherKeepsTags(env, c, x.q);
    PendingFor(env, c, x.q);
    AddressGathered(env, c, x.q);
    if Unmapped(c.bus, a) {
      WriteNowhere(c.bus, a, Data, 0);
    } else {
      var r: nat :| r < |c.bus| && InRegion(c.bus[r], a);
      MappedReads(c.bus, r, a, Data);
    }
  }

  lemma SameReach(bus: Bus, bus': Bus, a: Address, b: Address, kind: Access)
    requires DisjointRegions(bus) && DisjointRegions(bus') && SameRegions(bus, bus')
    ensures Reaches(bus, a, b, kind) <==> Reaches(bus', a, b, kind)
  {
    forall r: nat | r < |bus| && InRegion(bus[r], a)
      ensures SharesTag(bus, r, a, Data, b, kind) <==> SharesTag(bus', r, a, Data, b, kind)
    {}
    assert forall r: nat | r < |bus| :: InRegion(bus[r], a) <==> InRegion(bus'[r], a);
  }

  lemma SameRegionsChain(bus: Bus, bus': Bus, bus'': Bus)
    requires SameRegions(bus, bus') && SameRegions(bus', bus'')
    ensures SameRegions(bus, bus'')
  {}

  /** The address of an access after a history, read off the history or off the state it leaves. */
  lemma AddressAfter(env: Env, c: Core, history: seq<Executed>, q: Request)
    requires ValidCore(c)
    ensures EffectiveAddress(env, c, history, q) == AddressFor(env, After(env, c, history), q)
  {
    WaitingIs(env, c, history);
  }

  lemma AfterLast(env: Env, c: Core, before: seq<Executed>, last: Executed)
    requires ValidCore(c)
    ensures After(env, c, before + [last]) == Apply(env, Gather(env, After(env, c, before), last.q), last.res).0
  {
    assert (before + [last])[..|before + [last]| - 1] == before;
  }

  lemma MemoryTagLast(env: Env, c: Core, before: seq<Executed>, last: Executed, b: Address, kind: Access)
    requires ValidCore(c) && DisjointRegions(c.bus)
    ensures MemoryTag(env, c, before + [last], b, kind)
            == if Stores(env, last) && Reaches(c.bus, env.fix(EffectiveAddress(env, c, before, last.q)), b, kind)
               then Some(last.res.rd)
               else MemoryTag(env, c, before, b, kind)
  {
    assert (before + [last])[..|before + [last]| - 1] == before;
  }

  /** Memory after a list of instructions. */
  ghost predicate MemoryIs(env: Env, c: Core, history: seq<Executed>, c': Core, b: Address, kind: Access)
    requires ValidCore(c) && DisjointRegions(c.bus)
  {
    && SameRegions(c.bus, c'.bus) && DisjointRegions(c'.bus)
    && Read(c'.bus, b, kind) == MemoryTag(env, c, history, b, kind)
  }

  lemma MemoryGrows(env: Env, c: Core, before: seq<Executed>, last: Executed, c1: Core, b: Address, kind: Access)
    requires ValidCore(c) && DisjointRegions(c.bus) && c1 == After(env, c, before)
    requires MemoryIs(env, c, before, c1, b, kind)
    ensures MemoryIs(env, c, before + [last], After(env, c, before + [last]), b, kind)
  {
    AfterLast(env, c, before, last);
    MemoryStep(env, c1, last, b, kind);
    AddressAfter(env, c, before, last.q);
    SameReach(c.bus, c1.bus, env.fix(AddressFor(env, c1, last.q)), b, kind);
    SameRegionsChain(c.bus, c1.bus, Apply(env, Gather(env, c1, last.q), last.res).0.bus);
    MemoryTagLast(env, c, before, last, b, kind);
  }

  /** Memory holds what the last stores that reached it gave it. */
  lemma {:induction false} MemoryFlows(env: Env, c: Core, history: seq<Executed>, b: Address, kind: Access)
    requires ValidCore(c) && DisjointRegions(c.bus)
    ensures MemoryIs(env, c, history, After(env, c, history), b, kind)
  {
    if history == [] {
      SameIsSame(c.bus);
    } else {
      var before, last := history[..|history| - 1], history[|history| - 1];
      assert before + [last] == history;
      MemoryFlows(env, c, before, b, kind);
      MemoryGrows(env, c, before, last, After(env, c, before), b, kind);
    }
  }

  // ---- the operands of the next instruction ----

  /** A missing tag ends the run exactly when a load or store reads a mapped address that has the bad tag. */
  lemma FatalIff(env: Env, c: Core, q: Request)
    requires ValidCore(c)
    ensures var d := env.decode(q.insn);
            Fatal(env, c, q) <==> (d.has_load || d.has_store)
                                  && Read(c.bus, env.fix(AddressFor(env, c, q)), Data) == Some(BAD_TAG_VALUE)
  {
    AddressBefore(env, c, q);
  }

  /** The context the policy sees: the address of the instruction, and of the memory it accesses. */
  lemma ContextFor(env: Env, c: Core, q: Request)
    requires ValidCore(c) && !Fatal(env, c, q)
    ensures var d := env.decode(q.insn);
            Gather(env, c, q).ctx == Context(q.pc, if d.has_load || d.has_store then AddressFor(env, c, q) else 0)
  {
    AddressBefore(env, c, q);
  }

  /** The verdict of `validate`: a missing tag, or what the cache knows, or what the policy says for the gathered
      context and operands; and the results and flags it leaves. */
  lemma VerdictIs(env: Env, cfg: Config, m: Machine, q: Request)
    requires ValidMachine(cfg, m)
    ensures var c, v := Gather(env, m.core, q), Validate(env, cfg, m, q);
            var hit, outcome := HitOf(cfg, m.cache, c.ops), env.policy(c.ctx, c.ops);
            && (v.1 == TagMiss <==> Fatal(env, m.core, q))
            && (v.1 == TagMiss ==>
                  !v.0.failed && v.0.res == Results(env.empty, env.empty, env.empty, false, false, false))
            && (!Fatal(env, m.core, q) ==>
                  && (v.1 == Permitted <==> hit.Some? || outcome.code == 1)
                  && (v.0.failed <==> v.1 == Violation)
                  && v.0.res == (if hit.Some? then hit.value else outcome.res)
                  && (v.0.cached <==> hit.Some? || outcome.cached))
  {
    DecideKeepsCore(env, cfg, Ready(env, m, q));
  }

  /** What a commit leaves besides the tags: the operands and flags stay, and the results too, unless a cacheable rule
      is already in the cache, whose results overwrite them. */
  lemma CommitLeaves(env: Env, cfg: Config, m: Machine)
    requires ValidMachine(cfg, m)
    ensures var hit, m' := HitOf(cfg, m.cache, m.core.ops), Commit(env, cfg, m).0;
            && m'.core.ops == m.core.ops && m'.cached == m.cached && m'.failed == m.failed
            && m'.res == if m.cached && hit.Some? then hit.value else m.res
  {}

  /** The operands of one instruction in terms of the state before it. */
  lemma OperandsFor(env: Env, c: Core, q: Request)
    requires ValidCore(c) && !Fatal(env, c, q)
    ensures var d, ops := env.decode(q.insn), Gather(env, c, q).ops;
            && ops.pc == c.pc_tag && ops.ci == OrBad(Read(c.bus, env.fix(q.pc), Insn))
            && ops.op1 == (if d.rs1.Some? then c.ireg_tags[d.rs1.value] else BAD_TAG_VALUE)
            && ops.op2 == (if d.rs2.Some? then c.ireg_tags[d.rs2.value]
                           else if d.has_csr_load || d.has_csr_store then c.csr_tags[d.imm.value]
                           else BAD_TAG_VALUE)
            && ops.op3 == (if d.rs3.Some? then c.ireg_tags[d.rs3.value] else BAD_TAG_VALUE)
            && ops.mem == (if d.has_load || d.has_store then OrBad(Read(c.bus, env.fix(AddressFor(env, c, q)), Data))
                           else BAD_TAG_VALUE)
  {
    AddressBefore(env, c, q);
  }

  /** What the history left in a source register, in a CSR and in memory; the bad tag for what is absent. */
  function RegisterSource(env: Env, c: Core, history: seq<Executed>, r: Option<Register>): Tag
    requires ValidCore(c)
  {
    if r.Some? then RegisterTag(env, c.ireg_tags, history, r.value) else BAD_TAG_VALUE
  }

  function SecondSource(env: Env, c: Core, history: seq<Executed>, d: Instruction): Tag
    requires ValidCore(c)
  {
    if d.rs2.Some? then RegisterTag(env, c.ireg_tags, history, d.rs2.value)
    else if d.has_csr_load || d.has_csr_store then CsrTag(env, c.csr_tags, history, d.imm.value)
    else BAD_TAG_VALUE
  }

  ghost function MemorySource(env: Env, c: Core, history: seq<Executed>, b: Address, kind: Access): Tag
    requires ValidCore(c) && DisjointRegions(c.bus)
  {
    OrBad(MemoryTag(env, c, history, b, kind))
  }

  lemma RegisterSourceIs(env: Env, c: Core, history: seq<Executed>, r: Option<Register>)
    requires ValidCore(c)
    ensures RegisterSource(env, c, history, r)
            == if r.Some? then After(env, c, history).ireg_tags[r.value] else BAD_TAG_VALUE
  {
    if r.Some? { RegistersFlow(env, c, history, r.value, 0); }
  }

  lemma SecondSourceIs(env: Env, c: Core, history: seq<Executed>, d: Instruction)
    requires ValidCore(c)
    ensures SecondSource(env, c, history, d)
            == if d.rs2.Some? then After(env, c, history).ireg_tags[d.rs2.value]
               else if d.has_csr_load || d.has_csr_store then After(env, c, history).csr_tags[d.imm.value]
               else BAD_TAG_VALUE
  {
    if d.rs2.Some? {
      RegistersFlow(env, c, history, d.rs2.value, 0);
    } else if d.has_csr_load || d.has_csr_store {
      RegistersFlow(env, c, history, 0, d.imm.value);
    }
  }

  /** The register, CSR and pc operands that the policy sees are what the last instructions that wrote them left. */
  lemma SourcesFlow(env: Env, c: Core, history: seq<Executed>, q: Request)
    requires ValidCore(c) && !Fatal(env, After(env, c, history), q)
    ensures var d, ops := env.decode(q.insn), Gather(env, After(env, c, history), q).ops;
            && ops.pc == PcTag(c.pc_tag, history)
            && ops.op1 == RegisterSource(env, c, history, d.rs1)
            && ops.op2 == SecondSource(env, c, history, d)
            && ops.op3 == RegisterSource(env, c, history, d.rs3)
  {
    var d := env.decode(q.insn);
    OperandsFor(env, After(env, c, history), q);
    RegistersFlow(env, c, history, 0, 0);
    RegisterSourceIs(env, c, history, d.rs1);
    SecondSourceIs(env, c, history, d);
    RegisterSourceIs(env, c, history, d.rs3);
  }

  /** So are the tags of the instruction's own word and of the memory it accesses. */
  lemma MemorySourcesFlow(env: Env, c: Core, history: seq<Executed>, q: Request)
    requires ValidCore(c) && DisjointRegions(c.bus) && !Fatal(env, After(env, c, history), q)
    ensures var d, ops := env.decode(q.insn), Gather(env, After(env, c, history), q).ops;
            && ops.ci == MemorySource(env, c, history, env.fix(q.pc), Insn)
            && ops.mem == (if d.has_load || d.has_store
                           then MemorySource(env, c, history, env.fix(EffectiveAddress(env, c, history, q)), Data)
                           else BAD_TAG_VALUE)
  {
    OperandsFor(env, After(env, c, history), q);
    WaitingIs(env, c, history);
    MemoryFlows(env, c, history, env.fix(q.pc), Insn);
    MemoryFlows(env, c, history, env.fix(EffectiveAddress(env, c, history, q)), Data);
  }

  // ---- runs of the validator ----

  /** Validate and commit each instruction. */
  function StepsOf(requests: seq<Request>): seq<Step> {
    if requests == [] then [] else [DoValidate(requests[0]), DoCommit] + StepsOf(requests[1..])
  }

  /** What the run executed: the results are those that the policy or the cache gave. */
  function HistoryOf(env: Env, cfg: Config, m: Machine, requests: seq<Request>): seq<Executed>
    requires ValidMachine(cfg, m)
    decreases |requests|
  {
    if requests == [] then []
    else
      var v := Validate(env, cfg, m, requests[0]).0;
      [Executed(requests[0], v.res)] + HistoryOf(env, cfg, Commit(env, cfg, v).0, requests[1..])
  }

  lemma {:induction false} AfterFirst(env: Env, c: Core, x: Executed, rest: seq<Executed>)
    requires ValidCore(c)
    ensures After(env, c, [x] + rest) == After(env, Apply(env, Gather(env, c, x.q), x.res).0, rest)
  {
    var history := [x] + rest;
    if rest == [] {
      assert history[..0] == [];
    } else {
      assert history[..|history| - 1] == [x] + rest[..|rest| - 1];
      AfterFirst(env, c, x, rest[..|rest| - 1]);
    }
  }

  lemma PairIs(env: Env, cfg: Config, m: Machine, q: Request)
    requires ValidMachine(cfg, m)
    ensures var v := Validate(env, cfg, m, q).0;
            Commit(env, cfg, v).0.core == Apply(env, Gather(env, m.core, q), v.res).0
  {
    DecideKeepsCore(env, cfg, Ready(env, m, q));
  }

  lemma RunPair(env: Env, cfg: Config, m: Machine, q: Request, rest: seq<Step>)
    requires ValidMachine(cfg, m)
    ensures Run(env, cfg, m, [DoValidate(q), DoCommit] + rest).0
            == Run(env, cfg, Commit(env, cfg, Validate(env, cfg, m, q).0).0, rest).0
  {
    var steps := [DoValidate(q), DoCommit] + rest;
    assert steps[1..] == [DoCommit] + rest && steps[1..][1..] == rest;
  }

  /** A run of the validator, with any cache, leaves the tags of its history. */
  lemma {:induction false} RunIsHistory(env: Env, cfg: Config, m: Machine, requests: seq<Request>)
    requires ValidMachine(cfg, m)
    ensures Run(env, cfg, m, StepsOf(requests)).0.core == After(env, m.core, HistoryOf(env, cfg, m, requests))
    decreases |requests|
  {
    if requests != [] {
      var q := requests[0];
      var v := Validate(env, cfg, m, q).0;
      var next := Commit(env, cfg, v).0;
      RunPair(env, cfg, m, q, StepsOf(requests[1..]));
      PairIs(env, cfg, m, q);
      RunIsHistory(env, cfg, next, requests[1..]);
      AfterFirst(env, m.core, Executed(q, v.res), HistoryOf(env, cfg, next, requests[1..]));
    }
  }

  /** A run that decodes no store leaves memory as it is. */
  lemma {:induction false} NoStoreKeepsMemory(env: Env, cfg: Config, m: Machine, steps: seq<Step>)
    requires ValidMachine(cfg, m) && !m.core.has_pending_mem
    requires forall i | 0 <= i < |steps| && steps[i].DoValidate? :: !env.decode(steps[i].request.insn).has_store
    ensures Run(env, cfg, m, steps).0.core.bus == m.core.bus
    decreases |steps|
  {
    if |steps| > 0 {
      StepKeepsMemory(env, cfg, m, steps[0]);
      NoStoreKeepsMemory(env, cfg, Next(env, cfg, m, steps[0]).0, steps[1..]);
    }
  }

  lemma StepKeepsMemory(env: Env, cfg: Config, m: Machine, s: Step)
    requires ValidMachine(cfg, m) && !m.core.has_pending_mem
    requires s.DoValidate? ==> !env.decode(s.request.insn).has_store
    ensures var c := Next(env, cfg, m, s).0.core; c.bus == m.core.bus && !c.has_pending_mem
  {
    if s.DoValidate? {
      ValidateKeepsTags(env, cfg, m, s.request);
      DecideKeepsCore(env, cfg, Ready(env, m, s.request));
      PendingFor(env, m.core, s.request);
    } else if s.DoCommit? {
      FieldsApplied(env, m.core, m.res);
      PendingStays(env, m.core, m.res);
    }
  }

  lemma PendingStays(env: Env, c: Core, res: Results)
    requires ValidCore(c)
    ensures Apply(env, c, res).0.has_pending_mem == c.has_pending_mem
  {}
}
