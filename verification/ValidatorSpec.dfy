/** What one call of the RISC-V validator does to its state, as functions on a value
    (validator/riscv/rv_validator.cc). Decoding, address fixing and the policy are parameters. */
module ValidatorSpec {
  import opened Wrappers
  import opened RiscvIsa
  import opened TagBus
  import opened RuleCaches
  import opened DmhcRuleCache

  const POLICY_SUCCESS: int := 1

  type Register = r: nat | r < 32
  const CSR_COUNT: nat := 0x1000
  const WORD32: int := 0x1_0000_0000

  /** `decoded_instruction_t`, as far as the validator looks at it. */
  datatype Decoded = Decoded(
    rd: Option<Register>, rs1: Option<Register>, rs2: Option<Register>, rs3: Option<Register>, imm: Option<int>,
    has_load: bool, has_store: bool, has_csr_load: bool, has_csr_store: bool)

  /** What the decoder guarantees: loads and stores have a base register, CSR instructions carry the
      CSR number, and immediates are 32-bit numbers. */
  predicate ValidDecoded(d: Decoded) {
    && (d.has_load || d.has_store ==> d.rs1.Some?)
    && (d.has_csr_load || d.has_csr_store ==> d.imm.Some? && 0 <= d.imm.value < CSR_COUNT)
    && (d.imm.Some? ==> -WORD32 / 2 <= d.imm.value < WORD32 / 2)
  }

  type Instruction = d: Decoded | ValidDecoded(d)
    witness Decoded(None, None, None, None, None, false, false, false, false)

  /** The part of `context_t` that the policy can read. */
  datatype Context = Context(epc: Address, bad_addr: Address)

  /** What `eval_policy` returns and leaves in `res` and `ctx.cached`. */
  datatype Outcome = Outcome(code: int, res: Results, cached: bool)

  /** `empty` is the tag of the empty metadata set. */
  datatype Env = Env(
    decode: nat -> Instruction,
    fix: Address -> Address,
    policy: (Context, Operands) -> Outcome,
    empty: Tag)

  // ---- the pluggable rule cache ----

  datatype Cache = NoCache | Ideal(table: Table) | Limited(finite: Finite) | Multi(wrapper: Wrapper)

  ghost predicate ValidCache(cfg: Config, c: Cache) {
    && (c.Limited? ==> ValidFinite(c.finite))
    && (c.Multi? ==> ValidWrapper(cfg, c.wrapper))
  }

  function InTable(table: Table, ops: Operands): Option<Results> {
    if ops in table then Some(table[ops]) else None
  }

  /** The result of `allow`, if it finds one. */
  function HitOf(cfg: Config, c: Cache, ops: Operands): Option<Results>
    requires ValidCache(cfg, c)
  {
    match c
    case NoCache => None
    case Ideal(table) => InTable(table, ops)
    case Limited(f) => InTable(f.table, ops)
    case Multi(w) => Hit(cfg, w, ops)
  }

  /** The cache after `allow`. */
  function AfterAllow(c: Cache, ops: Operands): Cache {
    if c.Multi? then Multi(Allowed(c.wrapper, ops)) else c
  }

  function AfterInstall(cfg: Config, c: Cache, ops: Operands, res: Results): (c': Cache)
    requires ValidCache(cfg, c)
    ensures ValidCache(cfg, c')
  {
    match c
    case NoCache => NoCache
    case Ideal(table) => Ideal(table[ops := res])
    case Limited(f) => Limited(InstallFinite(f, ops, res))
    case Multi(w) => Multi(Installed(cfg, w, res))
  }

  function AfterFlush(cfg: Config, c: Cache): (c': Cache)
    requires ValidCache(cfg, c)
    ensures ValidCache(cfg, c')
  {
    match c
    case NoCache => NoCache
    case Ideal(_) => Ideal(map[])
    case Limited(f) => Limited(FlushFinite(f))
    case Multi(w) => Multi(Flushed(cfg, w))
  }

  /** The multi-hash cache has ended the process. */
  predicate Exited(c: Cache) {
    c.Multi? && c.wrapper.exit != 0
  }

  // ---- the state ----

  /** Everything except the results and the cache. */
  datatype Core = Core(
    pc_tag: Tag, ireg_tags: seq<Tag>, csr_tags: seq<Tag>, bus: Bus,
    ctx: Context, ops: Operands,
    pending_RD: nat, pending_CSR: nat,
    has_pending_RD: bool, has_pending_mem: bool, has_pending_CSR: bool,
    mem_addr: Address, has_insn_mem_addr: bool)

  predicate ValidCore(c: Core) {
    && |c.ireg_tags| == 32 && |c.csr_tags| == CSR_COUNT && ValidBus(c.bus)
    && (c.has_pending_RD ==> c.pending_RD < 32)
    && (c.has_pending_CSR ==> c.pending_CSR < CSR_COUNT)
  }

  /** `cached` is `ctx.cached`. */
  datatype Machine = Machine(core: Core, res: Results, cached: bool, failed: bool, cache: Cache)

  ghost predicate ValidMachine(cfg: Config, m: Machine) {
    ValidCore(m.core) && ValidCache(cfg, m.cache)
  }

  // ---- gathering operands ----

  /** `uint32_t` from `int`, with -1 for a missing value. */
  function Unsigned32(v: Option<int>): (n: nat)
    requires v.Some? ==> -WORD32 / 2 <= v.value < WORD32 / 2
    ensures v.Some? && v.value >= 0 ==> n == v.value
  {
    var i := if v.Some? then v.value else -1;
    if i < 0 then i + WORD32 else i
  }

  /** 64-bit `base + imm`. */
  function AddImmediate(base: Address, imm: Option<int>): Address
    requires imm.Some? ==> -WORD32 / 2 <= imm.value < WORD32 / 2
  {
    var sum := if imm.Some? then base + imm.value else base;
    if sum < 0 then sum + ADDRESS_SPACE else if sum >= ADDRESS_SPACE then sum - ADDRESS_SPACE else sum
  }

  function TagOfRegister(c: Core, r: Option<Register>): Tag
    requires ValidCore(c)
  {
    if r.Some? then c.ireg_tags[r.value] else BAD_TAG_VALUE
  }

  function OrBad(tag: Option<Tag>): Tag {
    if tag.Some? then tag.value else BAD_TAG_VALUE
  }

  /** `op2`: a register beats a CSR. */
  function SecondOperand(c: Core, d: Instruction): Tag
    requires ValidCore(c)
  {
    if d.rs2.Some? then c.ireg_tags[d.rs2.value]
    else if d.has_csr_load || d.has_csr_store then c.csr_tags[d.imm.value]
    else BAD_TAG_VALUE
  }

  /** The arguments of one `validate` call: `mem` is the third argument of the longer form, `base` what
      the simulator's register reader returns for the base register. */
  datatype Request = Request(pc: Address, insn: nat, mem: Option<Address>, base: Address)

  function UsesMemory(d: Decoded): bool {
    d.has_load || d.has_store
  }

  /** The longer `validate` stores its address before it calls the shorter one. */
  function Given(c: Core, mem: Option<Address>): (c': Core)
    ensures ValidCore(c) ==> ValidCore(c')
  {
    if mem.Some? then c.(has_insn_mem_addr := true, mem_addr := mem.value) else c
  }

  /** `setup_validation` */
  function Cleared(c: Core): (c': Core)
    ensures ValidCore(c) ==> ValidCore(c')
  {
    c.(ctx := Context(0, 0), ops := ZERO_OPERANDS)
  }

  function RegisterOperands(c: Core, d: Instruction): Operands
    requires ValidCore(c)
  {
    Operands(BAD_TAG_VALUE, BAD_TAG_VALUE, TagOfRegister(c, d.rs1), SecondOperand(c, d), TagOfRegister(c, d.rs3),
             BAD_TAG_VALUE)
  }

  /** The register and CSR operands and the pending writes. */
  function WithOperands(c: Core, d: Instruction): (c': Core)
    requires ValidCore(c)
    ensures ValidCore(c')
  {
    c.(ops := RegisterOperands(c, d),
       pending_RD := if d.rd.Some? then d.rd.value else WORD32 - 1, pending_CSR := Unsigned32(d.imm),
       has_pending_RD := d.rd.Some?, has_pending_mem := d.has_store, has_pending_CSR := d.has_csr_store)
  }

  function MemoryAddress(c: Core, d: Instruction, base: Address): Address {
    if c.has_insn_mem_addr then c.mem_addr else AddImmediate(base, d.imm)
  }

  /** The memory operand, if the instruction accesses memory; an address out of range leaves it bad. */
  function WithMemory(env: Env, c: Core, d: Instruction, base: Address): (c': Core)
    requires ValidCore(c)
    ensures ValidCore(c')
  {
    if !UsesMemory(d) then c
    else
      var addr := MemoryAddress(c, d, base);
      var tag := Read(c.bus, env.fix(addr), Data);
      c.(mem_addr := addr, has_insn_mem_addr := false, ctx := c.ctx.(bad_addr := addr),
         ops := if tag.Some? then c.ops.(mem := tag.value) else c.ops)
  }

  /** The instruction's own tag and the pc tag. */
  function WithCode(env: Env, c: Core, pc: Address): (c': Core)
    requires ValidCore(c)
    ensures ValidCore(c')
  {
    c.(ctx := c.ctx.(epc := pc), ops := c.ops.(ci := OrBad(Read(c.bus, env.fix(pc), Insn)), pc := c.pc_tag))
  }

  function BeforeCode(env: Env, c: Core, q: Request): (c': Core)
    requires ValidCore(c)
    ensures ValidCore(c')
  {
    var d := env.decode(q.insn);
    WithMemory(env, WithOperands(Cleared(Given(c, q.mem)), d), d, q.base)
  }

  /** A memory word with no tag ends the run. */
  predicate Misses(env: Env, c: Core, d: Instruction)
    requires ValidCore(c)
  {
    UsesMemory(d) && Read(c.bus, env.fix(c.mem_addr), Data) == Some(BAD_TAG_VALUE)
  }

  predicate Fatal(env: Env, c: Core, q: Request)
    requires ValidCore(c)
  {
    Misses(env, BeforeCode(env, c, q), env.decode(q.insn))
  }

  /** `setup_validation` and `prepare_eval`. In the fatal case the pc and ci tags are not filled in. */
  function Gather(env: Env, c: Core, q: Request): (c': Core)
    requires ValidCore(c)
    ensures ValidCore(c')
  {
    var before := BeforeCode(env, c, q);
    if Fatal(env, c, q) then before else WithCode(env, before, q.pc)
  }

  // ---- validate ----

  datatype Verdict = Permitted | Violation | TagMiss

  function EmptyResults(env: Env): Results {
    Results(env.empty, env.empty, env.empty, false, false, false)
  }

  function Decide(env: Env, cfg: Config, m: Machine): (r: (Machine, Verdict))
    requires ValidMachine(cfg, m)
    ensures ValidMachine(cfg, r.0) && r.0.core == m.core
  {
    var hit := HitOf(cfg, m.cache, m.core.ops);
    var cache := AfterAllow(m.cache, m.core.ops);
    if hit.Some? then (m.(res := hit.value, cache := cache), Permitted)
    else
      var o := env.policy(m.core.ctx, m.core.ops);
      var ok := o.code == POLICY_SUCCESS;
      (m.(res := o.res, cached := o.cached, failed := !ok, cache := cache), if ok then Permitted else Violation)
  }

  /** The operands are gathered and the results cleared. */
  function Ready(env: Env, m: Machine, q: Request): Machine
    requires ValidCore(m.core)
  {
    Machine(Gather(env, m.core, q), EmptyResults(env), true, false, m.cache)
  }

  function Validate(env: Env, cfg: Config, m: Machine, q: Request): (r: (Machine, Verdict))
    requires ValidMachine(cfg, m)
    ensures ValidMachine(cfg, r.0)
  {
    if Fatal(env, m.core, q) then (Ready(env, m, q), TagMiss) else Decide(env, cfg, Ready(env, m, q))
  }

  // ---- commit ----

  function WithPc(c: Core, res: Results): (c': Core)
    ensures ValidCore(c) ==> ValidCore(c')
  {
    if res.pcResult then c.(pc_tag := res.pc) else c
  }

  /** Register zero keeps its tag. */
  function WithRegister(c: Core, res: Results): (c': Core)
    requires ValidCore(c)
    ensures ValidCore(c')
  {
    if c.has_pending_RD && res.rdResult && c.pending_RD != 0
    then c.(ireg_tags := c.ireg_tags[c.pending_RD := res.rd]) else c
  }

  /** A store's tag is the `rd` result. */
  function WithStore(env: Env, c: Core, res: Results): (c': Core)
    requires ValidCore(c)
    ensures ValidCore(c')
  {
    if c.has_pending_mem && res.rdResult then c.(bus := Write(c.bus, env.fix(c.mem_addr), Data, res.rd)) else c
  }

  function WithCsr(c: Core, res: Results): (c': Core)
    requires ValidCore(c)
    ensures ValidCore(c')
  {
    if c.has_pending_CSR && res.csrResult then c.(csr_tags := c.csr_tags[c.pending_CSR := res.csr]) else c
  }

  /** A store's tag goes to an address out of range. */
  predicate Lost(env: Env, c: Core, res: Results)
    requires ValidCore(c)
  {
    c.has_pending_mem && res.rdResult && Read(c.bus, env.fix(c.mem_addr), Data).None?
  }

  /** The tags after the instruction; the second part tells that a store's tag went nowhere. */
  function Apply(env: Env, c: Core, res: Results): (r: (Core, bool))
    requires ValidCore(c)
    ensures ValidCore(r.0) && r.0.ops == c.ops && r.0.ctx == c.ctx
  {
    (WithCsr(WithStore(env, WithRegister(WithPc(c, res), res), res), res),
     Lost(env, c, res))
  }

  /** Install the rule unless the cache has it; asking the cache overwrites `res` on a hit. */
  function Remember(cfg: Config, m: Machine): (m': Machine)
    requires ValidMachine(cfg, m)
    ensures ValidMachine(cfg, m') && m'.core == m.core
  {
    if m.cache.NoCache? || !m.cached then m
    else
      var hit := HitOf(cfg, m.cache, m.core.ops);
      var cache := AfterAllow(m.cache, m.core.ops);
      if hit.Some? then m.(res := hit.value, cache := cache)
      else m.(cache := AfterInstall(cfg, cache, m.core.ops, m.res))
  }

  function Commit(env: Env, cfg: Config, m: Machine): (r: (Machine, bool))
    requires ValidMachine(cfg, m)
    ensures ValidMachine(cfg, r.0)
  {
    var a := Apply(env, m.core, m.res);
    (Remember(cfg, m.(core := a.0)), a.1)
  }

  // ---- runs ----

  datatype Step = DoValidate(request: Request) | DoCommit | DoFlush

  datatype Output = Verdict(verdict: Verdict) | Halt(halt: bool) | Done

  function Next(env: Env, cfg: Config, m: Machine, s: Step): (r: (Machine, Output))
    requires ValidMachine(cfg, m)
    ensures ValidMachine(cfg, r.0)
  {
    match s
    case DoValidate(q) => var r := Validate(env, cfg, m, q); (r.0, Verdict(r.1))
    case DoCommit => var r := Commit(env, cfg, m); (r.0, Halt(r.1))
    case DoFlush => (m.(cache := AfterFlush(cfg, m.cache)), Done)
  }

  /** The final state and what each step returned. */
  function Run(env: Env, cfg: Config, m: Machine, steps: seq<Step>): (r: (Machine, seq<Output>))
    requires ValidMachine(cfg, m)
    ensures ValidMachine(cfg, r.0)
    decreases |steps|
  {
    if |steps| == 0 then (m, [])
    else
      var first := Next(env, cfg, m, steps[0]);
      var rest := Run(env, cfg, first.0, steps[1..]);
      (rest.0, [first.1] + rest.1)
  }
}
