/** Runs of the validator with the multi-hash cache that end the process, although the validator without a cache
    allows every instruction: a driver that turns a run of the cache into a run of the validator. */
module ValidatorEnds {
  import opened Wrappers
  import opened RiscvIsa
  import opened TagBus
  import opened RuleCaches
  import opened DmhcRuleCache
  import DmhcSpec
  import opened DmhcMixed
  import opened DmhcTwoTables
  import opened DmhcFailingRun
  import opened DmhcAbortingRun
  import opened DmhcSwapTables
  import opened ValidatorSpec
  import opened ValidatorTheorems

  // ---- the instructions ----

  /** Tags 1 to 3; a record with a memory tag has a register tag for the address. */
  predicate Plain(o: Operands) {
    && o.pc == 1 && 1 <= o.ci <= 3 && o.op1 <= 3 && o.op2 <= 3 && o.op3 <= 3 && o.mem <= 3
    && (o.mem != 0 ==> o.op1 != 0)
  }

  predicate AllPlain(records: seq<Operands>) {
    forall i | 0 <= i < |records| :: Plain(records[i])
  }

  function RegisterWith(tag: Tag): Option<Register> {
    if 1 <= tag <= 3 then Some(tag) else None
  }

  /** An instruction with the operands of `o`: register r has tag r. */
  function InstructionFor(o: Operands): Instruction {
    if o.op1 == 0 && o.mem != 0 then Decoded(None, None, None, None, None, false, false, false, false)
    else Decoded(None, RegisterWith(o.op1), RegisterWith(o.op2), RegisterWith(o.op3), None,
                 o.mem != 0 && 1 <= o.op1 <= 3, false, false, false)
  }

  function DecodeIn(records: seq<Operands>, insn: nat): Instruction {
    InstructionFor(if insn < |records| then records[insn] else Operands(1, 1, 0, 0, 0, 0))
  }

  const NO_RESULTS := Results(1, 1, 1, false, false, false)

  /** Instruction `n` has the operands of record `n`. The policy allows everything and writes no tag. */
  ghost function EnvOf(records: seq<Operands>): Env {
    Env((insn: nat) => DecodeIn(records, insn),
        (addr: Address) => addr,
        (c: Context, o: Operands) => Outcome(POLICY_SUCCESS, NO_RESULTS, true),
        1)
  }

  /** Eight addresses of each tag, 1 to 3. */
  const BUS: Bus := [(-16, Uniform(8, 3)), (-8, Uniform(8, 2)), (0, Uniform(8, 1))]

  function AddressWith(tag: Tag): (a: Address) {
    if tag == 1 then 0 else if tag == 2 then 8 else 16
  }

  function RequestFor(o: Operands, n: nat): Request {
    Request(AddressWith(o.ci), n, if o.mem != 0 then Some(AddressWith(o.mem)) else None, 0)
  }

  lemma BusReads(tag: Tag, kind: Access)
    requires 1 <= tag <= 3
    ensures ValidBus(BUS) && Read(BUS, AddressWith(tag), kind) == Some(tag)
  {
    assert BUS[1..] == [(-8, Uniform(8, 2)), (0, Uniform(8, 1))] && BUS[1..][1..] == [(0, Uniform(8, 1))];
    assert BUS[1..][1..][1..] == [];
  }

  /** The tags, which no instruction changes. */
  ghost predicate Unchanged(c: Core) {
    ValidCore(c) && c.pc_tag == 1 && c.bus == BUS && forall r | 0 <= r < 4 :: c.ireg_tags[r] == r
  }

  /** The state between two instructions. */
  ghost predicate Steady(c: Core) {
    Unchanged(c) && !c.has_insn_mem_addr
  }

  lemma RegistersGathered(records: seq<Operands>, c: Core, n: nat)
    requires Unchanged(c) && n < |records| && Plain(records[n])
    ensures var d := EnvOf(records).decode(n);
            && UsesMemory(d) == (records[n].mem != 0) && !d.has_store && d.rd.None? && !d.has_csr_store
            && RegisterOperands(c, d) == records[n].(pc := 0, ci := 0, mem := 0)
  {
    assert EnvOf(records).decode(n) == InstructionFor(records[n]);
  }

  /** The operands gathered for instruction `n` are record `n`, and the tags stay steady. */
  lemma Gathered(records: seq<Operands>, c: Core, n: nat)
    requires Steady(c) && n < |records| && Plain(records[n])
    ensures var q, env := RequestFor(records[n], n), EnvOf(records);
            && !Fatal(env, c, q) && Gather(env, c, q).ops == records[n]
            && Steady(Gather(env, c, q)) && Apply(env, Gather(env, c, q), NO_RESULTS).0 == Gather(env, c, q)
  {
    var o, env := records[n], EnvOf(records);
    var q := RequestFor(o, n);
    RegistersGathered(records, Given(c, q.mem), n);
    BusReads(o.ci, Insn);
    if o.mem != 0 { BusReads(o.mem, Data); }
  }

  // ---- one instruction, validated and committed ----

  lemma PlainPair(cfg: Config, records: seq<Operands>, m: Machine, n: nat)
    requires n < |records| && Plain(records[n]) && Steady(m.core) && m.cache.NoCache?
    ensures var env := EnvOf(records);
            var v := Validate(env, cfg, m, RequestFor(records[n], n));
            var after := Commit(env, cfg, v.0).0;
            && v.1 == Permitted && Steady(after.core) && after.cache.NoCache?
            && !Fatal(env, m.core, RequestFor(records[n], n))
            && Gather(env, m.core, RequestFor(records[n], n)).ops == records[n]
            && after.core == Gather(env, m.core, RequestFor(records[n], n))
  {
    Gathered(records, m.core, n);
  }

  /** A record that the cache misses is installed, whatever that does to the process. */
  lemma CachedPair(cfg: Config, records: seq<Operands>, m: Machine, n: nat)
    requires n < |records| && Plain(records[n]) && ValidMachine(cfg, m) && Steady(m.core) && m.cache.Multi?
    requires HitOf(cfg, m.cache, records[n]).None?
    ensures var env := EnvOf(records);
            var v := Validate(env, cfg, m, RequestFor(records[n], n));
            var after := Commit(env, cfg, v.0).0;
            && v.1 == Permitted && after.core == Gather(env, m.core, RequestFor(records[n], n))
            && v.0.cache == Multi(Allowed(m.cache.wrapper, records[n]))
            && after.cache == Multi(Installed(cfg, Allowed(m.cache.wrapper, records[n]), NO_RESULTS))
  {
    Gathered(records, m.core, n);
  }

  // ---- the run ----

  /** Instructions `n ..` of the list. */
  function StepsFrom(records: seq<Operands>, n: nat): seq<Step>
    requires n <= |records|
    decreases |records| - n
  {
    if n == |records| then []
    else [DoValidate(RequestFor(records[n], n)), DoCommit] + StepsFrom(records, n + 1)
  }

  /** The records of a list. */
  ghost function RecordSet(records: seq<Operands>): iset<Operands> {
    iset o: Operands | o in records
  }

  lemma PairFirst(records: seq<Operands>, n: nat)
    requires n < |records|
    ensures var steps := StepsFrom(records, n);
            && |steps| >= 2 && steps[0] == DoValidate(RequestFor(records[n], n)) && steps[1..][0] == DoCommit
            && steps[1..][1..] == StepsFrom(records, n + 1)
  {}

  /** A permitted instruction, committed, and then the rest. */
  lemma PairLegal(env: Env, cfg: Config, m: Machine, q: Request, steps: seq<Step>, open: bool, seen: iset<Operands>)
    requires ValidMachine(cfg, m) && |steps| >= 2 && steps[0] == DoValidate(q) && steps[1..][0] == DoCommit
    requires Validate(env, cfg, m, q).1 == Permitted && Gather(env, m.core, q).ops in seen
    requires var after := Commit(env, cfg, Validate(env, cfg, m, q).0).0;
             Legal(env, cfg, after, steps[1..][1..], true) && AsksWithin(env, cfg, after, steps[1..][1..], seen)
    ensures Legal(env, cfg, m, steps, open) && AsksWithin(env, cfg, m, steps, seen)
  {
    var v := Validate(env, cfg, m, q).0;
    assert Legal(env, cfg, v, steps[1..], true);
    assert AsksWithin(env, cfg, v, steps[1..], seen);
  }

  /** The validator without a cache allows and commits every instruction. */
  lemma {:induction false} PlainRun(cfg: Config, records: seq<Operands>, m: Machine, n: nat, open: bool)
    requires n <= |records| && AllPlain(records) && Steady(m.core) && m.cache.NoCache?
    ensures Legal(EnvOf(records), cfg, m, StepsFrom(records, n), open)
    ensures AsksWithin(EnvOf(records), cfg, m, StepsFrom(records, n), RecordSet(records))
    decreases |records| - n
  {
    if n < |records| {
      var env, q := EnvOf(records), RequestFor(records[n], n);
      PairFirst(records, n);
      PlainPair(cfg, records, m, n);
      PlainRun(cfg, records, Commit(env, cfg, Validate(env, cfg, m, q).0).0, n + 1, true);
      PairLegal(env, cfg, m, q, StepsFrom(records, n), open, RecordSet(records));
    }
  }

  /** The cache after the first `n` records. */
  ghost predicate Reached(cfg: Config, masks: seq<Mask>, records: seq<Operands>, m: Machine, n: nat) {
    && ValidMachine(cfg, m) && Steady(m.core) && m.cache.Multi? && !Exited(m.cache)
    && DmhcSpec.ValidConfig(cfg) && |masks| == cfg.capacity && n <= |records|
    && m.cache.wrapper.st == StateAfter(cfg, masks, records, NO_RESULTS, n)
  }

  lemma ReachNext(cfg: Config, masks: seq<Mask>, records: seq<Operands>, m: Machine, n: nat)
    requires Reached(cfg, masks, records, m, n) && n < |records| && Plain(records[n])
    requires MissesAt(cfg, masks, records, NO_RESULTS, n)
    ensures var v := Validate(EnvOf(records), cfg, m, RequestFor(records[n], n)).0;
            var after := Commit(EnvOf(records), cfg, v).0;
            && !Exited(v.cache)
            && (Exited(after.cache) <==> ExitAt(cfg, masks, records, NO_RESULTS, n) != 0)
            && (!Exited(after.cache) ==> Reached(cfg, masks, records, after, n + 1))
  {
    CachedPair(cfg, records, m, n);
    PlainPair(cfg, records, m.(cache := NoCache), n);
    NextState(cfg, masks, records, NO_RESULTS, n);
  }

  /** With the cache the process ends during the run. */
  lemma {:induction false} CachedRun(cfg: Config, masks: seq<Mask>, records: seq<Operands>, code: nat, m: Machine,
                                     n: nat)
    requires EndsWith(cfg, masks, records, NO_RESULTS, code) && AllPlain(records)
    requires Reached(cfg, masks, records, m, n) && n < |records|
    ensures !Survives(EnvOf(records), cfg, m, StepsFrom(records, n))
    decreases |records| - n
  {
    var env, steps := EnvOf(records), StepsFrom(records, n);
    PairFirst(records, n);
    ReachNext(cfg, masks, records, m, n);
    var v := Next(env, cfg, m, steps[0]).0;
    var after := Next(env, cfg, v, DoCommit).0;
    if !Exited(after.cache) {
      if n < |records| - 1 { CachedRun(cfg, masks, records, code, after, n + 1); }
    }
    assert !Survives(env, cfg, after, StepsFrom(records, n + 1));
    assert !Survives(env, cfg, v, steps[1..]);
  }

  // ---- the two runs ----

  function FirstCore(): (c: Core)
    ensures Steady(c)
  {
    assert BUS[0].0 < BUS[1].0 < BUS[2].0;
    Core(1, seq<Tag>(32, r requires 0 <= r < 32 => if r < 4 then r else 1), seq(CSR_COUNT, _ => 1), BUS,
         Context(0, 0), ZERO_OPERANDS, 0, 0, false, false, false, 0, false)
  }

  lemma AlwaysCacheable(records: seq<Operands>)
    ensures Cacheable(EnvOf(records))
  {}

  lemma ReachFirst(cfg: Config, masks: seq<Mask>, records: seq<Operands>, m: Machine, w: Wrapper)
    requires DmhcSpec.ValidConfig(cfg) && |masks| == cfg.capacity && w.st == DmhcSpec.Empty(cfg, masks) && w.exit == 0
    requires Steady(m.core)
    ensures NewMulti(cfg, w) && Reached(cfg, masks, records, With(m, Multi(w)), 0)
  {
    assert records[..0] == [] && StateAfter(cfg, masks, records, NO_RESULTS, 0) == DmhcSpec.Empty(cfg, masks);
  }

  /** A run of the cache that ends the process is a run of the validator that does. */
  lemma ProcessEnds(cfg: Config, masks: seq<Mask>, records: seq<Operands>, code: nat, w: Wrapper) returns (m: Machine)
    requires EndsWith(cfg, masks, records, NO_RESULTS, code) && AllPlain(records)
    requires DmhcSpec.ValidConfig(cfg) && w.st == DmhcSpec.Empty(cfg, masks) && w.exit == 0
    ensures Cacheable(EnvOf(records)) && NewMulti(cfg, w) && ValidMachine(cfg, With(m, Multi(w)))
    ensures Legal(EnvOf(records), cfg, With(m, NoCache), StepsFrom(records, 0), false)
    ensures AsksWithin(EnvOf(records), cfg, With(m, NoCache), StepsFrom(records, 0), RecordSet(records))
    ensures !Survives(EnvOf(records), cfg, With(m, Multi(w)), StepsFrom(records, 0))
  {
    m := Machine(FirstCore(), NO_RESULTS, false, false, NoCache);
    AlwaysCacheable(records);
    PlainRun(cfg, records, With(m, NoCache), 0, false);
    ReachFirst(cfg, masks, records, m, w);
    CachedRun(cfg, masks, records, code, With(m, Multi(w)), 0);
  }

  lemma FailingPlain()
    ensures AllPlain(FAILING_RUN) && Incomparable(RecordSet(FAILING_RUN))
  {
    forall k, q | k in FAILING_RUN && q in FAILING_RUN && Extends(k, q) ensures k == q {
      var i :| 0 <= i < 8 && FAILING_RUN[i] == k;
      var j :| 0 <= j < 8 && FAILING_RUN[j] == q;
      SevenAndAgain(i);
      SevenAndAgain(j);
      if i % 7 != j % 7 { SevenIncomparable(i % 7, j % 7); }
    }
  }

  lemma SevenAndAgain(i: nat)
    requires i < 8
    ensures FAILING_RUN[i] == SEVEN[i % 7]
  {}

  /** There is a legal run over incomparable records in which the self-check of the multi-hash cache ends the
      process. The tables are made up for it. */
  lemma SelfCheckEndsRun(masks: seq<Mask>, w: Wrapper) returns (m: Machine)
    requires |masks| == 8 && w.st == DmhcSpec.Empty(SwapConfig(), masks) && w.exit == 0
    ensures var cfg, env, steps := SwapConfig(), EnvOf(FAILING_RUN), StepsFrom(FAILING_RUN, 0);
            && Cacheable(env) && NewMulti(cfg, w) && ValidMachine(cfg, With(m, Multi(w)))
            && Incomparable(RecordSet(FAILING_RUN))
            && Legal(env, cfg, With(m, NoCache), steps, false)
            && AsksWithin(env, cfg, With(m, NoCache), steps, RecordSet(FAILING_RUN))
            && !Survives(env, cfg, With(m, Multi(w)), steps)
  {
    SwapConfigValid();
    SwapTablesRunFails(masks, NO_RESULTS);
    FailingPlain();
    m := ProcessEnds(SwapConfig(), masks, FAILING_RUN, 1, w);
  }

  lemma AbortingPlain()
    ensures AllPlain(ABORTING_RUN) && RecordSet(ABORTING_RUN) <= Records(SameOperands(MaskOf(A1)))
  {
    forall o | o in ABORTING_RUN ensures MaskOf(o) == MaskOf(A1) {
      var i :| 0 <= i < 4 && ABORTING_RUN[i] == o;
      SameMask(i);
    }
  }

  /** And one over records with the same operands in which the assertion does. */
  lemma AssertionEndsRun(masks: seq<Mask>, w: Wrapper) returns (m: Machine)
    requires |masks| == 8 && w.st == DmhcSpec.Empty(SwapConfig(), masks) && w.exit == 0
    ensures var cfg, env, steps := SwapConfig(), EnvOf(ABORTING_RUN), StepsFrom(ABORTING_RUN, 0);
            && Cacheable(env) && NewMulti(cfg, w) && ValidMachine(cfg, With(m, Multi(w)))
            && RecordSet(ABORTING_RUN) <= Records(SameOperands(MaskOf(A1)))
            && Legal(env, cfg, With(m, NoCache), steps, false)
            && AsksWithin(env, cfg, With(m, NoCache), steps, RecordSet(ABORTING_RUN))
            && !Survives(env, cfg, With(m, Multi(w)), steps)
  {
    SwapConfigValid();
    SwapTablesRunAborts(masks, NO_RESULTS);
    AbortingPlain();
    m := ProcessEnds(SwapConfig(), masks, ABORTING_RUN, DmhcSpec.ABORTED, w);
  }
}
