/** The multi-hash cache can be seen when records of different operands meet: a run of the validator in
    which it lets through what the policy rejects. */
module ValidatorCollisions {
  import opened Wrappers
  import opened Bits
  import opened RiscvIsa
  import opened TagBus
  import opened RuleCaches
  import opened DmhcRuleCache
  import opened DmhcMixed
  import DmhcSpec
  import DmhcTheorems
  import opened ComputeHash
  import opened HashCollisions
  import opened ValidatorSpec
  import opened ValidatorTheorems

  /** One instruction is validated and committed, then another one is validated. */
  function TwoInstructions(first: Request, second: Request): seq<Step> {
    [DoValidate(first), DoCommit, DoValidate(second)]
  }

  /** The state before the second instruction, its operands gathered. */
  function SecondCore(env: Env, c: Core, first: Request, second: Request, res: Results): Core
    requires ValidCore(c)
  {
    Gather(env, Apply(env, Gather(env, c, first), res).0, second)
  }

  /** The policy allows the first instruction with the cacheable result `res` and rejects the second. */
  ghost predicate AllowsThenRejects(env: Env, c: Core, first: Request, second: Request, res: Results)
    requires ValidCore(c)
  {
    var c1, c2 := Gather(env, c, first), SecondCore(env, c, first, second, res);
    && !Fatal(env, c, first) && !Fatal(env, Apply(env, c1, res).0, second)
    && env.policy(c1.ctx, c1.ops) == Outcome(POLICY_SUCCESS, res, true)
    && env.policy(c2.ctx, c2.ops).code != POLICY_SUCCESS
  }

  // ---- the three steps ----

  lemma NewMisses(cfg: Config, w: Wrapper, ops: Operands)
    requires NewMulti(cfg, w) && ValidWrapper(cfg, w)
    ensures HitOf(cfg, Multi(w), ops) == None
  {
    assert DmhcSpec.CellAt(w.st, DmhcSpec.Hashes(cfg, ops), 0).cnt == 0;
  }

  /** A new cache with the rule for `k`. */
  ghost function OneRule(cfg: Config, w: Wrapper, k: Operands, res: Results): (w': Wrapper)
    requires ValidWrapper(cfg, w)
    ensures ValidWrapper(cfg, w')
  {
    Installed(cfg, Allowed(Allowed(w, k), k), res)
  }

  lemma OneRuleAnswers(cfg: Config, w: Wrapper, k: Operands, res: Results, q: Operands)
    requires NewMulti(cfg, w) && ValidWrapper(cfg, w)
    ensures HitOf(cfg, Multi(OneRule(cfg, w, k, res)), q)
            == if Extends(k, q) && DmhcSpec.Hashes(cfg, q) == DmhcSpec.Hashes(cfg, k) then Some(res) else None
    ensures OneRule(cfg, w, k, res).exit == 0
  {
    var masks: seq<Mask> :| |masks| == cfg.capacity && w.st == DmhcSpec.Empty(cfg, masks);
    DmhcTheorems.RunOfOne(cfg, masks, DmhcTheorems.OpInsert(k, res, MaskOf(k)));
    FalseHitIff(cfg, masks, k, res, q);
    FalseHitIff(cfg, masks, k, res, k);
  }

  /** The state after the first instruction is validated: nothing is known yet, so the policy is asked. */
  lemma FirstValidated(env: Env, cfg: Config, w: Wrapper, m: Machine, first: Request, res: Results)
    requires NewMulti(cfg, w) && ValidMachine(cfg, With(m, Multi(w))) && !Fatal(env, m.core, first)
    requires var c1 := Gather(env, m.core, first); env.policy(c1.ctx, c1.ops) == Outcome(POLICY_SUCCESS, res, true)
    ensures var c1 := Gather(env, m.core, first);
            && Validate(env, cfg, With(m, NoCache), first) == (Machine(c1, res, true, false, NoCache), Permitted)
            && Validate(env, cfg, With(m, Multi(w)), first)
               == (Machine(c1, res, true, false, Multi(Allowed(w, c1.ops))), Permitted)
  {
    NewMisses(cfg, w, Gather(env, m.core, first).ops);
  }

  lemma FirstCommitted(env: Env, cfg: Config, w: Wrapper, c1: Core, res: Results)
    requires NewMulti(cfg, w) && ValidWrapper(cfg, w) && ValidCore(c1)
    ensures var plain := Machine(c1, res, true, false, NoCache);
            var cached := Machine(c1, res, true, false, Multi(Allowed(w, c1.ops)));
            var a := Apply(env, c1, res);
            && Commit(env, cfg, plain) == (plain.(core := a.0), a.1)
            && Commit(env, cfg, cached) == (cached.(core := a.0, cache := Multi(OneRule(cfg, w, c1.ops, res))), a.1)
  {
    NewMisses(cfg, Allowed(w, c1.ops), c1.ops);
  }

  lemma RunFirst(env: Env, cfg: Config, m: Machine, s: Step, rest: seq<Step>)
    requires ValidMachine(cfg, m)
    ensures var next := Next(env, cfg, m, s);
            Run(env, cfg, m, [s] + rest) == (Run(env, cfg, next.0, rest).0, [next.1] + Run(env, cfg, next.0, rest).1)
  {
    assert ([s] + rest)[1..] == rest;
  }

  /** What the three steps return. */
  function Outputs(env: Env, cfg: Config, m: Machine, first: Request, second: Request): seq<Output>
    requires ValidMachine(cfg, m)
  {
    var v := Validate(env, cfg, m, first);
    var c := Commit(env, cfg, v.0);
    [Verdict(v.1), Halt(c.1), Verdict(Validate(env, cfg, c.0, second).1)]
  }

  lemma ThreeOutputs(env: Env, cfg: Config, m: Machine, first: Request, second: Request)
    requires ValidMachine(cfg, m)
    ensures Run(env, cfg, m, TwoInstructions(first, second)).1 == Outputs(env, cfg, m, first, second)
  {
    var m1 := Next(env, cfg, m, DoValidate(first)).0;
    var m2 := Next(env, cfg, m1, DoCommit).0;
    var last: seq<Step> := [DoValidate(second)];
    assert TwoInstructions(first, second) == [DoValidate(first)] + ([DoCommit] + last);
    RunFirst(env, cfg, m, DoValidate(first), [DoCommit] + last);
    RunFirst(env, cfg, m1, DoCommit, last);
    OneStep(env, cfg, m2, DoValidate(second));
    ThreeElements(Next(env, cfg, m, DoValidate(first)).1, Next(env, cfg, m1, DoCommit).1,
                  Next(env, cfg, m2, DoValidate(second)).1);
  }

  lemma OneStep(env: Env, cfg: Config, m: Machine, s: Step)
    requires ValidMachine(cfg, m)
    ensures Run(env, cfg, m, [s]).1 == [Next(env, cfg, m, s).1]
  {
    assert [s] == [s] + [];
    RunFirst(env, cfg, m, s, []);
  }

  lemma ThreeElements(a: Output, b: Output, c: Output)
    ensures [a] + ([b] + [c]) == [a, b, c]
  {}

  lemma TwoInstructionsLegal(env: Env, cfg: Config, m: Machine, first: Request, second: Request)
    requires ValidMachine(cfg, m) && Validate(env, cfg, m, first).1 == Permitted
    ensures Legal(env, cfg, m, TwoInstructions(first, second), false)
  {
    var steps := TwoInstructions(first, second);
    var v := Validate(env, cfg, m, first);
    var c := Commit(env, cfg, v.0);
    assert steps[1..] == [DoCommit, DoValidate(second)] && steps[1..][1..] == [DoValidate(second)];
    assert Legal(env, cfg, c.0, [DoValidate(second)], true);
    assert Legal(env, cfg, v.0, [DoCommit, DoValidate(second)], true);
  }

  /** The run is legal, and the validators with and without the cache differ on it exactly when the first
      record contains the second one and the two have the same index in every table. */
  lemma RunsDifferIff(env: Env, cfg: Config, w: Wrapper, m: Machine, first: Request, second: Request, res: Results)
    requires NewMulti(cfg, w) && ValidMachine(cfg, With(m, Multi(w)))
    requires AllowsThenRejects(env, m.core, first, second, res)
    ensures var steps := TwoInstructions(first, second);
            var k, q := Gather(env, m.core, first).ops, SecondCore(env, m.core, first, second, res).ops;
            && Legal(env, cfg, With(m, NoCache), steps, false)
            && (Run(env, cfg, With(m, NoCache), steps).1 != Run(env, cfg, With(m, Multi(w)), steps).1
                <==> Extends(k, q) && DmhcSpec.Hashes(cfg, q) == DmhcSpec.Hashes(cfg, k))
  {
    var c1 := Gather(env, m.core, first);
    FirstValidated(env, cfg, w, m, first, res);
    FirstCommitted(env, cfg, w, c1, res);
    ThreeOutputs(env, cfg, With(m, NoCache), first, second);
    ThreeOutputs(env, cfg, With(m, Multi(w)), first, second);
    TwoInstructionsLegal(env, cfg, With(m, NoCache), first, second);
    OneRuleAnswers(cfg, w, c1.ops, res, SecondCore(env, m.core, first, second, res).ops);
  }

  // ---- a run for every choice of tables ----

  const BARE_RECORD := Operands(1, 1, 0, 0, 0, 0)
  const NO_RESULTS := Results(1, 1, 1, false, false, false)

  /** Reads the registers and the memory that have a tag in `whole`. */
  function FullInstruction(whole: Operands): Instruction {
    Decoded(None, if whole.op1 != 0 || whole.mem != 0 then Some(1) else None, if whole.op2 != 0 then Some(2) else None,
            if whole.op3 != 0 then Some(3) else None, None, whole.mem != 0, false, false, false)
  }

  /** Reads nothing. */
  function BareInstruction(): Instruction {
    Decoded(None, None, None, None, None, false, false, false, false)
  }

  function DecodeFor(whole: Operands, insn: nat): Instruction {
    if insn == 0 then FullInstruction(whole) else BareInstruction()
  }

  /** Instruction 0 is the full one; the policy allows it with its operands and nothing else. */
  ghost function EnvFor(whole: Operands): Env {
    Env((insn: nat) => DecodeFor(whole, insn),
        (addr: Address) => addr,
        (c: Context, o: Operands) => Outcome(if o == whole then POLICY_SUCCESS else 0, NO_RESULTS, true),
        1)
  }

  /** The instruction at address 0 with tag 1, one memory region at address 8. */
  function BusFor(whole: Operands): (bus: Bus)
    ensures ValidBus(bus)
  {
    [(-8, Uniform(8, whole.mem)), (0, Uniform(8, 1))]
  }

  function RegisterFor(whole: Operands, r: nat): Tag {
    if r == 1 then whole.op1 else if r == 2 then whole.op2 else if r == 3 then whole.op3 else 1
  }

  function CoreFor(whole: Operands): (c: Core)
    ensures ValidCore(c)
  {
    Core(1, seq<Tag>(32, r requires 0 <= r < 32 => RegisterFor(whole, r)),
         seq(CSR_COUNT, _ => 1), BusFor(whole), Context(0, 0), ZERO_OPERANDS, 0, 0, false, false, false, 0, false)
  }

  const FULL_REQUEST := Request(0, 0, Some(8), 0)
  const BARE_REQUEST := Request(0, 1, None, 0)

  lemma BusReads(whole: Operands)
    ensures Read(BusFor(whole), 0, Insn) == Some(1) && Read(BusFor(whole), 8, Data) == Some(whole.mem)
  {
    var bus := BusFor(whole);
    assert bus[1..][0] == bus[1] && bus[1..][1..] == [];
    assert LowerBound(bus[1..], 0) == 0;
  }

  lemma EnvIsCacheable(whole: Operands)
    ensures Cacheable(EnvFor(whole))
  {}

  lemma FullGathered(whole: Operands)
    requires whole.pc == whole.ci == 1
    ensures !Fatal(EnvFor(whole), CoreFor(whole), FULL_REQUEST)
    ensures var c := Gather(EnvFor(whole), CoreFor(whole), FULL_REQUEST);
            c.ops == whole && c.pc_tag == 1 && c.bus == BusFor(whole) && Apply(EnvFor(whole), c, NO_RESULTS).0 == c
  {
    BusReads(whole);
    assert EnvFor(whole).decode(0) == FullInstruction(whole);
  }

  lemma BareGathered(whole: Operands, c: Core)
    requires ValidCore(c) && c.pc_tag == 1 && c.bus == BusFor(whole)
    ensures !Fatal(EnvFor(whole), c, BARE_REQUEST) && Gather(EnvFor(whole), c, BARE_REQUEST).ops == BARE_RECORD
  {
    BusReads(whole);
    assert EnvFor(whole).decode(1) == BareInstruction();
  }

  lemma RejectsBare(whole: Operands)
    requires whole.pc == whole.ci == 1 && whole != BARE_RECORD
    ensures AllowsThenRejects(EnvFor(whole), CoreFor(whole), FULL_REQUEST, BARE_REQUEST, NO_RESULTS)
    ensures Gather(EnvFor(whole), CoreFor(whole), FULL_REQUEST).ops == whole
    ensures SecondCore(EnvFor(whole), CoreFor(whole), FULL_REQUEST, BARE_REQUEST, NO_RESULTS).ops == BARE_RECORD
  {
    FullGathered(whole);
    BareGathered(whole, Gather(EnvFor(whole), CoreFor(whole), FULL_REQUEST));
  }

  /** For every choice of permutation tables and every capacity there are a policy whose cacheable outcomes
      depend on the operands alone, and a legal run on which the validator with the multi-hash cache and the
      one without differ. */
  lemma CacheIsVisible(perms: seq<seq<nat>>, k: nat, widths: seq<nat>, capacity: nat, w: Wrapper)
    returns (env: Env, m: Machine, steps: seq<Step>)
    requires RealTables(perms, k, widths, capacity) && NewMulti(HasherConfig(perms, k, widths, capacity), w)
    requires ValidWrapper(HasherConfig(perms, k, widths, capacity), w)
    ensures var cfg := HasherConfig(perms, k, widths, capacity);
            && Cacheable(env) && ValidMachine(cfg, With(m, Multi(w)))
            && Legal(env, cfg, With(m, NoCache), steps, false)
            && Run(env, cfg, With(m, NoCache), steps).1 != Run(env, cfg, With(m, Multi(w)), steps).1
  {
    var cfg := HasherConfig(perms, k, widths, capacity);
    assert Pow2(1) == 2;
    PowStrict(0, 32);
    PowMonotonic(1, 32);
    var whole := ContainedRecordsCollide(perms, k, widths, capacity, 1, 1);
    env := EnvFor(whole);
    m := Machine(CoreFor(whole), NO_RESULTS, false, false, NoCache);
    steps := TwoInstructions(FULL_REQUEST, BARE_REQUEST);
    EnvIsCacheable(whole);
    RejectsBare(whole);
    RunsDifferIff(env, cfg, w, m, FULL_REQUEST, BARE_REQUEST, NO_RESULTS);
  }
}
