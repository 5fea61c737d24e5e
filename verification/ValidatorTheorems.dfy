/** A rule cache does not change what the validator does: over every run of validate, commit and
    flush, a validator with a cache and one without give the same verdicts and the same tags. */
module ValidatorTheorems {
  import opened Wrappers
  import opened RiscvIsa
  import opened RuleCaches
  import opened DmhcRuleCache
  import opened DmhcMixed
  import DmhcSpec
  import DmhcInvariant
  import DmhcTheorems
  import opened DmhcSelfCheck
  import opened DmhcAssertion
  import opened ValidatorSpec

  // ---- what a cache may hold ----

  /** When the policy leaves `ctx.cached` set, its outcome depends on the operands alone. */
  ghost predicate Cacheable(env: Env) {
    forall c1: Context, c2: Context, ops :: env.policy(c1, ops).cached ==> env.policy(c2, ops) == env.policy(c1, ops)
  }

  /** `res` is what the policy answers for `ops` in every context. */
  ghost predicate Correct(env: Env, ops: Operands, res: Results) {
    forall c: Context :: env.policy(c, ops) == Outcome(POLICY_SUCCESS, res, true)
  }

  ghost predicate CorrectTable(env: Env, table: Table) {
    forall k | k in table :: Correct(env, k, table[k])
  }

  ghost predicate CorrectRules(env: Env, seen: iset<Operands>, rules: set<(Operands, Results)>) {
    forall rule | rule in rules :: rule.0 in seen && Correct(env, rule.0, rule.1)
  }

  ghost predicate CorrectEntries(env: Env, entries: seq<DmhcSpec.Entry>) {
    forall a | 0 <= a < |entries| && entries[a].used :: Correct(env, entries[a].key, entries[a].out)
  }

  /** The records a run asks about: any given ones, or all with the operands in `mask`. */
  datatype Family = Mixture(seen: iset<Operands>) | SameOperands(mask: Mask)

  ghost function Records(f: Family): iset<Operands> {
    match f
    case Mixture(seen) => seen
    case SameOperands(mask) => iset ops: Operands | MaskOf(ops) == mask
  }

  /** The rules of a multi-hash cache are correct, and its tables are in order. */
  ghost predicate GoodRules(env: Env, cfg: Config, f: Family, st: DmhcSpec.State) {
    match f
    case Mixture(seen) => exists rules :: CorrectRules(env, seen, rules) && MixedInv(cfg, rules, st)
    case SameOperands(mask) => DmhcInvariant.Inv(cfg, mask, st) && CorrectEntries(env, st.m)
  }

  /** Every rule of the cache is correct; the multi-hash cache holds rules for records of the family only. */
  ghost predicate Good(env: Env, cfg: Config, f: Family, c: Cache) {
    && ValidCache(cfg, c)
    && (c.Ideal? ==> CorrectTable(env, c.table))
    && (c.Limited? ==> CorrectTable(env, c.finite.table))
    && (c.Multi? && c.wrapper.exit == 0 ==> GoodRules(env, cfg, f, c.wrapper.st))
  }

  /** No record of `seen` contains another one, and none is without any tag. */
  ghost predicate Incomparable(seen: iset<Operands>) {
    && ZERO_OPERANDS !in seen
    && (forall k, q | k in seen && q in seen :: Extends(k, q) ==> k == q)
  }

  /** A multi-hash cache needs incomparable records, or records with the same operands. */
  ghost predicate Suits(f: Family, c: Cache) {
    c.Multi? && f.Mixture? ==> Incomparable(f.seen)
  }

  /** Records with the same operands present never contain one another. */
  lemma SameOperandsIncomparable(mask: Mask)
    ensures forall k, q | k in Records(SameOperands(mask)) && q in Records(SameOperands(mask)) ::
              Extends(k, q) ==> k == q
  {
    forall k, q | MaskOf(k) == mask && MaskOf(q) == mask && Extends(k, q) ensures k == q {
      assert MaskOf(k)[2] == MaskOf(q)[2] && MaskOf(k)[3] == MaskOf(q)[3] && MaskOf(k)[4] == MaskOf(q)[4]
             && MaskOf(k)[5] == MaskOf(q)[5];
    }
  }

  /** A good cache answers only with what the policy would answer. */
  lemma HitIsCorrect(env: Env, cfg: Config, f: Family, c: Cache, ops: Operands)
    requires Good(env, cfg, f, c) && Suits(f, c) && ops in Records(f) && !Exited(c)
    ensures HitOf(cfg, c, ops).Some? ==> Correct(env, ops, HitOf(cfg, c, ops).value)
  {
    if c.Multi? && HitOf(cfg, c, ops).Some? {
      var st := c.wrapper.st;
      if f.Mixture? {
        var rules :| CorrectRules(env, f.seen, rules) && MixedInv(cfg, rules, st);
        MixedHit(cfg, rules, st, ops);
        var k :| (k, HitOf(cfg, c, ops).value) in rules && Extends(k, ops);
      } else {
        var a := DmhcSpec.Address(st, DmhcSpec.Hashes(cfg, ops), cfg.k);
        assert DmhcInvariant.EntryOk(f.mask, st.m[a]);
        DmhcTheorems.MatchIsEquality(f.mask, st.m[a].key, ops);
      }
    }
  }

  lemma AllowKeepsGood(env: Env, cfg: Config, f: Family, c: Cache, ops: Operands)
    requires Good(env, cfg, f, c)
    ensures Good(env, cfg, f, AfterAllow(c, ops)) && Exited(AfterAllow(c, ops)) == Exited(c)
    ensures HitOf(cfg, AfterAllow(c, ops), ops) == HitOf(cfg, c, ops)
  {}

  /** Installing a correct rule right after asking for it keeps the cache good. */
  lemma InstallKeepsGood(env: Env, cfg: Config, f: Family, c: Cache, ops: Operands, res: Results)
    requires Good(env, cfg, f, c) && ops in Records(f) && Correct(env, ops, res) && !Exited(c)
    ensures Good(env, cfg, f, AfterInstall(cfg, AfterAllow(c, ops), ops, res))
  {
    var c' := AfterInstall(cfg, AfterAllow(c, ops), ops, res);
    if c.Multi? && c'.wrapper.exit == 0 { InsertKeepsGood(env, cfg, f, c.wrapper.st, ops, res); }
  }

  lemma InsertKeepsGood(env: Env, cfg: Config, f: Family, st: DmhcSpec.State, ops: Operands, res: Results)
    requires DmhcSpec.ValidConfig(cfg) && DmhcSpec.WellFormed(cfg, st)
    requires GoodRules(env, cfg, f, st) && ops in Records(f) && Correct(env, ops, res)
    requires DmhcSpec.ExitCode(cfg, st, ops, res, MaskOf(ops)) == 0
    ensures GoodRules(env, cfg, f, DmhcSpec.Insert(cfg, st, ops, res, MaskOf(ops)))
  {
    if f.Mixture? {
      var rules :| CorrectRules(env, f.seen, rules) && MixedInv(cfg, rules, st);
      InsertMixed(cfg, rules, st, ops, res);
      assert CorrectRules(env, f.seen, rules + {(ops, res)});
    } else {
      InsertKeepsCorrect(env, cfg, f.mask, st, ops, res);
    }
  }

  lemma InsertKeepsCorrect(env: Env, cfg: Config, mask: Mask, st: DmhcSpec.State, ops: Operands, res: Results)
    requires DmhcInvariant.Inv(cfg, mask, st) && CorrectEntries(env, st.m) && MaskOf(ops) == mask
    requires Correct(env, ops, res)
    ensures var st' := DmhcSpec.Insert(cfg, st, ops, res, mask);
            DmhcInvariant.Inv(cfg, mask, st') && CorrectEntries(env, st'.m)
  {
    var m, m' := st.m[st.next := DmhcSpec.Entry(true, ops, res, mask)], DmhcSpec.Insert(cfg, st, ops, res, mask).m;
    DmhcTheorems.InsertCorrect(cfg, mask, st, ops, res);
    var x: nat :| x != st.next && DmhcTheorems.SameBut(m, m', x);
    assert CorrectEntries(env, m);
    forall a | 0 <= a < |m'| && m'[a].used ensures Correct(env, m'[a].key, m'[a].out) {
      assert a != x || m'[a] == m[a];
    }
  }

  lemma FlushKeepsGood(env: Env, cfg: Config, f: Family, c: Cache)
    requires Good(env, cfg, f, c)
    ensures Good(env, cfg, f, AfterFlush(cfg, c)) && Exited(AfterFlush(cfg, c)) == Exited(c)
  {
    if c.Multi? && c.wrapper.exit == 0 {
      var st' := Flushed(cfg, c.wrapper).st;
      if f.Mixture? {
        var rules :| CorrectRules(env, f.seen, rules) && MixedInv(cfg, rules, c.wrapper.st);
        assert MixedInv(cfg, rules, st');
      } else {
        DmhcTheorems.EmptyInv(cfg, f.mask, st');
      }
    }
  }

  // ---- the relation between the two validators ----

  /** The same tags, operands and results, and a good cache on the right. `open` tells that the latest
      `validate` allowed its instruction, so that `commit` may follow. */
  ghost predicate Related(env: Env, cfg: Config, f: Family, plain: Machine, cached: Machine, open: bool) {
    && ValidMachine(cfg, plain) && ValidMachine(cfg, cached)
    && plain.cache.NoCache?
    && plain == cached.(cache := NoCache)
    && Good(env, cfg, f, cached.cache) && Suits(f, cached.cache)
    && (open && plain.cached ==> plain.core.ops in Records(f) && Correct(env, plain.core.ops, plain.res))
  }

  predicate Opens(o: Output) {
    o == Verdict(Permitted)
  }

  lemma DecideRelated(env: Env, cfg: Config, f: Family, plain: Machine, cached: Machine)
    requires Cacheable(env) && Related(env, cfg, f, plain, cached, false) && !Exited(cached.cache)
    requires plain.core.ops in Records(f) && plain.cached && !plain.failed
    ensures var p, c := Decide(env, cfg, plain), Decide(env, cfg, cached);
            p.1 == c.1 && Related(env, cfg, f, p.0, c.0, p.1 == Permitted)
  {
    var ops := plain.core.ops;
    HitIsCorrect(env, cfg, f, cached.cache, ops);
    AllowKeepsGood(env, cfg, f, cached.cache, ops);
    var o := env.policy(plain.core.ctx, ops);
    if o.cached && o.code == POLICY_SUCCESS {
      assert Correct(env, ops, o.res);
    }
  }

  lemma ValidateRelated(env: Env, cfg: Config, f: Family, plain: Machine, cached: Machine, open: bool,
                        q: Request)
    requires Cacheable(env) && Related(env, cfg, f, plain, cached, open) && !Exited(cached.cache)
    requires !Fatal(env, plain.core, q) ==> Gather(env, plain.core, q).ops in Records(f)
    ensures var p, c := Validate(env, cfg, plain, q), Validate(env, cfg, cached, q);
            p.1 == c.1 && Related(env, cfg, f, p.0, c.0, p.1 == Permitted)
  {
    var core := Gather(env, plain.core, q);
    var p := Machine(core, EmptyResults(env), true, false, NoCache);
    var c := Machine(core, EmptyResults(env), true, false, cached.cache);
    assert Related(env, cfg, f, p, c, false);
    if !Fatal(env, plain.core, q) { DecideRelated(env, cfg, f, p, c); }
  }

  lemma CommitRelated(env: Env, cfg: Config, f: Family, plain: Machine, cached: Machine)
    requires Cacheable(env) && Related(env, cfg, f, plain, cached, true) && !Exited(cached.cache)
    ensures var p, c := Commit(env, cfg, plain), Commit(env, cfg, cached);
            p.1 == c.1 && Related(env, cfg, f, p.0, c.0, true)
  {
    var ops := plain.core.ops;
    if plain.cached && !cached.cache.NoCache? {
      HitIsCorrect(env, cfg, f, cached.cache, ops);
      AllowKeepsGood(env, cfg, f, cached.cache, ops);
      InstallKeepsGood(env, cfg, f, cached.cache, ops, plain.res);
      assert env.policy(plain.core.ctx, ops) == Outcome(POLICY_SUCCESS, plain.res, true);
    }
  }

  // ---- whole runs ----

  /** `commit` is called only after a `validate` that allowed its instruction. */
  ghost predicate Legal(env: Env, cfg: Config, m: Machine, steps: seq<Step>, open: bool)
    requires ValidMachine(cfg, m)
    decreases |steps|
  {
    |steps| > 0 ==>
      && (steps[0].DoCommit? ==> open)
      && var next := Next(env, cfg, m, steps[0]);
         Legal(env, cfg, next.0, steps[1..], OpenAfter(steps[0], next.1, open))
  }

  predicate OpenAfter(s: Step, o: Output, open: bool) {
    if s.DoValidate? then Opens(o) else open
  }

  /** All operand records the run asks about are in `seen`. */
  ghost predicate AsksWithin(env: Env, cfg: Config, m: Machine, steps: seq<Step>, seen: iset<Operands>)
    requires ValidMachine(cfg, m)
    decreases |steps|
  {
    |steps| > 0 ==>
      && (steps[0].DoValidate? && !Fatal(env, m.core, steps[0].request)
          ==> Gather(env, m.core, steps[0].request).ops in seen)
      && AsksWithin(env, cfg, Next(env, cfg, m, steps[0]).0, steps[1..], seen)
  }

  /** No failed assertion or self-check ends the process before the last step. */
  ghost predicate Survives(env: Env, cfg: Config, m: Machine, steps: seq<Step>)
    requires ValidMachine(cfg, m)
    decreases |steps|
  {
    !Exited(m.cache) && (|steps| > 0 ==> Survives(env, cfg, Next(env, cfg, m, steps[0]).0, steps[1..]))
  }

  /** One step of both validators. */
  lemma NextRelated(env: Env, cfg: Config, f: Family, plain: Machine, cached: Machine, s: Step, open: bool)
    requires Cacheable(env) && Related(env, cfg, f, plain, cached, open) && !Exited(cached.cache)
    requires s.DoCommit? ==> open
    requires s.DoValidate? && !Fatal(env, plain.core, s.request)
             ==> Gather(env, plain.core, s.request).ops in Records(f)
    ensures var p, c := Next(env, cfg, plain, s), Next(env, cfg, cached, s);
            p.1 == c.1 && Related(env, cfg, f, p.0, c.0, OpenAfter(s, p.1, open))
  {
    match s {
      case DoValidate(q) => ValidateRelated(env, cfg, f, plain, cached, open, q);
      case DoCommit => CommitRelated(env, cfg, f, plain, cached);
      case DoFlush => FlushKeepsGood(env, cfg, f, cached.cache);
    }
  }

  /** The two validators give the same outputs and end in related states. */
  lemma {:induction false} CacheIsInvisible(env: Env, cfg: Config, f: Family, plain: Machine, cached: Machine,
                                            steps: seq<Step>, open: bool)
    requires Cacheable(env) && Related(env, cfg, f, plain, cached, open)
    requires Legal(env, cfg, plain, steps, open) && AsksWithin(env, cfg, plain, steps, Records(f))
    requires Survives(env, cfg, cached, steps)
    ensures Run(env, cfg, plain, steps).1 == Run(env, cfg, cached, steps).1
    ensures Run(env, cfg, plain, steps).0 == Run(env, cfg, cached, steps).0.(cache := NoCache)
    decreases |steps|
  {
    if |steps| > 0 {
      var s := steps[0];
      NextRelated(env, cfg, f, plain, cached, s, open);
      var p, c := Next(env, cfg, plain, s), Next(env, cfg, cached, s);
      CacheIsInvisible(env, cfg, f, p.0, c.0, steps[1..], OpenAfter(s, p.1, open));
    }
  }

  lemma {:induction false} LegalPrefix(env: Env, cfg: Config, m: Machine, steps: seq<Step>, open: bool, n: nat,
                                       seen: iset<Operands>)
    requires ValidMachine(cfg, m) && n <= |steps|
    requires Legal(env, cfg, m, steps, open) && AsksWithin(env, cfg, m, steps, seen)
    ensures Legal(env, cfg, m, steps[..n], open) && AsksWithin(env, cfg, m, steps[..n], seen)
    decreases |steps|
  {
    if n > 0 {
      var next := Next(env, cfg, m, steps[0]);
      LegalPrefix(env, cfg, next.0, steps[1..], OpenAfter(steps[0], next.1, open), n - 1, seen);
      assert steps[..n][1..] == steps[1..][..n - 1];
    }
  }

  /** Whether or not the process survives the whole run, the two agree for as long as it does. */
  lemma InvisibleUntilExit(env: Env, cfg: Config, f: Family, plain: Machine, cached: Machine, steps: seq<Step>,
                           open: bool, n: nat)
    requires Cacheable(env) && Related(env, cfg, f, plain, cached, open) && n <= |steps|
    requires Legal(env, cfg, plain, steps, open) && AsksWithin(env, cfg, plain, steps, Records(f))
    requires Survives(env, cfg, cached, steps[..n])
    ensures Run(env, cfg, plain, steps[..n]).1 == Run(env, cfg, cached, steps[..n]).1
    ensures Run(env, cfg, plain, steps[..n]).0 == Run(env, cfg, cached, steps[..n]).0.(cache := NoCache)
  {
    LegalPrefix(env, cfg, plain, steps, open, n, Records(f));
    CacheIsInvisible(env, cfg, f, plain, cached, steps[..n], open);
  }

  // ---- the three caches ----

  ghost const ALL_RECORDS: iset<Operands> := iset ops: Operands | true

  /** A validator before its first `validate`, without and with a cache. */
  function With(m: Machine, c: Cache): Machine {
    m.(cache := c)
  }

  lemma {:induction false} AnyAsk(env: Env, cfg: Config, m: Machine, steps: seq<Step>)
    requires ValidMachine(cfg, m)
    ensures AsksWithin(env, cfg, m, steps, ALL_RECORDS)
    decreases |steps|
  {
    if |steps| > 0 { AnyAsk(env, cfg, Next(env, cfg, m, steps[0]).0, steps[1..]); }
  }

  lemma {:induction false} OnlyMultiExits(env: Env, cfg: Config, m: Machine, steps: seq<Step>)
    requires ValidMachine(cfg, m) && !m.cache.Multi?
    ensures Survives(env, cfg, m, steps)
    decreases |steps|
  {
    if |steps| > 0 { OnlyMultiExits(env, cfg, Next(env, cfg, m, steps[0]).0, steps[1..]); }
  }

  predicate SameRun(a: (Machine, seq<Output>), b: (Machine, seq<Output>)) {
    a.1 == b.1 && a.0.core == b.0.core && a.0.res == b.0.res && a.0.failed == b.0.failed
  }

  /** The ideal cache is invisible on every run. */
  lemma IdealIsInvisible(env: Env, cfg: Config, m: Machine, steps: seq<Step>)
    requires Cacheable(env) && ValidMachine(cfg, m) && Legal(env, cfg, With(m, NoCache), steps, false)
    ensures SameRun(Run(env, cfg, With(m, NoCache), steps), Run(env, cfg, With(m, Ideal(map[])), steps))
  {
    AnyAsk(env, cfg, With(m, NoCache), steps);
    OnlyMultiExits(env, cfg, With(m, Ideal(map[])), steps);
    CacheIsInvisible(env, cfg, Mixture(ALL_RECORDS), With(m, NoCache), With(m, Ideal(map[])), steps, false);
  }

  /** So is the finite cache, whatever its capacity and however it evicts. */
  lemma FiniteIsInvisible(env: Env, cfg: Config, capacity: nat, m: Machine, steps: seq<Step>)
    requires Cacheable(env) && ValidMachine(cfg, m) && Legal(env, cfg, With(m, NoCache), steps, false) && capacity > 0
    ensures SameRun(Run(env, cfg, With(m, NoCache), steps), Run(env, cfg, With(m, Limited(NewFinite(capacity))), steps))
  {
    var limited := With(m, Limited(NewFinite(capacity)));
    AnyAsk(env, cfg, With(m, NoCache), steps);
    OnlyMultiExits(env, cfg, limited, steps);
    CacheIsInvisible(env, cfg, Mixture(ALL_RECORDS), With(m, NoCache), limited, steps, false);
  }

  ghost predicate NewMulti(cfg: Config, w: Wrapper) {
    DmhcSpec.ValidConfig(cfg) && DmhcSpec.IsEmpty(cfg, w.st) && w.exit == 0
  }

  lemma NewMultiGood(env: Env, cfg: Config, f: Family, w: Wrapper)
    requires NewMulti(cfg, w)
    ensures Good(env, cfg, f, Multi(w))
  {
    var masks: seq<Mask> :| |masks| == cfg.capacity && w.st == DmhcSpec.Empty(cfg, masks);
    if f.Mixture? {
      assert CorrectRules(env, f.seen, {}) && MixedInv(cfg, {}, w.st);
    } else {
      DmhcTheorems.EmptyInv(cfg, f.mask, w.st);
    }
  }

  // ---- the ways the process may end ----

  /** A commit that will install a rule. */
  predicate Installs(cfg: Config, m: Machine)
    requires ValidMachine(cfg, m)
  {
    m.cache.Multi? && m.cached && HitOf(cfg, m.cache, m.core.ops).None?
  }

  /** Every rule that the run installs fits: it does not evict the entry it has just recycled and, with assertions,
      there is room for it. Before each commit this can be read off the tables. */
  ghost predicate AllInstallsFit(env: Env, cfg: Config, m: Machine, steps: seq<Step>)
    requires ValidMachine(cfg, m)
    decreases |steps|
  {
    |steps| > 0 ==>
      && (steps[0].DoCommit? && Installs(cfg, m) ==> Fits(cfg, m.cache.wrapper.st, m.core.ops, m.res))
      && AllInstallsFit(env, cfg, Next(env, cfg, m, steps[0]).0, steps[1..])
  }

  /** There is room at both hops of every installation, so that no assertion fails. */
  ghost predicate RoomAlways(env: Env, cfg: Config, m: Machine, steps: seq<Step>)
    requires ValidMachine(cfg, m)
    decreases |steps|
  {
    |steps| > 0 ==>
      && (steps[0].DoCommit? && Installs(cfg, m) ==>
            RoomAtBothHops(cfg, m.cache.wrapper.st, m.core.ops, m.res, MaskOf(m.core.ops)))
      && RoomAlways(env, cfg, Next(env, cfg, m, steps[0]).0, steps[1..])
  }

  /** All records of the family have a pc or a ci tag, or all have the same operands. */
  ghost predicate Tagged(f: Family) {
    f.Mixture? ==> forall q | q in f.seen :: q.pc != BAD_TAG_VALUE || q.ci != BAD_TAG_VALUE
  }

  /** An installation of a family's record that fits does not end the process; without the tags one that does
      not fit may pass all the same. */
  lemma InstallExits(env: Env, cfg: Config, f: Family, st: DmhcSpec.State, ops: Operands, res: Results)
    requires GoodRules(env, cfg, f, st) && ops in Records(f)
    ensures Fits(cfg, st, ops, res) ==> DmhcSpec.ExitCode(cfg, st, ops, res, MaskOf(ops)) == 0
    ensures Tagged(f) ==> (Fits(cfg, st, ops, res) <==> DmhcSpec.ExitCode(cfg, st, ops, res, MaskOf(ops)) == 0)
    ensures f.SameOperands? ==> !EvictsItself(cfg, st, ops, res)
  {
    if f.Mixture? {
      var rules :| CorrectRules(env, f.seen, rules) && MixedInv(cfg, rules, st);
      if Fits(cfg, st, ops, res) { FitsSuffices(cfg, rules, st, ops, res); }
      if Tagged(f) { ExitIff(cfg, rules, st, ops, res); }
    } else {
      OneMaskNoStale(cfg, f.mask, st);
      NoStalePasses(cfg, st, ops, res);
      OneMaskExitIff(cfg, f.mask, st, ops, res);
    }
  }

  /** A commit ends the process exactly when it installs a rule that does not fit. */
  lemma CommitSurvivesIff(env: Env, cfg: Config, f: Family, plain: Machine, cached: Machine)
    requires Cacheable(env) && Related(env, cfg, f, plain, cached, true) && !Exited(cached.cache) && Tagged(f)
    ensures !Exited(Commit(env, cfg, cached).0.cache)
            <==> (Installs(cfg, cached) ==> Fits(cfg, cached.cache.wrapper.st, cached.core.ops, cached.res))
  {
    if Installs(cfg, cached) { InstallExits(env, cfg, f, cached.cache.wrapper.st, cached.core.ops, cached.res); }
  }

  /** Only such a commit ends the process. */
  lemma NextSurvivesIff(env: Env, cfg: Config, f: Family, plain: Machine, cached: Machine, s: Step)
    requires Cacheable(env) && Related(env, cfg, f, plain, cached, s.DoCommit?) && !Exited(cached.cache) && Tagged(f)
    ensures !Exited(Next(env, cfg, cached, s).0.cache)
            <==> (s.DoCommit? && Installs(cfg, cached) ==>
                    Fits(cfg, cached.cache.wrapper.st, cached.core.ops, cached.res))
  {
    if s.DoCommit? { CommitSurvivesIff(env, cfg, f, plain, cached); }
  }

  /** The process survives a run exactly when all rules it installs fit. */
  lemma {:induction false} SurvivesIff(env: Env, cfg: Config, f: Family, plain: Machine, cached: Machine,
                                       steps: seq<Step>, open: bool)
    requires Cacheable(env) && Related(env, cfg, f, plain, cached, open) && !Exited(cached.cache) && Tagged(f)
    requires Legal(env, cfg, plain, steps, open) && AsksWithin(env, cfg, plain, steps, Records(f))
    ensures Survives(env, cfg, cached, steps)
            <==> AllInstallsFit(env, cfg, cached, steps)
    decreases |steps|
  {
    if |steps| > 0 {
      var s := steps[0];
      NextRelated(env, cfg, f, plain, cached, s, open);
      NextSurvivesIff(env, cfg, f, plain, cached, s);
      var p, c := Next(env, cfg, plain, s), Next(env, cfg, cached, s);
      if !Exited(c.0.cache) { SurvivesIff(env, cfg, f, p.0, c.0, steps[1..], OpenAfter(s, p.1, open)); }
    }
  }

  lemma CommitSafe(env: Env, cfg: Config, f: Family, plain: Machine, cached: Machine)
    requires Cacheable(env) && Related(env, cfg, f, plain, cached, true) && !Exited(cached.cache)
    requires Installs(cfg, cached) ==> Fits(cfg, cached.cache.wrapper.st, cached.core.ops, cached.res)
    ensures !Exited(Commit(env, cfg, cached).0.cache)
  {
    if Installs(cfg, cached) { InstallExits(env, cfg, f, cached.cache.wrapper.st, cached.core.ops, cached.res); }
  }

  lemma NextSafe(env: Env, cfg: Config, f: Family, plain: Machine, cached: Machine, s: Step)
    requires Cacheable(env) && Related(env, cfg, f, plain, cached, s.DoCommit?) && !Exited(cached.cache)
    requires s.DoCommit? && Installs(cfg, cached) ==> Fits(cfg, cached.cache.wrapper.st, cached.core.ops, cached.res)
    ensures !Exited(Next(env, cfg, cached, s).0.cache)
  {
    if s.DoCommit? { CommitSafe(env, cfg, f, plain, cached); }
  }

  /** One direction needs no tags. */
  lemma {:induction false} SafeSurvives(env: Env, cfg: Config, f: Family, plain: Machine, cached: Machine,
                                        steps: seq<Step>, open: bool)
    requires Cacheable(env) && Related(env, cfg, f, plain, cached, open) && !Exited(cached.cache)
    requires Legal(env, cfg, plain, steps, open) && AsksWithin(env, cfg, plain, steps, Records(f))
    requires AllInstallsFit(env, cfg, cached, steps)
    ensures Survives(env, cfg, cached, steps)
    decreases |steps|
  {
    if |steps| > 0 {
      var s := steps[0];
      NextRelated(env, cfg, f, plain, cached, s, open);
      NextSafe(env, cfg, f, plain, cached, s);
      var p, c := Next(env, cfg, plain, s), Next(env, cfg, cached, s);
      SafeSurvives(env, cfg, f, p.0, c.0, steps[1..], OpenAfter(s, p.1, open));
    }
  }

  /** A sufficient condition on the tables: at each installation, every slot that names the entry to be
      recycled belongs to the key stored there. */
  ghost predicate NeverStale(env: Env, cfg: Config, m: Machine, steps: seq<Step>)
    requires ValidMachine(cfg, m)
    decreases |steps|
  {
    |steps| > 0 ==>
      && (steps[0].DoCommit? && Installs(cfg, m) ==> NoStaleName(cfg, m.cache.wrapper.st))
      && NeverStale(env, cfg, Next(env, cfg, m, steps[0]).0, steps[1..])
  }

  lemma {:induction false} NeverStaleSuffices(env: Env, cfg: Config, m: Machine, steps: seq<Step>)
    requires ValidMachine(cfg, m) && NeverStale(env, cfg, m, steps)
    requires cfg.asserts ==> RoomAlways(env, cfg, m, steps)
    ensures AllInstallsFit(env, cfg, m, steps)
    decreases |steps|
  {
    if |steps| > 0 {
      if steps[0].DoCommit? && Installs(cfg, m) { NoStalePasses(cfg, m.cache.wrapper.st, m.core.ops, m.res); }
      NeverStaleSuffices(env, cfg, Next(env, cfg, m, steps[0]).0, steps[1..]);
    }
  }

  lemma NewRelated(env: Env, cfg: Config, f: Family, w: Wrapper, m: Machine)
    requires NewMulti(cfg, w) && ValidMachine(cfg, With(m, Multi(w))) && Suits(f, Multi(w))
    ensures Related(env, cfg, f, With(m, NoCache), With(m, Multi(w)), false)
  {
    NewMultiGood(env, cfg, f, w);
  }

  /** The multi-hash cache is invisible on every run in which no queried record contains another one and all
      installed rules fit; then the process survives. */
  lemma MultiIsInvisible(env: Env, cfg: Config, seen: iset<Operands>, w: Wrapper, m: Machine, steps: seq<Step>)
    requires Cacheable(env) && NewMulti(cfg, w) && ValidMachine(cfg, With(m, Multi(w))) && Incomparable(seen)
    requires Legal(env, cfg, With(m, NoCache), steps, false) && AsksWithin(env, cfg, With(m, NoCache), steps, seen)
    requires AllInstallsFit(env, cfg, With(m, Multi(w)), steps)
    ensures Survives(env, cfg, With(m, Multi(w)), steps)
    ensures SameRun(Run(env, cfg, With(m, NoCache), steps), Run(env, cfg, With(m, Multi(w)), steps))
  {
    var f := Mixture(seen);
    NewRelated(env, cfg, f, w, m);
    SafeSurvives(env, cfg, f, With(m, NoCache), With(m, Multi(w)), steps, false);
    CacheIsInvisible(env, cfg, f, With(m, NoCache), With(m, Multi(w)), steps, false);
  }

  // ---- one mask ----

  lemma CommitOneMask(env: Env, cfg: Config, mask: Mask, plain: Machine, cached: Machine)
    requires Cacheable(env) && Related(env, cfg, SameOperands(mask), plain, cached, true) && !Exited(cached.cache)
    ensures !Exited(Commit(env, cfg, cached).0.cache)
            <==> (Installs(cfg, cached) && cfg.asserts ==>
                    RoomAtBothHops(cfg, cached.cache.wrapper.st, cached.core.ops, cached.res, MaskOf(cached.core.ops)))
  {
    CommitSurvivesIff(env, cfg, SameOperands(mask), plain, cached);
    if Installs(cfg, cached) {
      InstallExits(env, cfg, SameOperands(mask), cached.cache.wrapper.st, cached.core.ops, cached.res);
    }
  }

  lemma NextOneMask(env: Env, cfg: Config, mask: Mask, plain: Machine, cached: Machine, s: Step)
    requires Cacheable(env) && Related(env, cfg, SameOperands(mask), plain, cached, s.DoCommit?)
    requires !Exited(cached.cache)
    ensures !Exited(Next(env, cfg, cached, s).0.cache)
            <==> (s.DoCommit? && Installs(cfg, cached) && cfg.asserts ==>
                    RoomAtBothHops(cfg, cached.cache.wrapper.st, cached.core.ops, cached.res, MaskOf(cached.core.ops)))
  {
    if s.DoCommit? { CommitOneMask(env, cfg, mask, plain, cached); }
  }

  /** When all records have the same operands, the process survives every run if assertions are compiled out, and
      otherwise exactly those in which every installation finds room: the self-check never ends it. */
  lemma {:induction false} OneMaskSurvivesIff(env: Env, cfg: Config, mask: Mask, plain: Machine, cached: Machine,
                                              steps: seq<Step>, open: bool)
    requires Cacheable(env) && Related(env, cfg, SameOperands(mask), plain, cached, open) && !Exited(cached.cache)
    requires Legal(env, cfg, plain, steps, open) && AsksWithin(env, cfg, plain, steps, Records(SameOperands(mask)))
    ensures Survives(env, cfg, cached, steps) <==> (cfg.asserts ==> RoomAlways(env, cfg, cached, steps))
    decreases |steps|
  {
    if |steps| > 0 {
      var s := steps[0];
      NextRelated(env, cfg, SameOperands(mask), plain, cached, s, open);
      NextOneMask(env, cfg, mask, plain, cached, s);
      var p, c := Next(env, cfg, plain, s), Next(env, cfg, cached, s);
      if !Exited(c.0.cache) { OneMaskSurvivesIff(env, cfg, mask, p.0, c.0, steps[1..], OpenAfter(s, p.1, open)); }
    }
  }

  /** For records that all have the same operands, the multi-hash cache is invisible on every run that the process
      survives: every run if assertions are compiled out, and otherwise every run with room at all installations. */
  lemma OneMaskIsInvisible(env: Env, cfg: Config, mask: Mask, w: Wrapper, m: Machine, steps: seq<Step>)
    requires Cacheable(env) && NewMulti(cfg, w) && ValidMachine(cfg, With(m, Multi(w)))
    requires Legal(env, cfg, With(m, NoCache), steps, false)
    requires AsksWithin(env, cfg, With(m, NoCache), steps, Records(SameOperands(mask)))
    ensures var survives := Survives(env, cfg, With(m, Multi(w)), steps);
            && (survives <==> (cfg.asserts ==> RoomAlways(env, cfg, With(m, Multi(w)), steps)))
            && (survives ==> SameRun(Run(env, cfg, With(m, NoCache), steps), Run(env, cfg, With(m, Multi(w)), steps)))
  {
    var f := SameOperands(mask);
    NewRelated(env, cfg, f, w, m);
    OneMaskSurvivesIff(env, cfg, mask, With(m, NoCache), With(m, Multi(w)), steps, false);
    if Survives(env, cfg, With(m, Multi(w)), steps) {
      CacheIsInvisible(env, cfg, f, With(m, NoCache), With(m, Multi(w)), steps, false);
    }
  }

  // ---- the cache does its work ----

  /** After a commit of a cacheable outcome the cache answers for its operands, with the committed result
      if it had no answer before; so the same operands are not evaluated again. */
  lemma CommitRemembers(env: Env, cfg: Config, m: Machine)
    requires ValidMachine(cfg, m) && m.cached && !m.cache.NoCache? && !Exited(Commit(env, cfg, m).0.cache)
    ensures var before, after := HitOf(cfg, m.cache, m.core.ops), HitOf(cfg, Commit(env, cfg, m).0.cache, m.core.ops);
            after == if before.Some? then before else Some(m.res)
  {
    RememberHits(cfg, m.(core := Apply(env, m.core, m.res).0));
  }

  lemma RememberHits(cfg: Config, m: Machine)
    requires ValidMachine(cfg, m) && m.cached && !m.cache.NoCache? && !Exited(Remember(cfg, m).cache)
    ensures var before, after := HitOf(cfg, m.cache, m.core.ops), HitOf(cfg, Remember(cfg, m).cache, m.core.ops);
            after == if before.Some? then before else Some(m.res)
  {}

  /** A flushed cache answers nothing. */
  lemma FlushForgets(cfg: Config, c: Cache, ops: Operands)
    requires ValidCache(cfg, c)
    ensures HitOf(cfg, AfterFlush(cfg, c), ops) == None
  {
    if c.Multi? {
      var st := DmhcSpec.Reset(cfg, c.wrapper.st);
      assert DmhcSpec.CellAt(st, DmhcSpec.Hashes(cfg, ops), 0).cnt == 0;
    }
  }
}
