/** Runs of `dmhc_t` as its wrapper drives it: every call derives its mask from its own operands,
    so rules with different masks share the tables. Exact-key soundness then fails; these lemmas
    say what still holds for every run, and exactly when a wrong rule can be returned. */
module DmhcMixed {
  import opened Wrappers
  import opened RiscvIsa
  import opened DmhcSpec
  import opened DmhcInvariant
  import opened DmhcTheorems

  /** The `consider` array `dmhc_rule_cache_t::allow` computes. */
  function MaskOf(ops: Operands): Mask {
    [true, true, ops.op1 != BAD_TAG_VALUE, ops.op2 != BAD_TAG_VALUE, ops.op3 != BAD_TAG_VALUE, ops.mem != BAD_TAG_VALUE]
  }

  /** `k` agrees with `q` on every field that a query for `q` compares. */
  predicate Extends(k: Operands, q: Operands) {
    Matches(MaskOf(q), k, q)
  }

  /** The pc and ci tags of `k` are those of `whole`, and so is every operand that is not zero. */
  predicate PartOf(k: Operands, whole: Operands) {
    && k.pc == whole.pc && k.ci == whole.ci
    && (k.op1 == 0 || k.op1 == whole.op1) && (k.op2 == 0 || k.op2 == whole.op2)
    && (k.op3 == 0 || k.op3 == whole.op3) && (k.mem == 0 || k.mem == whole.mem)
  }

  ghost predicate FromInstalled(installed: set<(Operands, Results)>, key: Operands, out: Results) {
    exists whole :: (whole, out) in installed && PartOf(key, whole)
  }

  predicate Blank(e: Entry) {
    e.key == ZERO_OPERANDS && e.out == ZERO_RESULTS
  }

  /** A live entry holds part of an installed key with that key's result, or nothing at all, because a stale
      last inserter can revive a dead entry; a dead entry is blank. */
  ghost predicate MixedEntry(installed: set<(Operands, Results)>, e: Entry) {
    Blank(e) || (e.used && FromInstalled(installed, e.key, e.out))
  }

  /** Last inserters name entries whose mask considers the pc and ci tags. */
  ghost predicate MixedInv(cfg: Config, installed: set<(Operands, Results)>, st: State) {
    && ValidConfig(cfg) && WellFormed(cfg, st)
    && (forall a | 0 <= a < |st.m| :: MixedEntry(installed, st.m[a]))
    && (forall i, s | 0 <= i < cfg.k && 0 <= s < cfg.slots ::
          st.g[i][s].last != INVALID_LAST_USER ==> st.m[st.g[i][s].last].mask[0] && st.m[st.g[i][s].last].mask[1])
  }

  lemma EvictMixed(cfg: Config, installed: set<(Operands, Results)>, st: State, addr: nat, guard: Option<seq<nat>>)
    requires MixedInv(cfg, installed, st) && addr < cfg.capacity
    ensures MixedInv(cfg, installed, Evict(cfg, st, addr, guard))
  {
    var st' := Evict(cfg, st, addr, guard);
    assert forall a | 0 <= a < |st.m| :: st'.m[a].mask == st.m[a].mask;
  }

  lemma RealInsertMixed(cfg: Config, installed: set<(Operands, Results)>, st: State, addr: nat, ops: Operands,
                        res: Results, free: nat, mask: Mask)
    requires MixedInv(cfg, installed, st) && addr < cfg.capacity && mask[0] && mask[1]
    requires MixedEntry(installed, Entry(true, Merge(mask, st.m[addr].key, ops), res, mask))
    ensures MixedInv(cfg, installed, RealInsert(cfg, st, addr, ops, res, free, mask))
  {}

  /** Choosing a slot keeps the invariant; its victim has a usable mask and was stored as reported. */
  lemma PrepareMixed(cfg: Config, installed: set<(Operands, Results)>, st: State, key: Operands,
                     guard: Option<seq<nat>>)
    requires MixedInv(cfg, installed, st)
    ensures var p := Prepare(cfg, st, key, guard);
            && MixedInv(cfg, installed, p.room.st)
            && (p.room.victim.None? ==> p.room.st == st)
            && (p.room.victim.Some? ==>
                  var v := p.room.victim.value;
                  && v.mask[0] && v.mask[1]
                  && st.m[v.addr].key == v.key && st.m[v.addr].out == v.out
                  && p.room.st == Evict(cfg, st, v.addr, guard))
  {
    var hs := Hashes(cfg, key);
    var min := MinUse(st, hs, guard, cfg.k);
    if FreeSlot(st, hs, 0) == -1 && min != -1 {
      var c := CellAt(st, hs, min);
      assert c == st.g[min][hs[min]];
      if c.last != INVALID_LAST_USER { EvictMixed(cfg, installed, st, c.last, guard); }
    }
  }

  /** Part of a stored key is as good as the key. */
  lemma PartStored(installed: set<(Operands, Results)>, key: Operands, out: Results, mask: Mask, part: Operands,
                   mask': Mask)
    requires MixedEntry(installed, Entry(true, key, out, mask)) && part == Merge(mask', ZERO_OPERANDS, key)
    requires mask'[0] && mask'[1]
    ensures MixedEntry(installed, Entry(true, part, out, mask'))
  {
    assert PartOf(part, key);
    if FromInstalled(installed, key, out) {
      var whole :| (whole, out) in installed && PartOf(key, whole);
      assert PartOf(part, whole);
    }
  }

  /** Re-homing into a blank entry stores part of the victim's key. */
  lemma RehomeMixed(cfg: Config, installed: set<(Operands, Results)>, st: State, v: Victim, guard: Option<seq<nat>>)
    requires MixedInv(cfg, installed, st) && v.addr < cfg.capacity && v.mask[0] && v.mask[1]
    requires MixedEntry(installed, Entry(true, v.key, v.out, v.mask)) && Blank(st.m[v.addr])
    ensures MixedInv(cfg, installed, Place(cfg, st, v.addr, v.key, v.out, v.mask, guard).st)
  {
    PrepareMixed(cfg, installed, st, v.key, guard);
    var prep := Prepare(cfg, st, v.key, guard);
    if prep.free != -1 {
      var mask := StoredMask(v.mask, guard, prep.room);
      var stored := Merge(mask, ZERO_OPERANDS, v.key);
      assert Blank(prep.room.st.m[v.addr]);
      PartStored(installed, v.key, v.out, v.mask, stored, mask);
      RealInsertMixed(cfg, installed, prep.room.st, v.addr, v.key, v.out, prep.free, mask);
    }
  }

  /** Re-homing a blank victim over the rule just stored: when the lookup still finds the rule, what is left in
      the entry is part of it. */
  lemma RehomeOverMixed(cfg: Config, installed: set<(Operands, Results)>, st: State, v: Victim, ops: Operands,
                        res: Results)
    requires MixedInv(cfg, installed, st) && Resolves(cfg, st, ops, v.addr) && v.mask[0] && v.mask[1]
    requires v.key == ZERO_OPERANDS && v.out == ZERO_RESULTS
    requires st.m[v.addr] == Entry(true, ops, res, MaskOf(ops)) && (ops, res) in installed
    requires var p := Place(cfg, st, v.addr, v.key, v.out, v.mask, Some(Hashes(cfg, ops)));
             Lookup(cfg, p.st, ops, MaskOf(ops)) == Some(res)
    ensures MixedInv(cfg, installed, Place(cfg, st, v.addr, v.key, v.out, v.mask, Some(Hashes(cfg, ops))).st)
  {
    var guard, e := Some(Hashes(cfg, ops)), v.addr;
    var st' := Place(cfg, st, e, v.key, v.out, v.mask, guard).st;
    PlaceKeepsGuarded(cfg, st, e, v.key, v.out, v.mask, ops, e);
    PrepareMixed(cfg, installed, st, v.key, guard);
    var prep := Prepare(cfg, st, v.key, guard);
    if prep.free == -1 {
      GivingUpNewRuleFails(cfg, st, e, ops);
      assert false;
    } else {
      var mask := StoredMask(v.mask, guard, prep.room);
      var old_entry := prep.room.st.m[e];
      assert st'.m[e] == Entry(true, Merge(mask, old_entry.key, ZERO_OPERANDS), ZERO_RESULTS, mask);
      assert Matches(MaskOf(ops), st'.m[e].key, ops) && res == ZERO_RESULTS;
      assert Blank(old_entry) || old_entry.key == ops;
      assert old_entry.key == ops ==> PartOf(st'.m[e].key, ops);
      RealInsertMixed(cfg, installed, prep.room.st, e, v.key, v.out, prep.free, mask);
    }
  }

  lemma MoreInstalled(cfg: Config, installed: set<(Operands, Results)>, more: set<(Operands, Results)>, st: State)
    requires MixedInv(cfg, installed, st) && installed <= more
    ensures MixedInv(cfg, more, st)
  {
    forall a | 0 <= a < |st.m| ensures MixedEntry(more, st.m[a]) {
      assert MixedEntry(installed, st.m[a]);
    }
  }

  lemma VacateMixed(cfg: Config, installed: set<(Operands, Results)>, st: State)
    requires MixedInv(cfg, installed, st)
    ensures MixedInv(cfg, installed, Vacate(cfg, st)) && Blank(Vacate(cfg, st).m[st.next])
  {
    var next := st.(next := if st.next + 1 >= cfg.capacity then 1 else st.next + 1);
    assert MixedEntry(installed, st.m[st.next]);
    if st.m[st.next].used { EvictMixed(cfg, installed, next, st.next, None); }
  }

  /** Hop 0 stores the new rule whole, and a query for it leads there. */
  lemma PlaceMixed(cfg: Config, installed: set<(Operands, Results)>, st: State, e: nat, ops: Operands, res: Results)
    requires MixedInv(cfg, installed, st) && e < cfg.capacity && Blank(st.m[e])
    requires (ops, res) in installed
    ensures var p := Place(cfg, st, e, ops, res, MaskOf(ops), None);
            && MixedInv(cfg, installed, p.st)
            && Resolves(cfg, p.st, ops, e)
            && p.st.m[e] == Entry(true, ops, res, MaskOf(ops))
            && (p.victim.Some? ==>
                  var v := p.victim.value;
                  && v.mask[0] && v.mask[1]
                  && v.key == st.m[v.addr].key && v.out == st.m[v.addr].out
                  && (v.addr != e ==> Blank(p.st.m[v.addr])))
  {
    PrepareMixed(cfg, installed, st, ops, None);
    var prep := Prepare(cfg, st, ops, None);
    assert !Guarded(None, Hashes(cfg, ops), 0);
    assert Merge(MaskOf(ops), ZERO_OPERANDS, ops) == ops && PartOf(ops, ops);
    RealInsertMixed(cfg, installed, prep.room.st, e, ops, res, prep.free, MaskOf(ops));
    RealInsertResolves(cfg, prep.room.st, e, ops, res, prep.free, MaskOf(ops));
  }

  /** Giving up on the very entry just filled leaves a path to a dead entry: the self-check fails. */
  lemma GivingUpNewRuleFails(cfg: Config, st: State, e: nat, ops: Operands)
    requires Resolves(cfg, st, ops, e)
    ensures Lookup(cfg, st.(m := st.m[e := st.m[e].(used := false)]), ops, MaskOf(ops)) == None
  {
    SameAddress(st, st.(m := st.m[e := st.m[e].(used := false)]), Hashes(cfg, ops), cfg.k);
  }

  /** An insertion whose self-check passes keeps the invariant, whatever masks are stored. */
  lemma InsertMixed(cfg: Config, installed: set<(Operands, Results)>, st: State, ops: Operands, res: Results)
    requires MixedInv(cfg, installed, st)
    requires Lookup(cfg, Insert(cfg, st, ops, res, MaskOf(ops)), ops, MaskOf(ops)) == Some(res)
    ensures MixedInv(cfg, installed + {(ops, res)}, Insert(cfg, st, ops, res, MaskOf(ops)))
  {
    var e := st.next;
    var installed' := installed + {(ops, res)};
    MoreInstalled(cfg, installed, installed', st);
    VacateMixed(cfg, installed', st);
    var st1 := Vacate(cfg, st);
    PlaceMixed(cfg, installed', st1, e, ops, res);
    var p := Place(cfg, st1, e, ops, res, MaskOf(ops), None);
    if p.victim.Some? {
      var v := p.victim.value;
      assert MixedEntry(installed', st1.m[v.addr]);
      if v.addr == e {
        RehomeOverMixed(cfg, installed', p.st, v, ops, res);
      } else {
        RehomeMixed(cfg, installed', p.st, v, Some(Hashes(cfg, ops)));
      }
    }
  }

  // ---- whole runs ----

  predicate WrapperOp(op: Op) {
    op.OpReset? || op.mask == MaskOf(op.ops)
  }

  ghost predicate WrapperRun(cfg: Config, masks: seq<Mask>, trace: seq<Op>) {
    && ValidConfig(cfg) && |masks| == cfg.capacity
    && forall op | op in trace :: WrapperOp(op)
  }

  /** No insertion of the run has failed its self-check, so the process is still running. */
  predicate ChecksPass(cfg: Config, masks: seq<Mask>, trace: seq<Op>)
    requires ValidConfig(cfg) && |masks| == cfg.capacity
  {
    trace == [] ||
    (var op := trace[|trace| - 1];
     && ChecksPass(cfg, masks, trace[..|trace| - 1])
     && (op.OpInsert? ==> Lookup(cfg, Run(cfg, masks, trace), op.ops, op.mask) == Some(op.res)))
  }

  lemma {:induction false} MixedRunInvariant(cfg: Config, masks: seq<Mask>, trace: seq<Op>)
    requires WrapperRun(cfg, masks, trace) && ChecksPass(cfg, masks, trace)
    ensures MixedInv(cfg, Installed(trace), Run(cfg, masks, trace))
  {
    if trace != [] {
      var prefix := trace[..|trace| - 1];
      var op := trace[|trace| - 1];
      MixedRunInvariant(cfg, masks, prefix);
      assert WrapperOp(op);
      if op.OpInsert? { InsertMixed(cfg, Installed(prefix), Run(cfg, masks, prefix), op.ops, op.res); }
    }
  }

  /** A hit's result was installed for a record that agrees with the query on every field it has. The query
      without any tag can also find an entry that holds nothing. */
  lemma MixedHit(cfg: Config, installed: set<(Operands, Results)>, st: State, q: Operands)
    requires MixedInv(cfg, installed, st)
    ensures var hit := Lookup(cfg, st, q, MaskOf(q));
            hit.Some? ==> (exists k :: (k, hit.value) in installed && Extends(k, q))
                          || (q == ZERO_OPERANDS && hit.value == ZERO_RESULTS)
  {
    if Lookup(cfg, st, q, MaskOf(q)).Some? {
      var e := st.m[Address(st, Hashes(cfg, q), cfg.k)];
      assert MixedEntry(installed, e);
      if !Blank(e) {
        var whole :| (whole, e.out) in installed && PartOf(e.key, whole);
        assert Extends(whole, q);
      }
    }
  }

  /** What a hit means in any run, with any mixture of masks: its result was installed, since the
      last reset, for a record that agrees with the query on every field the query has. */
  lemma MixedRunSound(cfg: Config, masks: seq<Mask>, trace: seq<Op>, q: Operands)
    requires WrapperRun(cfg, masks, trace) && ChecksPass(cfg, masks, trace)
    ensures var hit := Lookup(cfg, Run(cfg, masks, trace), q, MaskOf(q));
            hit.Some? ==> (exists k :: (k, hit.value) in Installed(trace) && Extends(k, q))
                          || (q == ZERO_OPERANDS && hit.value == ZERO_RESULTS)
  {
    MixedRunInvariant(cfg, masks, trace);
    MixedHit(cfg, Installed(trace), Run(cfg, masks, trace), q);
  }

  /** So the hit is for exactly the queried record unless the run installed a record with more
      operands that contains it. Runs whose records all have the same operands are one case. */
  lemma MixedRunExact(cfg: Config, masks: seq<Mask>, trace: seq<Op>, q: Operands)
    requires WrapperRun(cfg, masks, trace) && ChecksPass(cfg, masks, trace)
    requires forall rule | rule in Installed(trace) :: Extends(rule.0, q) ==> rule.0 == q
    ensures var hit := Lookup(cfg, Run(cfg, masks, trace), q, MaskOf(q));
            hit.Some? ==> (q, hit.value) in Installed(trace) || (q == ZERO_OPERANDS && hit.value == ZERO_RESULTS)
  {
    MixedRunSound(cfg, masks, trace, q);
  }

  /** The first insertion after a reset claims the first table's slot for entry 1. */
  lemma FirstInsert(cfg: Config, masks: seq<Mask>, k: Operands, res: Results)
    requires ValidConfig(cfg) && |masks| == cfg.capacity
    ensures var st := Run(cfg, masks, [OpInsert(k, res, MaskOf(k))]);
            && Resolves(cfg, st, k, 1)
            && st.m[1] == Entry(true, k, res, MaskOf(k))
            && forall i, s | 0 <= i < cfg.k && 0 <= s < cfg.slots && s != cfg.hash(i, k) :: st.g[i][s].cnt == 0
  {
    var trace := [OpInsert(k, res, MaskOf(k))];
    var empty := Empty(cfg, masks);
    assert trace[..0] == [] && Run(cfg, masks, []) == empty;
    assert Run(cfg, masks, trace) == Insert(cfg, empty, k, res, MaskOf(k));
    var st1 := Vacate(cfg, empty);
    assert CellAt(st1, Hashes(cfg, k), 0).cnt == 0;
    assert FreeSlot(st1, Hashes(cfg, k), 0) == 0;
    assert Merge(MaskOf(k), ZERO_OPERANDS, k) == k;
    RealInsertResolves(cfg, st1, 1, k, res, 0, MaskOf(k));
  }

  /** After installing one rule for `k`, a query for `q` is answered with it
      exactly when `k` contains `q` and the two collide in every table. */
  lemma FalseHitIff(cfg: Config, masks: seq<Mask>, k: Operands, res: Results, q: Operands)
    requires ValidConfig(cfg) && |masks| == cfg.capacity
    ensures Lookup(cfg, Run(cfg, masks, [OpInsert(k, res, MaskOf(k))]), q, MaskOf(q))
            == if Extends(k, q) && Hashes(cfg, q) == Hashes(cfg, k) then Some(res) else None
  {
    FirstInsert(cfg, masks, k, res);
    if Hashes(cfg, q) != Hashes(cfg, k) {
      var i :| 0 <= i < cfg.k && Hashes(cfg, q)[i] != Hashes(cfg, k)[i];
      assert CellAt(Run(cfg, masks, [OpInsert(k, res, MaskOf(k))]), Hashes(cfg, q), i).cnt == 0;
    }
  }
}
