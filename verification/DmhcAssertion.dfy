/** The assertion in `dmhc_t::real_insert` that the chosen slot is unused, which the configured build keeps:
    exactly when an insertion passes it, and exactly which runs end the process. */
module DmhcAssertion {
  import opened Wrappers
  import opened RiscvIsa
  import opened DmhcSpec
  import opened DmhcInvariant
  import opened DmhcTheorems
  import opened DmhcMixed
  import opened DmhcSelfCheck

  // ---- one level ----

  /** The first of the least used slots is chosen. */
  lemma {:induction false} MinUseIsFirst(st: State, hs: seq<nat>, guard: Option<seq<nat>>, n: nat, i: nat)
    requires InTables(st, hs) && n <= |hs| && MinUse(st, hs, guard, n) > i && !Guarded(guard, hs, i)
    ensures CellAt(st, hs, MinUse(st, hs, guard, n)).cnt < CellAt(st, hs, i).cnt
  {
    var best := MinUse(st, hs, guard, n - 1);
    if MinUse(st, hs, guard, n) == best {
      MinUseIsFirst(st, hs, guard, n - 1, i);
    } else {
      MinUseIsLeast(st, hs, guard, n - 1, i);
    }
  }

  lemma {:induction false} MinUseIsLeast(st: State, hs: seq<nat>, guard: Option<seq<nat>>, n: nat, i: nat)
    requires InTables(st, hs) && i < n <= |hs| && !Guarded(guard, hs, i)
    ensures var r := MinUse(st, hs, guard, n); r != -1 && CellAt(st, hs, r).cnt <= CellAt(st, hs, i).cnt
  {
    if i < n - 1 { MinUseIsLeast(st, hs, guard, n - 1, i); }
    if MinUse(st, hs, guard, n - 1) != -1 && i == n - 1 {
      assert MinUse(st, hs, guard, n) != -1;
    }
  }

  /** `victim` is the only counted user of one of the slots for `key` that may be overwritten. */
  predicate SoleUser(cfg: Config, st: State, key: Operands, guard: Option<seq<nat>>, victim: Operands)
    requires InTables(st, Hashes(cfg, key))
  {
    var hs := Hashes(cfg, key);
    exists i | 0 <= i < cfg.k :: !Guarded(guard, hs, i) && CellAt(st, hs, i).cnt == 1 && cfg.hash(i, victim) == hs[i]
  }

  /** There is an unused slot for the rule, or all its slots are guarded so that it is given up, or evicting the
      last inserter of the least used slot leaves one unused. */
  predicate RoomFor(cfg: Config, st: State, key: Operands, guard: Option<seq<nat>>)
    requires ValidConfig(cfg) && WellFormed(cfg, st)
  {
    var hs := Hashes(cfg, key);
    var min := MinUse(st, hs, guard, cfg.k);
    || FreeSlot(st, hs, 0) != -1
    || min == -1
    || (var last := CellAt(st, hs, min).last;
        last != INVALID_LAST_USER && SoleUser(cfg, st, key, guard, st.m[last].key))
  }

  /** What evicting entry `last` does to the slots of `key` that may be overwritten. */
  lemma EvictCounts(cfg: Config, st: State, key: Operands, guard: Option<seq<nat>>, last: nat, i: nat)
    requires ValidConfig(cfg) && WellFormed(cfg, st) && last < cfg.capacity && i < cfg.k
    requires !Guarded(guard, Hashes(cfg, key), i) && CellAt(st, Hashes(cfg, key), i).cnt > 0
    ensures var hs, st' := Hashes(cfg, key), Evict(cfg, st, last, guard);
            CellAt(st', hs, i).cnt == 0
            <==> CellAt(st, hs, i).cnt == 1 && cfg.hash(i, st.m[last].key) == hs[i]
  {
    var hs, vs := Hashes(cfg, key), Hashes(cfg, st.m[last].key);
    if vs[i] == hs[i] {
      assert Guarded(guard, vs, i) == Guarded(guard, hs, i);
    }
  }

  /** The assertion holds exactly when there is room, which can be read off the tables before the call. */
  lemma PlaceAssertsIff(cfg: Config, st: State, key: Operands, guard: Option<seq<nat>>)
    requires ValidConfig(cfg) && WellFormed(cfg, st)
    ensures PlaceAsserts(cfg, st, key, guard) <==> RoomFor(cfg, st, key, guard)
  {
    var hs := Hashes(cfg, key);
    var min := MinUse(st, hs, guard, cfg.k);
    FreeSlotIsFree(st, hs, 0);
    if FreeSlot(st, hs, 0) == -1 && min != -1 {
      var last := CellAt(st, hs, min).last;
      if last != INVALID_LAST_USER { EvictedRoomIff(cfg, st, key, guard, last); }
    }
  }

  lemma EvictedRoomIff(cfg: Config, st: State, key: Operands, guard: Option<seq<nat>>, last: nat)
    requires ValidConfig(cfg) && WellFormed(cfg, st) && last < cfg.capacity
    requires forall i | 0 <= i < cfg.k :: CellAt(st, Hashes(cfg, key), i).cnt != 0
    requires MinUse(st, Hashes(cfg, key), guard, cfg.k) != -1
    ensures var hs, st' := Hashes(cfg, key), Evict(cfg, st, last, guard);
            var min := MinUse(st', hs, guard, cfg.k);
            min != -1 && (CellAt(st', hs, min).cnt == 0 <==> SoleUser(cfg, st, key, guard, st.m[last].key))
  {
    var hs, st' := Hashes(cfg, key), Evict(cfg, st, last, guard);
    var min := MinUse(st', hs, guard, cfg.k);
    assert !Guarded(guard, hs, min);
    EvictCounts(cfg, st, key, guard, last, min);
    if SoleUser(cfg, st, key, guard, st.m[last].key) {
      var i :| 0 <= i < cfg.k && !Guarded(guard, hs, i) && CellAt(st, hs, i).cnt == 1
               && cfg.hash(i, st.m[last].key) == hs[i];
      EvictCounts(cfg, st, key, guard, last, i);
      MinUseIsLeast(st', hs, guard, cfg.k, i);
    }
  }

  /** With one mask the least used slot alone decides: there is an unused slot, or all slots are guarded, or the
      least count is 1 and its inserter is known. */
  lemma OneMaskRoomIff(cfg: Config, mask: Mask, st: State, key: Operands, guard: Option<seq<nat>>)
    requires Inv(cfg, mask, st)
    ensures var hs := Hashes(cfg, key);
            var min := MinUse(st, hs, guard, cfg.k);
            RoomFor(cfg, st, key, guard)
            <==> || FreeSlot(st, hs, 0) != -1
                 || min == -1
                 || (CellAt(st, hs, min).cnt == 1 && CellAt(st, hs, min).last != INVALID_LAST_USER)
  {
    var hs := Hashes(cfg, key);
    var min := MinUse(st, hs, guard, cfg.k);
    FreeSlotIsFree(st, hs, 0);
    if FreeSlot(st, hs, 0) == -1 && min != -1 {
      var last := CellAt(st, hs, min).last;
      assert CellOk(cfg, st, min, hs[min]) && !Guarded(guard, hs, min);
      if last != INVALID_LAST_USER && SoleUser(cfg, st, key, guard, st.m[last].key) {
        var i :| 0 <= i < cfg.k && !Guarded(guard, hs, i) && CellAt(st, hs, i).cnt == 1
                 && cfg.hash(i, st.m[last].key) == hs[i];
        MinUseIsLeast(st, hs, guard, cfg.k, i);
      }
    }
  }

  // ---- one insertion ----

  /** Room for the rule in the tables with the next entry recycled, and then for the rule it displaces. */
  predicate RoomAtBothHops(cfg: Config, st: State, ops: Operands, res: Results, mask: Mask)
    requires ValidConfig(cfg) && WellFormed(cfg, st)
  {
    var st0 := Vacate(cfg, st);
    var p := Place(cfg, st0, st.next, ops, res, mask, None);
    && RoomFor(cfg, st0, ops, None)
    && (p.victim.Some? ==> RoomFor(cfg, p.st, p.victim.value.key, Some(Hashes(cfg, ops))))
  }

  /** An insertion passes both assertions exactly when there is room at both hops. */
  lemma InsertAssertsIff(cfg: Config, st: State, ops: Operands, res: Results, mask: Mask)
    requires ValidConfig(cfg) && WellFormed(cfg, st)
    ensures InsertAsserts(cfg, st, ops, res, mask) <==> RoomAtBothHops(cfg, st, ops, res, mask)
  {
    var st0 := Vacate(cfg, st);
    var p := Place(cfg, st0, st.next, ops, res, mask, None);
    PlaceAssertsIff(cfg, st0, ops, None);
    if p.victim.Some? { PlaceAssertsIff(cfg, p.st, p.victim.value.key, Some(Hashes(cfg, ops))); }
  }

  /** An unused slot for the new rule is enough. */
  lemma UnusedSlotSuffices(cfg: Config, st: State, ops: Operands, res: Results, mask: Mask)
    requires ValidConfig(cfg) && WellFormed(cfg, st) && FreeSlot(Vacate(cfg, st), Hashes(cfg, ops), 0) != -1
    ensures RoomAtBothHops(cfg, st, ops, res, mask)
  {}

  /** No exit: the rule is placed without evicting the recycled entry, and with assertions there is room. */
  predicate Fits(cfg: Config, st: State, ops: Operands, res: Results)
    requires ValidConfig(cfg) && WellFormed(cfg, st)
  {
    && !EvictsItself(cfg, st, ops, res)
    && (cfg.asserts ==> RoomAtBothHops(cfg, st, ops, res, MaskOf(ops)))
  }

  /** The process survives an insertion exactly when the rule fits. */
  lemma ExitIff(cfg: Config, installed: set<(Operands, Results)>, st: State, ops: Operands, res: Results)
    requires MixedInv(cfg, installed, st) && Distinguishable(ops, res)
    ensures ExitCode(cfg, st, ops, res, MaskOf(ops)) == 0 <==> Fits(cfg, st, ops, res)
  {
    InsertPassesIff(cfg, installed, st, ops, res);
    InsertAssertsIff(cfg, st, ops, res, MaskOf(ops));
  }

  lemma FitsSuffices(cfg: Config, installed: set<(Operands, Results)>, st: State, ops: Operands, res: Results)
    requires MixedInv(cfg, installed, st) && Fits(cfg, st, ops, res)
    ensures ExitCode(cfg, st, ops, res, MaskOf(ops)) == 0
  {
    SparedPasses(cfg, installed, st, ops, res);
    InsertAssertsIff(cfg, st, ops, res, MaskOf(ops));
  }

  /** With one mask the self-check never ends the process, so the assertion alone decides. */
  lemma OneMaskExitIff(cfg: Config, mask: Mask, st: State, ops: Operands, res: Results)
    requires Inv(cfg, mask, st) && InMask(mask, ops)
    ensures ExitCode(cfg, st, ops, res, mask)
            == if cfg.asserts && !RoomAtBothHops(cfg, st, ops, res, mask) then ABORTED else 0
  {
    InsertCorrect(cfg, mask, st, ops, res);
    InsertAssertsIff(cfg, st, ops, res, mask);
  }

  // ---- whole runs ----

  /** The process has not ended before or at the end of the run. */
  predicate Alive(cfg: Config, masks: seq<Mask>, trace: seq<Op>)
    requires ValidConfig(cfg) && |masks| == cfg.capacity
  {
    trace == [] ||
    (var op, before := trace[|trace| - 1], trace[..|trace| - 1];
     && Alive(cfg, masks, before)
     && (op.OpInsert? ==> ExitCode(cfg, Run(cfg, masks, before), op.ops, op.res, op.mask) == 0))
  }

  /** There was room at every insertion. */
  predicate AlwaysRoom(cfg: Config, masks: seq<Mask>, trace: seq<Op>)
    requires ValidConfig(cfg) && |masks| == cfg.capacity
  {
    trace == [] ||
    (var op, before := trace[|trace| - 1], trace[..|trace| - 1];
     && AlwaysRoom(cfg, masks, before)
     && (op.OpInsert? ==> RoomAtBothHops(cfg, Run(cfg, masks, before), op.ops, op.res, op.mask)))
  }

  /** With one mask: the process survives every run if assertions are compiled out, and otherwise exactly those
      with room at every insertion. */
  lemma {:induction false} OneMaskAliveIff(cfg: Config, masks: seq<Mask>, trace: seq<Op>, mask: Mask)
    requires UniformRun(cfg, masks, trace, mask)
    ensures Alive(cfg, masks, trace) <==> (cfg.asserts ==> AlwaysRoom(cfg, masks, trace))
  {
    if trace != [] {
      var op, before := trace[|trace| - 1], trace[..|trace| - 1];
      OneMaskAliveIff(cfg, masks, before, mask);
      RunInvariant(cfg, masks, before, mask);
      assert UsesMask(mask, op);
      if op.OpInsert? { OneMaskExitIff(cfg, mask, Run(cfg, masks, before), op.ops, op.res); }
    }
  }

  /** Every rule of the run fitted. */
  predicate AllFit(cfg: Config, masks: seq<Mask>, trace: seq<Op>)
    requires ValidConfig(cfg) && |masks| == cfg.capacity
  {
    trace == [] ||
    (var op, before := trace[|trace| - 1], trace[..|trace| - 1];
     && AllFit(cfg, masks, before)
     && (op.OpInsert? ==> Fits(cfg, Run(cfg, masks, before), op.ops, op.res)))
  }

  lemma {:induction false} AliveChecks(cfg: Config, masks: seq<Mask>, trace: seq<Op>)
    requires ValidConfig(cfg) && |masks| == cfg.capacity && Alive(cfg, masks, trace)
    ensures ChecksPass(cfg, masks, trace)
  {
    if trace != [] { AliveChecks(cfg, masks, trace[..|trace| - 1]); }
  }

  /** With any mixture of masks: the process survives exactly the runs whose rules all fit. */
  lemma {:induction false} WrapperAliveIff(cfg: Config, masks: seq<Mask>, trace: seq<Op>)
    requires WrapperRun(cfg, masks, trace)
    requires forall op | op in trace :: op.OpInsert? ==> Distinguishable(op.ops, op.res)
    ensures Alive(cfg, masks, trace) <==> AllFit(cfg, masks, trace)
  {
    if trace != [] {
      var op, before := trace[|trace| - 1], trace[..|trace| - 1];
      WrapperAliveIff(cfg, masks, before);
      if Alive(cfg, masks, before) && op.OpInsert? {
        AliveChecks(cfg, masks, before);
        MixedRunInvariant(cfg, masks, before);
        assert WrapperOp(op) && op in trace;
        ExitIff(cfg, Installed(before), Run(cfg, masks, before), op.ops, op.res);
      }
    }
  }
}
