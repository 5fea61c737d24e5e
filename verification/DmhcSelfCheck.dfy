/** When the self-check at the end of `dmhc_t::insert` fails: exactly when the insertion evicts the
    entry it has just recycled for the new rule. */
module DmhcSelfCheck {
  import opened Wrappers
  import opened RiscvIsa
  import opened DmhcSpec
  import opened DmhcInvariant
  import opened DmhcTheorems
  import opened DmhcMixed

  /** The entry hop 0 evicts, if any. */
  function FirstVictim(cfg: Config, st: State, ops: Operands): (v: Option<Victim>)
    requires ValidConfig(cfg) && WellFormed(cfg, st)
    ensures v.Some? ==> v.value.addr < cfg.capacity
  {
    Prepare(cfg, Vacate(cfg, st), ops, None).room.victim
  }

  /** The state after hop 0. */
  function AfterFirstHop(cfg: Config, st: State, ops: Operands, res: Results): (st': State)
    requires ValidConfig(cfg) && WellFormed(cfg, st)
    ensures WellFormed(cfg, st')
  {
    Place(cfg, Vacate(cfg, st), st.next, ops, res, MaskOf(ops), None).st
  }

  /** The entry hop 1 evicts, if any. */
  function SecondVictim(cfg: Config, st: State, ops: Operands, res: Results): (v: Option<Victim>)
    requires ValidConfig(cfg) && WellFormed(cfg, st)
  {
    var first := FirstVictim(cfg, st, ops);
    if first.None? then None
    else Prepare(cfg, AfterFirstHop(cfg, st, ops, res), first.value.key, Some(Hashes(cfg, ops))).room.victim
  }

  predicate Names(v: Option<Victim>, e: nat) {
    v.Some? && v.value.addr == e
  }

  /** One of the two evictions hits the entry that was recycled for the new rule. */
  predicate EvictsItself(cfg: Config, st: State, ops: Operands, res: Results)
    requires ValidConfig(cfg) && WellFormed(cfg, st)
  {
    Names(FirstVictim(cfg, st, ops), st.next) || Names(SecondVictim(cfg, st, ops, res), st.next)
  }

  /** A path to entry `e` makes the lookup depend on that entry alone. */
  lemma LookupAtPath(cfg: Config, st: State, ops: Operands, mask: Mask, e: nat)
    requires Resolves(cfg, st, ops, e)
    ensures Lookup(cfg, st, ops, mask)
            == if st.m[e].used && Matches(mask, st.m[e].key, ops) then Some(st.m[e].out) else None
  {}

  /** What hop 0 leaves behind. */
  lemma FirstHop(cfg: Config, installed: set<(Operands, Results)>, st: State, ops: Operands, res: Results)
    requires MixedInv(cfg, installed, st)
    ensures var st1, e := AfterFirstHop(cfg, st, ops, res), st.next;
            && MixedInv(cfg, installed + {(ops, res)}, st1) && Resolves(cfg, st1, ops, e)
            && st1.m[e] == Entry(true, ops, res, MaskOf(ops))
    ensures var v := FirstVictim(cfg, st, ops);
            v.Some? ==> v.value.mask[0] && v.value.mask[1]
                        && (v.value.addr == st.next ==> v.value.key == ZERO_OPERANDS && v.value.out == ZERO_RESULTS)
  {
    var installed', e, st0 := installed + {(ops, res)}, st.next, Vacate(cfg, st);
    MoreInstalled(cfg, installed, installed', st);
    VacateMixed(cfg, installed', st);
    PlaceMixed(cfg, installed', st0, e, ops, res);
    PrepareMixed(cfg, installed', st0, ops, None);
  }

  lemma InsertIs(cfg: Config, st: State, ops: Operands, res: Results)
    requires ValidConfig(cfg) && WellFormed(cfg, st)
    ensures var v, st1 := FirstVictim(cfg, st, ops), AfterFirstHop(cfg, st, ops, res);
            Insert(cfg, st, ops, res, MaskOf(ops))
            == if v.None? then st1
               else Place(cfg, st1, v.value.addr, v.value.key, v.value.out, v.value.mask, Some(Hashes(cfg, ops))).st
  {
    var st0 := Vacate(cfg, st);
    assert !Guarded(None, Hashes(cfg, ops), 0);
    assert Prepare(cfg, st0, ops, None).free != -1;
    assert Place(cfg, st0, st.next, ops, res, MaskOf(ops), None).victim == FirstVictim(cfg, st, ops);
  }

  /** Operands with a pc or a ci tag, or results that are not all zero: a blank entry cannot pass for the rule. */
  predicate Distinguishable(ops: Operands, res: Results) {
    ops.pc != BAD_TAG_VALUE || ops.ci != BAD_TAG_VALUE || res != ZERO_RESULTS
  }

  /** Re-homing into the new rule's own entry destroys the new rule. */
  lemma RehomeOverNewRule(cfg: Config, installed: set<(Operands, Results)>, st1: State, v: Victim, ops: Operands,
                          res: Results)
    requires MixedInv(cfg, installed, st1) && Resolves(cfg, st1, ops, v.addr) && Distinguishable(ops, res)
    requires v.key == ZERO_OPERANDS && v.out == ZERO_RESULTS && v.mask[0] && v.mask[1]
    ensures var st2 := Place(cfg, st1, v.addr, v.key, v.out, v.mask, Some(Hashes(cfg, ops))).st;
            Lookup(cfg, st2, ops, MaskOf(ops)) != Some(res)
  {
    var guard, e := Some(Hashes(cfg, ops)), v.addr;
    var st2 := Place(cfg, st1, e, v.key, v.out, v.mask, guard).st;
    PlaceKeepsGuarded(cfg, st1, e, v.key, v.out, v.mask, ops, e);
    PrepareMixed(cfg, installed, st1, v.key, guard);
    var prep := Prepare(cfg, st1, v.key, guard);
    if prep.free != -1 {
      var mask := StoredMask(v.mask, guard, prep.room);
      assert st2.m[e].key == Merge(mask, prep.room.st.m[e].key, ZERO_OPERANDS) && st2.m[e].out == ZERO_RESULTS;
    }
    LookupAtPath(cfg, st2, ops, MaskOf(ops), e);
  }

  /** Re-homing elsewhere keeps the new rule's entry unless hop 1 evicts it. */
  lemma RehomeElsewhere(cfg: Config, st1: State, v: Victim, ops: Operands, res: Results, e: nat)
    requires Resolves(cfg, st1, ops, e) && v.addr < cfg.capacity && v.addr != e
    requires st1.m[e] == Entry(true, ops, res, MaskOf(ops))
    ensures var guard := Some(Hashes(cfg, ops));
            var st2 := Place(cfg, st1, v.addr, v.key, v.out, v.mask, guard).st;
            Lookup(cfg, st2, ops, MaskOf(ops))
            == if Names(Prepare(cfg, st1, v.key, guard).room.victim, e) then None else Some(res)
  {
    var guard := Some(Hashes(cfg, ops));
    var st2 := Place(cfg, st1, v.addr, v.key, v.out, v.mask, guard).st;
    PlaceKeepsGuarded(cfg, st1, v.addr, v.key, v.out, v.mask, ops, e);
    RoomEntry(cfg, st1, v.key, guard, e);
    LookupAtPath(cfg, st2, ops, MaskOf(ops), e);
  }

  /** Making room changes one entry at most, and that one is dead afterwards. */
  lemma RoomEntry(cfg: Config, st: State, key: Operands, guard: Option<seq<nat>>, e: nat)
    requires ValidConfig(cfg) && WellFormed(cfg, st) && e < cfg.capacity
    ensures var p := Prepare(cfg, st, key, guard);
            && (Names(p.room.victim, e) ==> !p.room.st.m[e].used && p.free != -1)
            && (!Names(p.room.victim, e) ==> p.room.st.m[e] == st.m[e])
  {
    var p := Prepare(cfg, st, key, guard);
    var hs := Hashes(cfg, key);
    assert FreeSlot(st, hs, 0) == -1 && MinUse(st, hs, guard, cfg.k) != -1 ==>
        MinUse(p.room.st, hs, guard, cfg.k) != -1;
  }

  /** The self-check passes exactly when neither hop evicts the recycled entry. Both evictions can be read
      off the tables before the call. */
  lemma InsertPassesIff(cfg: Config, installed: set<(Operands, Results)>, st: State, ops: Operands, res: Results)
    requires MixedInv(cfg, installed, st) && Distinguishable(ops, res)
    ensures Lookup(cfg, Insert(cfg, st, ops, res, MaskOf(ops)), ops, MaskOf(ops)) == Some(res)
            <==> !EvictsItself(cfg, st, ops, res)
  {
    if !EvictsItself(cfg, st, ops, res) {
      SparedPasses(cfg, installed, st, ops, res);
    } else {
      var v, st1 := FirstVictim(cfg, st, ops), AfterFirstHop(cfg, st, ops, res);
      InsertIs(cfg, st, ops, res);
      FirstHop(cfg, installed, st, ops, res);
      if v.value.addr == st.next {
        RehomeOverNewRule(cfg, installed + {(ops, res)}, st1, v.value, ops, res);
      } else {
        RehomeElsewhere(cfg, st1, v.value, ops, res, st.next);
      }
    }
  }

  /** It passes then whatever the operands and results are. */
  lemma SparedPasses(cfg: Config, installed: set<(Operands, Results)>, st: State, ops: Operands, res: Results)
    requires MixedInv(cfg, installed, st) && !EvictsItself(cfg, st, ops, res)
    ensures Lookup(cfg, Insert(cfg, st, ops, res, MaskOf(ops)), ops, MaskOf(ops)) == Some(res)
  {
    var e, v, st1 := st.next, FirstVictim(cfg, st, ops), AfterFirstHop(cfg, st, ops, res);
    InsertIs(cfg, st, ops, res);
    FirstHop(cfg, installed, st, ops, res);
    if v.None? {
      LookupAtPath(cfg, st1, ops, MaskOf(ops), e);
    } else {
      RehomeElsewhere(cfg, st1, v.value, ops, res, e);
    }
  }

  /** One more insertion of a run passes its self-check exactly under that condition. */
  lemma NextCheckPassesIff(cfg: Config, masks: seq<Mask>, trace: seq<Op>, ops: Operands, res: Results)
    requires WrapperRun(cfg, masks, trace) && ChecksPass(cfg, masks, trace) && Distinguishable(ops, res)
    ensures ChecksPass(cfg, masks, trace + [OpInsert(ops, res, MaskOf(ops))])
            <==> !EvictsItself(cfg, Run(cfg, masks, trace), ops, res)
  {
    var longer := trace + [OpInsert(ops, res, MaskOf(ops))];
    assert longer[..|longer| - 1] == trace;
    MixedRunInvariant(cfg, masks, trace);
    InsertPassesIff(cfg, Installed(trace), Run(cfg, masks, trace), ops, res);
  }

  // ---- a condition on the tables ----

  /** Every slot that names the next entry as its last inserter is a slot of the key stored there. */
  ghost predicate NoStaleName(cfg: Config, st: State)
    requires WellFormed(cfg, st)
  {
    forall i, s | 0 <= i < cfg.k && 0 <= s < cfg.slots ::
      st.g[i][s].last == st.next ==> st.m[st.next].used && cfg.hash(i, st.m[st.next].key) == s
  }

  /** No slot names entry `e` as its last inserter. */
  ghost predicate Unnamed(cfg: Config, st: State, e: nat, i: nat, s: nat)
    requires WellFormed(cfg, st) && i < cfg.k && s < cfg.slots
  {
    st.g[i][s].last != e
  }

  lemma VacateUnnames(cfg: Config, st: State, i: nat, s: nat)
    requires ValidConfig(cfg) && WellFormed(cfg, st) && NoStaleName(cfg, st) && i < cfg.k && s < cfg.slots
    ensures Unnamed(cfg, Vacate(cfg, st), st.next, i, s)
  {}

  lemma EvictUnnames(cfg: Config, st: State, addr: nat, guard: Option<seq<nat>>, e: nat, i: nat, s: nat)
    requires ValidConfig(cfg) && WellFormed(cfg, st) && addr < cfg.capacity && i < cfg.k && s < cfg.slots && e != 0
    requires Unnamed(cfg, st, e, i, s)
    ensures Unnamed(cfg, Evict(cfg, st, addr, guard), e, i, s)
  {}

  /** After hop 0 only the new rule's own slots name its entry. */
  lemma OnlyOwnSlots(cfg: Config, st: State, ops: Operands, res: Results, i: nat, s: nat)
    requires ValidConfig(cfg) && WellFormed(cfg, st) && NoStaleName(cfg, st) && i < cfg.k && s < cfg.slots
    requires s != cfg.hash(i, ops)
    ensures Unnamed(cfg, AfterFirstHop(cfg, st, ops, res), st.next, i, s)
  {
    var st0 := Vacate(cfg, st);
    VacateUnnames(cfg, st, i, s);
    var prep := Prepare(cfg, st0, ops, None);
    if prep.room.victim.Some? { EvictUnnames(cfg, st0, prep.room.victim.value.addr, None, st.next, i, s); }
  }

  /** A victim is the last inserter of an unguarded slot of the rule being placed. */
  lemma VictimIsLast(cfg: Config, st: State, key: Operands, guard: Option<seq<nat>>)
    requires ValidConfig(cfg) && WellFormed(cfg, st)
    ensures var v := Prepare(cfg, st, key, guard).room.victim;
            v.Some? ==> exists i :: 0 <= i < cfg.k && !Guarded(guard, Hashes(cfg, key), i)
                                    && v.value.addr == CellAt(st, Hashes(cfg, key), i).last
  {
    var i := MinUse(st, Hashes(cfg, key), guard, cfg.k);
    if i != -1 { assert !Guarded(guard, Hashes(cfg, key), i); }
  }

  lemma FirstHopSpares(cfg: Config, st: State, ops: Operands)
    requires ValidConfig(cfg) && WellFormed(cfg, st) && NoStaleName(cfg, st)
    ensures FirstVictim(cfg, st, ops).Some? ==> FirstVictim(cfg, st, ops).value.addr != st.next
  {
    var st0 := Vacate(cfg, st);
    VictimIsLast(cfg, st0, ops, None);
    forall i | 0 <= i < cfg.k ensures CellAt(st0, Hashes(cfg, ops), i).last != st.next {
      VacateUnnames(cfg, st, i, cfg.hash(i, ops));
    }
  }

  /** Hop 1 for the rule `key`, which spares the slots of the new rule. */
  lemma SecondHopSpares(cfg: Config, st: State, ops: Operands, res: Results, key: Operands)
    requires ValidConfig(cfg) && WellFormed(cfg, st) && NoStaleName(cfg, st)
    ensures var v := Prepare(cfg, AfterFirstHop(cfg, st, ops, res), key, Some(Hashes(cfg, ops))).room.victim;
            v.Some? ==> v.value.addr != st.next
  {
    var st1, guard := AfterFirstHop(cfg, st, ops, res), Some(Hashes(cfg, ops));
    VictimIsLast(cfg, st1, key, guard);
    forall i | 0 <= i < cfg.k && !Guarded(guard, Hashes(cfg, key), i)
      ensures CellAt(st1, Hashes(cfg, key), i).last != st.next
    {
      OnlyOwnSlots(cfg, st, ops, res, i, cfg.hash(i, key));
    }
  }

  /** Without stale names the insertion cannot evict its own entry, so the self-check passes. */
  lemma NoStalePasses(cfg: Config, st: State, ops: Operands, res: Results)
    requires ValidConfig(cfg) && WellFormed(cfg, st) && NoStaleName(cfg, st)
    ensures !EvictsItself(cfg, st, ops, res)
  {
    FirstHopSpares(cfg, st, ops);
    var first := FirstVictim(cfg, st, ops);
    if first.Some? { SecondHopSpares(cfg, st, ops, res, first.value.key); }
  }

  /** One mask for all rules is one case. */
  lemma OneMaskNoStale(cfg: Config, mask: Mask, st: State)
    requires Inv(cfg, mask, st)
    ensures NoStaleName(cfg, st)
  {
    forall i, s | 0 <= i < cfg.k && 0 <= s < cfg.slots && st.g[i][s].last == st.next
      ensures st.m[st.next].used && cfg.hash(i, st.m[st.next].key) == s
    {
      assert CellOk(cfg, st, i, s);
    }
  }
}
