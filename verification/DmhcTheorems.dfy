/** The main results about `dmhc_t` for runs that use one `consider` mask. */
module DmhcTheorems {
  import opened Wrappers
  import opened RiscvIsa
  import opened DmhcSpec
  import opened DmhcInvariant

  function Vacant(mask: Mask): Entry {
    Entry(false, ZERO_OPERANDS, ZERO_RESULTS, mask)
  }

  // ---- one insertion ----

  lemma {:induction false} FreeSlotIsFree(st: State, hs: seq<nat>, from: nat)
    requires InTables(st, hs) && from <= |hs|
    ensures var f := FreeSlot(st, hs, from);
            && (f != -1 ==> CellAt(st, hs, f).cnt == 0)
            && (forall i | from <= i < (if f == -1 then |hs| else f) :: CellAt(st, hs, i).cnt != 0)
    decreases |hs| - from
  {
    if from < |hs| { FreeSlotIsFree(st, hs, from + 1); }
  }

  /** `guard` holds the hashes of the live rule at `e`. */
  ghost predicate GuardsRule(cfg: Config, st: State, guard: Option<seq<nat>>, e: nat) {
    guard.Some? ==> e < |st.m| && st.m[e].used && guard.value == Hashes(cfg, st.m[e].key)
  }

  /** Choosing a slot evicts at most one live rule, never the guarded one. */
  lemma PrepareInv(cfg: Config, mask: Mask, st: State, key: Operands, guard: Option<seq<nat>>, e: nat)
    requires Inv(cfg, mask, st) && GuardsRule(cfg, st, guard, e)
    ensures var p := Prepare(cfg, st, key, guard);
            && Inv(cfg, mask, p.room.st)
            && (guard.None? ==> p.free != -1)
            && (p.room.victim.None? ==> p.room.st == st)
            && (p.room.victim.Some? ==>
                  var v := p.room.victim.value;
                  && 0 < v.addr < cfg.capacity && v.mask == mask
                  && (guard.Some? ==> v.addr != e)
                  && st.m[v.addr] == Entry(true, v.key, v.out, mask)
                  && p.room.st == Evict(cfg, st, v.addr, guard))
  {
    var hs := Hashes(cfg, key);
    var min := MinUse(st, hs, guard, cfg.k);
    assert guard.None? ==> !Guarded(guard, hs, 0);
    if FreeSlot(st, hs, 0) == -1 && min != -1 {
      assert CellOk(cfg, st, min, hs[min]);
      var last := CellAt(st, hs, min).last;
      if last != INVALID_LAST_USER {
        assert GuardOk(cfg, st, guard, last);
        EvictInv(cfg, mask, st, last, guard);
      }
    }
  }

  /** Hop 0: the rule goes to the vacated entry and is reachable there; at most one other live
      entry has been taken out, and it is reported as the victim. */
  lemma PlaceNewRule(cfg: Config, mask: Mask, st: State, addr: nat, ops: Operands, res: Results)
    requires Inv(cfg, mask, st) && 0 < addr < cfg.capacity && !st.m[addr].used && InMask(mask, ops)
    ensures var p := Place(cfg, st, addr, ops, res, mask, None);
            && Inv(cfg, mask, p.st)
            && Resolves(cfg, p.st, ops, addr)
            && (p.victim.None? ==> p.st.m == st.m[addr := Entry(true, ops, res, mask)])
            && (p.victim.Some? ==>
                  var v := p.victim.value;
                  && 0 < v.addr < cfg.capacity && v.addr != addr && v.mask == mask
                  && st.m[v.addr] == Entry(true, v.key, v.out, mask)
                  && p.st.m == st.m[v.addr := Vacant(mask)][addr := Entry(true, ops, res, mask)])
  {
    PrepareInv(cfg, mask, st, ops, None, 0);
    var prep := Prepare(cfg, st, ops, None);
    RealInsertInv(cfg, mask, prep.room.st, addr, ops, res, prep.free);
    RealInsertResolves(cfg, prep.room.st, addr, ops, res, prep.free, mask);
  }

  /** `m'` is `m`, except that the live entry `x` may have been dropped. */
  predicate SameBut(m: seq<Entry>, m': seq<Entry>, x: nat) {
    && |m'| == |m|
    && (forall a | 0 <= a < |m| && a != x :: m'[a] == m[a])
    && (x < |m| && m'[x] != m[x] ==> m[x].used && !m'[x].used)
  }

  /** The slot chosen for a re-homed victim is not on the new rule's path, which stays intact. */
  lemma PrepareKeepsGuarded(cfg: Config, st: State, key: Operands, ops: Operands, e: nat)
    requires Resolves(cfg, st, ops, e)
    ensures var p := Prepare(cfg, st, key, Some(Hashes(cfg, ops)));
            && Resolves(cfg, p.room.st, ops, e)
            && (p.free != -1 ==> cfg.hash(p.free, key) != cfg.hash(p.free, ops))
  {
    var guard := Some(Hashes(cfg, ops));
    FreeSlotIsFree(st, Hashes(cfg, key), 0);
    var p := Prepare(cfg, st, key, guard);
    if p.room.victim.Some? { EvictKeepsGuarded(cfg, st, p.room.victim.value.addr, ops, e); }
    if p.free != -1 {
      assert FreeSlot(st, Hashes(cfg, key), 0) == -1 ==> !Guarded(guard, Hashes(cfg, key), p.free);
      assert CellAt(st, Hashes(cfg, ops), p.free).cnt > 0;
    }
  }

  /** Re-homing leaves the new rule reachable, whatever masks are stored. */
  lemma PlaceKeepsGuarded(cfg: Config, st: State, addr: nat, key: Operands, out: Results, mask: Mask, ops: Operands,
                          e: nat)
    requires Resolves(cfg, st, ops, e) && addr < cfg.capacity
    ensures Resolves(cfg, Place(cfg, st, addr, key, out, mask, Some(Hashes(cfg, ops))).st, ops, e)
  {
    var guard := Some(Hashes(cfg, ops));
    var prep := Prepare(cfg, st, key, guard);
    PrepareKeepsGuarded(cfg, st, key, ops, e);
    if prep.free == -1 {
      SameAddress(st, Place(cfg, st, addr, key, out, mask, guard).st, Hashes(cfg, ops), cfg.k);
    } else {
      RealInsertKeepsGuarded(cfg, prep.room.st, addr, key, out, prep.free, StoredMask(mask, guard, prep.room), ops, e);
    }
  }

  /** No room was made for the victim, which is given up. */
  lemma VictimGivenUp(cfg: Config, mask: Mask, st: State, addr: nat, key: Operands, out: Results,
                      guard: Option<seq<nat>>)
    requires Inv(cfg, mask, st) && 0 < addr < cfg.capacity && st.m[addr] == Vacant(mask)
    requires Prepare(cfg, st, key, guard).free == -1
    ensures Place(cfg, st, addr, key, out, mask, guard).st == st
    ensures SameBut(st.m[addr := Entry(true, key, out, mask)], st.m, addr)
  {}

  /** Room was made for the victim, perhaps by evicting another rule. */
  lemma VictimReturns(cfg: Config, mask: Mask, st: State, addr: nat, key: Operands, out: Results, ops: Operands, e: nat)
    returns (x: nat)
    requires Inv(cfg, mask, st) && 0 < addr < cfg.capacity && st.m[addr] == Vacant(mask) && InMask(mask, key)
    requires Resolves(cfg, st, ops, e) && e != addr && st.m[e].used && st.m[e].key == ops
    requires Prepare(cfg, st, key, Some(Hashes(cfg, ops))).free != -1
    ensures var st' := Place(cfg, st, addr, key, out, mask, Some(Hashes(cfg, ops))).st;
            Inv(cfg, mask, st') && x != e && SameBut(st.m[addr := Entry(true, key, out, mask)], st'.m, x)
  {
    var guard := Some(Hashes(cfg, ops));
    PrepareInv(cfg, mask, st, key, guard, e);
    var prep := Prepare(cfg, st, key, guard);
    RealInsertInv(cfg, mask, prep.room.st, addr, key, out, prep.free);
    x := if prep.room.victim.Some? then prep.room.victim.value.addr else addr;
  }

  /** Hop 1: the victim either returns to its own address unchanged or is given up; then one further
      entry may be lost, never the rule `ops` just added at `e`, which stays reachable. */
  lemma PlaceVictim(cfg: Config, mask: Mask, st: State, addr: nat, key: Operands, out: Results, ops: Operands, e: nat)
    returns (x: nat)
    requires Inv(cfg, mask, st) && 0 < addr < cfg.capacity && st.m[addr] == Vacant(mask) && InMask(mask, key)
    requires Resolves(cfg, st, ops, e) && e != addr && st.m[e].used && st.m[e].key == ops
    ensures var p := Place(cfg, st, addr, key, out, mask, Some(Hashes(cfg, ops)));
            && Inv(cfg, mask, p.st)
            && Resolves(cfg, p.st, ops, e)
            && x != e && SameBut(st.m[addr := Entry(true, key, out, mask)], p.st.m, x)
  {
    var guard := Some(Hashes(cfg, ops));
    PlaceKeepsGuarded(cfg, st, addr, key, out, mask, ops, e);
    if Prepare(cfg, st, key, guard).free == -1 {
      VictimGivenUp(cfg, mask, st, addr, key, out, guard);
      x := addr;
    } else {
      x := VictimReturns(cfg, mask, st, addr, key, out, ops, e);
    }
  }

  /** The table with the victim back in its entry is the old one with the new rule added. */
  lemma VictimBack(m: seq<Entry>, m': seq<Entry>, a: nat, old_entry: Entry, empty: Entry, e: nat, new_entry: Entry)
    requires a < |m| && e < |m| && a != e && m[a] == old_entry && m' == m[a := empty][e := new_entry]
    ensures m'[a := old_entry] == m[e := new_entry]
  {}

  /** Both hops together, for a rule inserted at the vacant entry `e`. */
  lemma PlaceAndRehomeInv(cfg: Config, mask: Mask, st: State, e: nat, ops: Operands, res: Results) returns (x: nat)
    requires Inv(cfg, mask, st) && 0 < e < cfg.capacity && !st.m[e].used && InMask(mask, ops)
    ensures var st' := PlaceAndRehome(cfg, st, e, ops, res, mask);
            && Inv(cfg, mask, st')
            && Resolves(cfg, st', ops, e)
            && x != e && SameBut(st.m[e := Entry(true, ops, res, mask)], st'.m, x)
  {
    PlaceNewRule(cfg, mask, st, e, ops, res);
    var p := Place(cfg, st, e, ops, res, mask, None);
    if p.victim.None? {
      x := cfg.capacity;
    } else {
      var v := p.victim.value;
      VictimBack(st.m, p.st.m, v.addr, Entry(true, v.key, v.out, mask), Vacant(mask), e, Entry(true, ops, res, mask));
      x := RehomeInv(cfg, mask, st, p.st, v, ops, e);
    }
  }

  /** Re-homing `v`, a rule of `st`. */
  lemma RehomeInv(cfg: Config, mask: Mask, st: State, placed: State, v: Victim, ops: Operands, e: nat) returns (x: nat)
    requires Inv(cfg, mask, st) && 0 < v.addr < cfg.capacity && st.m[v.addr] == Entry(true, v.key, v.out, mask)
    requires Inv(cfg, mask, placed) && placed.m[v.addr] == Vacant(mask) && v.mask == mask
    requires Resolves(cfg, placed, ops, e) && e != v.addr && placed.m[e].used && placed.m[e].key == ops
    ensures var st' := Place(cfg, placed, v.addr, v.key, v.out, v.mask, Some(Hashes(cfg, ops))).st;
            && Inv(cfg, mask, st')
            && Resolves(cfg, st', ops, e)
            && x != e && SameBut(placed.m[v.addr := Entry(true, v.key, v.out, mask)], st'.m, x)
  {
    assert EntryOk(mask, st.m[v.addr]);
    x := PlaceVictim(cfg, mask, placed, v.addr, v.key, v.out, ops, e);
  }

  lemma SameCells(cfg: Config, mask: Mask, st: State, st': State)
    requires Inv(cfg, mask, st) && st'.g == st.g && st'.m == st.m && 1 <= st'.next < cfg.capacity
    ensures Inv(cfg, mask, st')
  {
    forall i, s | 0 <= i < cfg.k && 0 <= s < cfg.slots ensures CellOk(cfg, st', i, s) {
      assert CellOk(cfg, st, i, s);
      assert Users(cfg, st', i, s) == Users(cfg, st, i, s);
    }
  }

  /** Recycling the next entry: it is dead afterwards and no other entry has changed. */
  lemma VacateInv(cfg: Config, mask: Mask, st: State)
    requires Inv(cfg, mask, st)
    ensures Inv(cfg, mask, Vacate(cfg, st))
    ensures !Vacate(cfg, st).m[st.next].used
    ensures forall a | 0 <= a < |st.m| && a != st.next :: Vacate(cfg, st).m[a] == st.m[a]
  {
    var e := st.next;
    var next := st.(next := if e + 1 >= cfg.capacity then 1 else e + 1);
    SameCells(cfg, mask, st, next);
    if st.m[e].used { EvictInv(cfg, mask, next, e, None); }
  }

  ghost predicate AtMostOneLost(m: seq<Entry>, m': seq<Entry>, e: nat) {
    exists x: nat :: x != e && SameBut(m, m', x)
  }

  /** One insertion keeps the invariant, makes the new rule found with exactly its result, and
      loses at most two stored rules: the one in the recycled entry and at most one more. Every
      other rule, re-homed or not, is at its old address. */
  lemma InsertCorrect(cfg: Config, mask: Mask, st: State, ops: Operands, res: Results)
    requires Inv(cfg, mask, st) && InMask(mask, ops)
    ensures var st' := Insert(cfg, st, ops, res, mask);
            && Inv(cfg, mask, st')
            && Lookup(cfg, st', ops, mask) == Some(res)
            && AtMostOneLost(st.m[st.next := Entry(true, ops, res, mask)], st'.m, st.next)
  {
    var e := st.next;
    var added := Entry(true, ops, res, mask);
    VacateInv(cfg, mask, st);
    var x := PlaceAndRehomeInv(cfg, mask, Vacate(cfg, st), e, ops, res);
    assert Vacate(cfg, st).m[e := added] == st.m[e := added];
  }

  // ---- whole runs ----

  datatype Op =
    | OpInsert(ops: Operands, res: Results, mask: Mask)
    | OpLookup(ops: Operands, mask: Mask)
    | OpReset

  /** The operation uses `mask`, and the operands have zeros in the fields it leaves out. */
  predicate UsesMask(mask: Mask, op: Op) {
    op.OpReset? || (op.mask == mask && InMask(mask, op.ops))
  }

  function Perform(cfg: Config, st: State, op: Op): (st': State)
    requires ValidConfig(cfg) && WellFormed(cfg, st)
    ensures WellFormed(cfg, st')
  {
    match op
    case OpInsert(ops, res, mask) => Insert(cfg, st, ops, res, mask)
    case OpLookup(_, _) => st
    case OpReset => Reset(cfg, st)
  }

  /** The state after a run that starts with the constructor's `reset`; `masks` is whatever the
      allocated mask arrays hold before their first use. */
  function Run(cfg: Config, masks: seq<Mask>, trace: seq<Op>): (st: State)
    requires ValidConfig(cfg) && |masks| == cfg.capacity
    ensures WellFormed(cfg, st)
  {
    if trace == [] then Empty(cfg, masks)
    else Perform(cfg, Run(cfg, masks, trace[..|trace| - 1]), trace[|trace| - 1])
  }

  lemma EmptyInv(cfg: Config, mask: Mask, st: State)
    requires ValidConfig(cfg) && IsEmpty(cfg, st)
    ensures Inv(cfg, mask, st) && forall a | 0 <= a < |st.m| :: !st.m[a].used
  {
    var masks: seq<Mask> :| |masks| == cfg.capacity && st == Empty(cfg, masks);
    EmptyHolds(cfg, masks, mask);
  }

  lemma RunOfOne(cfg: Config, masks: seq<Mask>, op: Op)
    requires ValidConfig(cfg) && |masks| == cfg.capacity && op.OpInsert?
    ensures Run(cfg, masks, [op]) == Insert(cfg, Empty(cfg, masks), op.ops, op.res, op.mask)
  {
    assert [op][..0] == [];
  }

  /** The (operands, result) pairs installed since the last reset. */
  function Installed(trace: seq<Op>): set<(Operands, Results)> {
    if trace == [] then {}
    else
      var before := Installed(trace[..|trace| - 1]);
      match trace[|trace| - 1]
      case OpInsert(ops, res, _) => before + {(ops, res)}
      case OpLookup(_, _) => before
      case OpReset => {}
  }

  ghost predicate UniformRun(cfg: Config, masks: seq<Mask>, trace: seq<Op>, mask: Mask) {
    && ValidConfig(cfg) && |masks| == cfg.capacity
    && forall op | op in trace :: UsesMask(mask, op)
  }

  /** Every stored rule is one of `installed`. */
  predicate HoldsOnly(st: State, installed: set<(Operands, Results)>) {
    forall a | 0 <= a < |st.m| && st.m[a].used :: (st.m[a].key, st.m[a].out) in installed
  }

  lemma InsertHolds(cfg: Config, mask: Mask, st: State, ops: Operands, res: Results,
                    installed: set<(Operands, Results)>)
    requires Inv(cfg, mask, st) && InMask(mask, ops) && HoldsOnly(st, installed)
    ensures Inv(cfg, mask, Insert(cfg, st, ops, res, mask))
    ensures HoldsOnly(Insert(cfg, st, ops, res, mask), installed + {(ops, res)})
  {
    InsertCorrect(cfg, mask, st, ops, res);
    var st', added := Insert(cfg, st, ops, res, mask), Entry(true, ops, res, mask);
    var x: nat :| x != st.next && SameBut(st.m[st.next := added], st'.m, x);
  }

  lemma ResetHolds(cfg: Config, mask: Mask, st: State)
    requires ValidConfig(cfg) && WellFormed(cfg, st)
    ensures Inv(cfg, mask, Reset(cfg, st)) && HoldsOnly(Reset(cfg, st), {})
  {}

  lemma EmptyHolds(cfg: Config, masks: seq<Mask>, mask: Mask)
    requires ValidConfig(cfg) && |masks| == cfg.capacity
    ensures Inv(cfg, mask, Empty(cfg, masks)) && HoldsOnly(Empty(cfg, masks), {})
  {}

  /** Every reachable state satisfies the invariant, and every stored rule was installed since the
      last reset. */
  lemma {:induction false} RunInvariant(cfg: Config, masks: seq<Mask>, trace: seq<Op>, mask: Mask)
    requires UniformRun(cfg, masks, trace, mask)
    ensures Inv(cfg, mask, Run(cfg, masks, trace)) && HoldsOnly(Run(cfg, masks, trace), Installed(trace))
  {
    if trace == [] {
      EmptyHolds(cfg, masks, mask);
    } else {
      var prefix, op := trace[..|trace| - 1], trace[|trace| - 1];
      RunInvariant(cfg, masks, prefix, mask);
      assert UsesMask(mask, op);
      var st := Run(cfg, masks, prefix);
      if op.OpInsert? {
        InsertHolds(cfg, mask, st, op.ops, op.res, Installed(prefix));
      } else if op.OpReset? {
        ResetHolds(cfg, mask, st);
      }
    }
  }

  /** Soundness over whole runs: a hit returns a result installed for exactly the queried operands
      since the last reset, whatever was evicted, overwritten or orphaned in between. */
  lemma RunSound(cfg: Config, masks: seq<Mask>, trace: seq<Op>, mask: Mask, ops: Operands)
    requires UniformRun(cfg, masks, trace, mask) && InMask(mask, ops)
    ensures var hit := Lookup(cfg, Run(cfg, masks, trace), ops, mask);
            hit.Some? ==> (ops, hit.value) in Installed(trace)
  {
    RunInvariant(cfg, masks, trace, mask);
    var st := Run(cfg, masks, trace);
    if Lookup(cfg, st, ops, mask).Some? {
      MatchIsEquality(mask, st.m[Address(st, Hashes(cfg, ops), cfg.k)].key, ops);
    }
  }

  lemma MatchIsEquality(mask: Mask, stored: Operands, ops: Operands)
    requires InMask(mask, stored) && InMask(mask, ops)
    ensures Matches(mask, stored, ops) <==> stored == ops
  {}

  /** Completeness for the newest rule: after any run, inserting a rule makes it found with exactly
      its result, so the self-check at the end of `insert` never fires. */
  lemma RunThenInsertHits(cfg: Config, masks: seq<Mask>, trace: seq<Op>, mask: Mask, ops: Operands, res: Results)
    requires UniformRun(cfg, masks, trace, mask) && InMask(mask, ops)
    ensures Lookup(cfg, Run(cfg, masks, trace + [OpInsert(ops, res, mask)]), ops, mask) == Some(res)
  {
    RunInvariant(cfg, masks, trace, mask);
    assert (trace + [OpInsert(ops, res, mask)])[..|trace|] == trace;
    InsertCorrect(cfg, mask, Run(cfg, masks, trace), ops, res);
  }

  /** If every installed result is `P` of its operands, then so is every hit. */
  lemma RunComputesPolicy(cfg: Config, masks: seq<Mask>, trace: seq<Op>, mask: Mask, ops: Operands,
                          P: Operands -> Results)
    requires UniformRun(cfg, masks, trace, mask) && InMask(mask, ops)
    requires forall op | op in trace :: op.OpInsert? ==> op.res == P(op.ops)
    ensures var hit := Lookup(cfg, Run(cfg, masks, trace), ops, mask);
            hit.Some? ==> hit.value == P(ops)
  {
    RunSound(cfg, masks, trace, mask, ops);
    InstalledByPolicy(trace, P);
  }

  lemma {:induction false} InstalledByPolicy(trace: seq<Op>, P: Operands -> Results)
    requires forall op | op in trace :: op.OpInsert? ==> op.res == P(op.ops)
    ensures forall rule | rule in Installed(trace) :: rule.1 == P(rule.0)
  {
    if trace != [] {
      assert trace[|trace| - 1] in trace;
      InstalledByPolicy(trace[..|trace| - 1], P);
    }
  }
}
