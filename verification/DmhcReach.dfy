/** Which rules a lookup still reaches after an insertion, for any tables and any mixture of masks: those that do
    not lose a slot they share with an evicted rule, and whose words are not overwritten. */
module DmhcReach {
  import opened Wrappers
  import opened Bits
  import opened RiscvIsa
  import opened DmhcSpec
  import opened DmhcInvariant
  import opened DmhcTheorems
  import opened DmhcMixed
  import Cache = DmhcRuleCache
  import opened DmhcSelfCheck
  import opened FoldHash

  // ---- an eviction ----

  /** Every slot that `ops` shares with `victim` is in use by another rule too, or guarded. */
  predicate SharesSafely(cfg: Config, st: State, ops: Operands, victim: Operands, guard: Option<seq<nat>>)
    requires InTables(st, Hashes(cfg, ops))
  {
    forall i | 0 <= i < cfg.k && cfg.hash(i, ops) == cfg.hash(i, victim) ::
      st.g[i][cfg.hash(i, ops)].cnt > 1 || Guarded(guard, Hashes(cfg, victim), i)
  }

  /** What an eviction leaves of a slot: a slot of the evicted rule loses one count, down to zero only if it is not
      guarded, and its word only with the last count; every other slot stays as it is. */
  lemma EvictedSlot(cfg: Config, st: State, a: nat, guard: Option<seq<nat>>, i: nat, s: nat)
    requires ValidConfig(cfg) && WellFormed(cfg, st) && a < cfg.capacity && i < cfg.k && s < cfg.slots
    ensures var old_cell, cell := st.g[i][s], Evict(cfg, st, a, guard).g[i][s];
            var hs := Hashes(cfg, st.m[a].key);
            && (s != hs[i] ==> cell == old_cell)
            && (s == hs[i] && (old_cell.cnt > 1 || (old_cell.cnt == 1 && Guarded(guard, hs, i))) ==>
                  cell.word == old_cell.word && cell.cnt == (if old_cell.cnt > 1 then old_cell.cnt - 1 else 1))
            && (s == hs[i] && (old_cell.cnt == 0 || (old_cell.cnt == 1 && !Guarded(guard, hs, i))) ==>
                  cell == Cell(0, 0, INVALID_LAST_USER))
            && (cell.cnt > 0 && s == hs[i] ==>
                  cell.last == if old_cell.last == a then INVALID_LAST_USER else old_cell.last)
  {}

  /** A rule stays reachable across the eviction of another one exactly when the shared slots allow it. */
  lemma EvictKeepsIff(cfg: Config, st: State, a: nat, guard: Option<seq<nat>>, ops: Operands, e: nat)
    requires Resolves(cfg, st, ops, e) && a < cfg.capacity
    ensures Resolves(cfg, Evict(cfg, st, a, guard), ops, e) <==> SharesSafely(cfg, st, ops, st.m[a].key, guard)
  {
    var hs, st' := Hashes(cfg, ops), Evict(cfg, st, a, guard);
    forall i | 0 <= i < cfg.k
      ensures CellAt(st', hs, i).cnt > 0
              <==> (cfg.hash(i, ops) == cfg.hash(i, st.m[a].key) ==>
                      st.g[i][hs[i]].cnt > 1 || Guarded(guard, Hashes(cfg, st.m[a].key), i))
      ensures CellAt(st', hs, i).cnt > 0 ==> CellAt(st', hs, i).word == CellAt(st, hs, i).word
    {
      assert CellAt(st, hs, i).cnt > 0;
      EvictedSlot(cfg, st, a, guard, i, hs[i]);
    }
    if SharesSafely(cfg, st, ops, st.m[a].key, guard) { SameAddress(st, st', hs, cfg.k); }
  }

  /** Otherwise the rule is orphaned: a lookup misses it. */
  lemma OrphanIsMissed(cfg: Config, st: State, a: nat, guard: Option<seq<nat>>, ops: Operands, e: nat, mask: Mask)
    requires Resolves(cfg, st, ops, e) && a < cfg.capacity && !SharesSafely(cfg, st, ops, st.m[a].key, guard)
    ensures Lookup(cfg, Evict(cfg, st, a, guard), ops, mask) == None
  {
    var hs := Hashes(cfg, ops);
    var i :| 0 <= i < cfg.k && cfg.hash(i, ops) == cfg.hash(i, st.m[a].key)
             && !(st.g[i][hs[i]].cnt > 1 || Guarded(guard, Hashes(cfg, st.m[a].key), i));
    assert CellAt(st, hs, i).cnt > 0;
    EvictedSlot(cfg, st, a, guard, i, hs[i]);
    assert CellAt(Evict(cfg, st, a, guard), hs, i).cnt == 0;
  }

  // ---- storing a rule ----

  lemma XorCancels(a: nat, current: nat, addr: nat, w: nat, b: nat)
    requires Xor(b, w) == Xor(a, Xor(Xor(w, current), addr))
    ensures b == a <==> current == addr
  {
    // b == a ^ current ^ addr
    XorAssoc(b, w, w);
    XorSelf(w);
    XorZero(b);
    XorComm(w, current);
    XorAssoc(current, w, addr);
    XorComm(w, addr);
    XorAssoc(current, addr, w);
    var x := Xor(current, addr);
    XorAssoc(a, x, w);
    XorAssoc(Xor(a, x), w, w);
    XorZero(Xor(a, x));
    assert b == Xor(a, x);
    if b == a {
      XorAssoc(a, a, x);
      XorSelf(a);
      XorComm(0, x);
      XorZero(x);
      XorZero(0);
      assert x == 0;
      XorAssoc(current, addr, addr);
      XorSelf(addr);
      XorZero(current);
      XorComm(0, addr);
      XorZero(addr);
    }
    if current == addr {
      XorSelf(addr);
      XorZero(a);
    }
  }

  /** What storing a rule does to a slot: its own slots name it as last inserter and count one user more, up to 3;
      only the word in table `free` changes. */
  lemma StoredSlot(cfg: Config, st: State, addr: nat, key: Operands, res: Results, free: nat, mask: Mask, i: nat,
                   s: nat)
    requires ValidConfig(cfg) && WellFormed(cfg, st) && addr < cfg.capacity && i < cfg.k && s < cfg.slots
    requires st.g[i][s].cnt <= 3
    ensures var old_cell, cell := st.g[i][s], RealInsert(cfg, st, addr, key, res, free, mask).g[i][s];
            && (s != cfg.hash(i, key) ==> cell == old_cell)
            && (s == cfg.hash(i, key) ==>
                  cell.last == addr && cell.cnt == (if old_cell.cnt < 3 then old_cell.cnt + 1 else 3)
                  && (i != free ==> cell.word == old_cell.word))
  {}

  /** A rule stays reachable while another one is stored exactly when its word is not the one overwritten, or the
      overwriting does not change it. */
  lemma StoreKeepsIff(cfg: Config, st: State, addr: nat, key: Operands, res: Results, free: nat, mask: Mask,
                      ops: Operands, e: nat)
    requires Resolves(cfg, st, ops, e) && addr < cfg.capacity && free < cfg.k
    ensures Resolves(cfg, RealInsert(cfg, st, addr, key, res, free, mask), ops, e)
            <==> cfg.hash(free, key) != cfg.hash(free, ops) || Address(st, Hashes(cfg, key), cfg.k) == addr
  {
    var st' := RealInsert(cfg, st, addr, key, res, free, mask);
    var hs, ks := Hashes(cfg, ops), Hashes(cfg, key);
    if ks[free] != hs[free] {
      SameAddress(st, st', hs, cfg.k);
    } else {
      OneWordChanged(st, st', hs, free, cfg.k);
      var w, current := CellAt(st, hs, free).word, Address(st, ks, cfg.k);
      assert CellAt(st', hs, free).word == Xor(Xor(w, current), addr);
      XorCancels(e, current, addr, w, Address(st', hs, cfg.k));
    }
  }

  /** A reachable rule uses no free slot, so a rule that is stored in one does not disturb it. */
  lemma FreeSlotKeeps(cfg: Config, st: State, addr: nat, key: Operands, res: Results, mask: Mask, ops: Operands, e: nat)
    requires Resolves(cfg, st, ops, e) && addr < cfg.capacity && FreeSlot(st, Hashes(cfg, key), 0) != -1
    ensures Resolves(cfg, Place(cfg, st, addr, key, res, mask, None).st, ops, e)
    ensures Place(cfg, st, addr, key, res, mask, None).victim.None?
  {
    var free := FreeSlot(st, Hashes(cfg, key), 0);
    FreeSlotIsFree(st, Hashes(cfg, key), 0);
    assert CellAt(st, Hashes(cfg, ops), free).cnt > 0;
    StoreKeepsIff(cfg, st, addr, key, res, free, mask, ops, e);
  }

  // ---- a whole insertion ----

  /** What recycling entry `st.next` does to a rule in another entry. */
  lemma VacateKeepsIff(cfg: Config, st: State, ops: Operands, e: nat)
    requires Resolves(cfg, st, ops, e)
    ensures Resolves(cfg, Vacate(cfg, st), ops, e)
            <==> (st.m[st.next].used ==> SharesSafely(cfg, st, ops, st.m[st.next].key, None))
  {
    var st1 := st.(next := if st.next + 1 >= cfg.capacity then 1 else st.next + 1);
    SameAddress(st, st1, Hashes(cfg, ops), cfg.k);
    forall i | 0 <= i < cfg.k ensures CellAt(st1, Hashes(cfg, ops), i) == CellAt(st, Hashes(cfg, ops), i) {}
    if st.m[st.next].used { EvictKeepsIff(cfg, st1, st.next, None, ops, e); }
  }

  lemma VacateKeepsEntry(cfg: Config, st: State, e: nat)
    requires ValidConfig(cfg) && WellFormed(cfg, st) && e < cfg.capacity && e != st.next
    ensures Vacate(cfg, st).m[e] == st.m[e]
  {}

  /** When the new rule finds a free slot, every reachable rule that shares no slot with the recycled one alone
      answers as before, whatever masks the rules and the query have. */
  lemma InsertKeepsAnswers(cfg: Config, st: State, ops: Operands, res: Results, mask: Mask, q: Operands, qmask: Mask,
                           e: nat)
    requires Resolves(cfg, st, q, e) && e != st.next
    requires st.m[st.next].used ==> SharesSafely(cfg, st, q, st.m[st.next].key, None)
    requires FreeSlot(Vacate(cfg, st), Hashes(cfg, ops), 0) != -1
    ensures Resolves(cfg, Insert(cfg, st, ops, res, mask), q, e)
    ensures Lookup(cfg, Insert(cfg, st, ops, res, mask), q, qmask) == Lookup(cfg, st, q, qmask)
  {
    var st0, st' := Vacate(cfg, st), Insert(cfg, st, ops, res, mask);
    VacateKeepsIff(cfg, st, q, e);
    VacateKeepsEntry(cfg, st, e);
    FreeSlotKeeps(cfg, st0, st.next, ops, res, mask, q, e);
    assert st'.m[e] == st.m[e];
    LookupAtPath(cfg, st, q, qmask, e);
    LookupAtPath(cfg, st', q, qmask, e);
  }

  // ---- an insertion that displaces a rule ----

  /** One hop spares the rule at `e`: it shares no slot with the evicted rule alone, and the overwritten word is not
      one of its words. */
  predicate HopSpares(cfg: Config, st: State, addr: nat, key: Operands, guard: Option<seq<nat>>, q: Operands, e: nat)
    requires ValidConfig(cfg) && WellFormed(cfg, st)
  {
    var prep := Prepare(cfg, st, key, guard);
    && e != addr
    && (prep.room.victim.Some? ==>
          prep.room.victim.value.addr != e && SharesSafely(cfg, st, q, prep.room.victim.value.key, guard))
    && (prep.free != -1 ==> cfg.hash(prep.free, key) != cfg.hash(prep.free, q))
  }

  lemma PrepareIs(cfg: Config, st: State, key: Operands, guard: Option<seq<nat>>)
    requires ValidConfig(cfg) && WellFormed(cfg, st)
    ensures var room := Prepare(cfg, st, key, guard).room;
            && (room.victim.None? ==> room.st == st)
            && (room.victim.Some? ==>
                  room.st == Evict(cfg, st, room.victim.value.addr, guard)
                  && room.victim.value.key == st.m[room.victim.value.addr].key)
  {}

  lemma SparedByHop(cfg: Config, st: State, addr: nat, key: Operands, res: Results, mask: Mask,
                    guard: Option<seq<nat>>, q: Operands, e: nat)
    requires Resolves(cfg, st, q, e) && addr < cfg.capacity && HopSpares(cfg, st, addr, key, guard, q, e)
    ensures var st' := Place(cfg, st, addr, key, res, mask, guard).st;
            Resolves(cfg, st', q, e) && st'.m[e] == st.m[e]
  {
    var prep := Prepare(cfg, st, key, guard);
    PrepareIs(cfg, st, key, guard);
    if prep.room.victim.Some? { EvictKeepsIff(cfg, st, prep.room.victim.value.addr, guard, q, e); }
    if prep.free == -1 {
      SameAddress(st, Place(cfg, st, addr, key, res, mask, guard).st, Hashes(cfg, q), cfg.k);
    } else {
      StoreKeepsIff(cfg, prep.room.st, addr, key, res, prep.free, StoredMask(mask, guard, prep.room), q, e);
    }
  }

  /** The insertion spares the rule at `e` while it recycles an entry, places the new rule and re-homes a victim. */
  predicate Spares(cfg: Config, st: State, ops: Operands, res: Results, mask: Mask, q: Operands, e: nat)
    requires ValidConfig(cfg) && WellFormed(cfg, st) && InTables(st, Hashes(cfg, q))
  {
    var st0 := Vacate(cfg, st);
    var p := Place(cfg, st0, st.next, ops, res, mask, None);
    && (st.m[st.next].used ==> SharesSafely(cfg, st, q, st.m[st.next].key, None))
    && HopSpares(cfg, st0, st.next, ops, None, q, e)
    && (p.victim.Some? ==>
          HopSpares(cfg, p.st, p.victim.value.addr, p.victim.value.key, Some(Hashes(cfg, ops)), q, e))
  }

  /** A reachable rule that the insertion spares answers as before, whatever masks the rules and the query have. */
  lemma SparedAnswers(cfg: Config, st: State, ops: Operands, res: Results, mask: Mask, q: Operands, qmask: Mask, e: nat)
    requires Resolves(cfg, st, q, e) && Spares(cfg, st, ops, res, mask, q, e)
    ensures Resolves(cfg, Insert(cfg, st, ops, res, mask), q, e)
    ensures Lookup(cfg, Insert(cfg, st, ops, res, mask), q, qmask) == Lookup(cfg, st, q, qmask)
  {
    var st0 := Vacate(cfg, st);
    var p := Place(cfg, st0, st.next, ops, res, mask, None);
    VacateKeepsIff(cfg, st, q, e);
    VacateKeepsEntry(cfg, st, e);
    SparedByHop(cfg, st0, st.next, ops, res, mask, None, q, e);
    if p.victim.Some? {
      var v := p.victim.value;
      SparedByHop(cfg, p.st, v.addr, v.key, v.out, v.mask, Some(Hashes(cfg, ops)), q, e);
    }
    LookupAtPath(cfg, st, q, qmask, e);
    LookupAtPath(cfg, Insert(cfg, st, ops, res, mask), q, qmask, e);
  }

  /** With one mask, a displaced rule that is not given up is found again with its result. */
  lemma RehomedAnswers(cfg: Config, mask: Mask, st: State, ops: Operands, res: Results)
    requires Inv(cfg, mask, st) && InMask(mask, ops)
    ensures var p := Place(cfg, Vacate(cfg, st), st.next, ops, res, mask, None);
            p.victim.Some? && Prepare(cfg, p.st, p.victim.value.key, Some(Hashes(cfg, ops))).free != -1 ==>
              Lookup(cfg, Insert(cfg, st, ops, res, mask), p.victim.value.key, mask) == Some(p.victim.value.out)
  {
    var st0 := Vacate(cfg, st);
    var p := Place(cfg, st0, st.next, ops, res, mask, None);
    VacateInv(cfg, mask, st);
    PlaceNewRule(cfg, mask, st0, st.next, ops, res);
    if p.victim.Some? && Prepare(cfg, p.st, p.victim.value.key, Some(Hashes(cfg, ops))).free != -1 {
      assert EntryOk(mask, st0.m[p.victim.value.addr]);
      RehomedIsReached(cfg, mask, p.st, p.victim.value, ops, st.next);
    }
  }

  lemma RehomedIsReached(cfg: Config, mask: Mask, st: State, v: Victim, ops: Operands, e: nat)
    requires Inv(cfg, mask, st) && 0 < v.addr < cfg.capacity && st.m[v.addr] == Vacant(mask) && v.mask == mask
    requires InMask(mask, v.key) && e != v.addr && e < cfg.capacity && st.m[e].used && st.m[e].key == ops
    requires Prepare(cfg, st, v.key, Some(Hashes(cfg, ops))).free != -1
    ensures var st' := Place(cfg, st, v.addr, v.key, v.out, mask, Some(Hashes(cfg, ops))).st;
            Lookup(cfg, st', v.key, mask) == Some(v.out)
  {
    var guard := Some(Hashes(cfg, ops));
    PrepareInv(cfg, mask, st, v.key, guard, e);
    var prep := Prepare(cfg, st, v.key, guard);
    RealInsertInv(cfg, mask, prep.room.st, v.addr, v.key, v.out, prep.free);
    RealInsertResolves(cfg, prep.room.st, v.addr, v.key, v.out, prep.free, mask);
    LookupAtPath(cfg, RealInsert(cfg, prep.room.st, v.addr, v.key, v.out, prep.free, mask), v.key, mask, v.addr);
  }

  // ---- what is stored ----

  function Others(mask: Mask): Mask {
    seq(OPS_LEN, i requires 0 <= i < OPS_LEN => !mask[i])
  }

  /** The stored key has the operands' fields inside the mask and the old fields outside it, and nothing else does. */
  lemma MergeMatches(mask: Mask, stored: Operands, ops: Operands, key: Operands)
    ensures key == Merge(mask, stored, ops) <==> Matches(mask, key, ops) && Matches(Others(mask), key, stored)
  {}

  /** A displaced rule that is not given up is stored with its result in its own entry, under its own mask; but if it
      displaces another rule in turn, under that rule's mask, which overwrites the argument. */
  lemma RehomedEntry(cfg: Config, st: State, ops: Operands, res: Results, mask: Mask)
    requires ValidConfig(cfg) && WellFormed(cfg, st)
    ensures var st0, entries := Vacate(cfg, st), Insert(cfg, st, ops, res, mask).m;
            var p := Place(cfg, st0, st.next, ops, res, mask, None);
            p.victim.Some? ==>
              var v, second := p.victim.value, Prepare(cfg, p.st, p.victim.value.key, Some(Hashes(cfg, ops)));
              second.free != -1 ==>
                && entries[v.addr].used && entries[v.addr].out == st0.m[v.addr].out
                && entries[v.addr].mask == if second.room.victim.Some? then p.st.m[second.room.victim.value.addr].mask
                                           else st0.m[v.addr].mask
  {
    var st0 := Vacate(cfg, st);
    var p := Place(cfg, st0, st.next, ops, res, mask, None);
    PrepareVictim(cfg, st0, ops, None);
    if p.victim.Some? { PrepareVictim(cfg, p.st, p.victim.value.key, Some(Hashes(cfg, ops))); }
  }

  lemma PrepareVictim(cfg: Config, st: State, key: Operands, guard: Option<seq<nat>>)
    requires ValidConfig(cfg) && WellFormed(cfg, st)
    ensures var victim := Prepare(cfg, st, key, guard).room.victim;
            victim.Some? ==> var a := victim.value.addr;
                             victim.value == Victim(a, st.m[a].key, st.m[a].out, st.m[a].mask)
  {}

  // ---- the entries in turn ----

  /** The number of insertions since the last reset. */
  function InsertsSinceReset(trace: seq<Op>): nat {
    if trace == [] then 0
    else
      match trace[|trace| - 1]
      case OpInsert(_, _, _) => InsertsSinceReset(trace[..|trace| - 1]) + 1
      case OpLookup(_, _) => InsertsSinceReset(trace[..|trace| - 1])
      case OpReset => 0
  }

  lemma InsertTakesNext(cfg: Config, st: State, ops: Operands, res: Results, mask: Mask)
    requires ValidConfig(cfg) && WellFormed(cfg, st)
    ensures Insert(cfg, st, ops, res, mask).next == if st.next == cfg.capacity - 1 then 1 else st.next + 1
  {
    var st0 := Vacate(cfg, st);
    var p := Place(cfg, st0, st.next, ops, res, mask, None);
    PlaceKeepsNext(cfg, st0, st.next, ops, res, mask, None);
    if p.victim.Some? {
      var v := p.victim.value;
      PlaceKeepsNext(cfg, p.st, v.addr, v.key, v.out, v.mask, Some(Hashes(cfg, ops)));
    }
  }

  lemma PlaceKeepsNext(cfg: Config, st: State, addr: nat, ops: Operands, res: Results, mask: Mask,
                       guard: Option<seq<nat>>)
    requires ValidConfig(cfg) && WellFormed(cfg, st) && addr < cfg.capacity
    ensures Place(cfg, st, addr, ops, res, mask, guard).st.next == st.next
  {}

  predicate NextIs(cfg: Config, st: State, inserts: nat)
    requires ValidConfig(cfg)
  {
    st.next == 1 + Wrap(inserts, cfg.capacity - 1)
  }

  function Counted(op: Op, inserts: nat): nat {
    if op.OpReset? then 0 else if op.OpInsert? then inserts + 1 else inserts
  }

  lemma PerformTakesNext(cfg: Config, st: State, op: Op, inserts: nat)
    requires ValidConfig(cfg) && WellFormed(cfg, st) && NextIs(cfg, st, inserts)
    ensures NextIs(cfg, Perform(cfg, st, op), Counted(op, inserts))
  {
    if op.OpInsert? { InsertTakesNext(cfg, st, op.ops, op.res, op.mask); }
  }

  lemma RunLast(cfg: Config, masks: seq<Mask>, trace: seq<Op>)
    requires ValidConfig(cfg) && |masks| == cfg.capacity && trace != []
    ensures Run(cfg, masks, trace) == Perform(cfg, Run(cfg, masks, trace[..|trace| - 1]), trace[|trace| - 1])
  {}

  lemma CountedLast(trace: seq<Op>)
    requires trace != []
    ensures InsertsSinceReset(trace) == Counted(trace[|trace| - 1], InsertsSinceReset(trace[..|trace| - 1]))
  {}

  lemma {:induction false} EntriesWrap(cfg: Config, masks: seq<Mask>, trace: seq<Op>, n: nat, st: State)
    requires ValidConfig(cfg) && |masks| == cfg.capacity && n == InsertsSinceReset(trace)
    requires st == Run(cfg, masks, trace)
    ensures NextIs(cfg, st, n)
    decreases |trace|
  {
    if trace != [] {
      var before, op := trace[..|trace| - 1], trace[|trace| - 1];
      EntriesWrap(cfg, masks, before, InsertsSinceReset(before), Run(cfg, masks, before));
      PerformTakesNext(cfg, Run(cfg, masks, before), op, InsertsSinceReset(before));
      RunLast(cfg, masks, trace);
      CountedLast(trace);
    }
  }

  /** Insertions recycle the entries 1 to capacity - 1 in turn: the number of insertions since the reset tells the
      next one. */
  lemma EntriesInTurn(cfg: Config, masks: seq<Mask>, trace: seq<Op>)
    requires ValidConfig(cfg) && |masks| == cfg.capacity
    ensures Run(cfg, masks, trace).next == 1 + InsertsSinceReset(trace) % (cfg.capacity - 1)
  {
    EntriesWrap(cfg, masks, trace, InsertsSinceReset(trace), Run(cfg, masks, trace));
    WrapIsMod(InsertsSinceReset(trace), cfg.capacity - 1);
  }

  /** A reset blanks every slot and every entry, keeps the masks of the entries and starts again at entry 1. */
  lemma ResetBlanks(cfg: Config, st: State, i: nat, s: nat, a: nat)
    requires ValidConfig(cfg) && WellFormed(cfg, st) && i < cfg.k && s < cfg.slots && a < cfg.capacity
    ensures var st' := Reset(cfg, st);
            && st'.g[i][s] == Cell(0, 0, 0) && st'.next == 1
            && st'.m[a] == Entry(false, ZERO_OPERANDS, ZERO_RESULTS, st.m[a].mask)
  {}

  /** A flush keeps the operands of the latest `allow`, so a rule that is installed after it goes in under them, and
      the process survives. */
  lemma InstallAfterFlush(cfg: Config, w: Cache.Wrapper, ops: Operands, res: Results)
    requires Cache.ValidWrapper(cfg, w)
    ensures var w' := Cache.Installed(cfg, Cache.Flushed(cfg, Cache.Allowed(w, ops)), res);
            Cache.Hit(cfg, w', ops) == Some(res) && w'.exit == 0
  {
    var masks := seq(cfg.capacity, a requires 0 <= a < cfg.capacity => w.st.m[a].mask);
    var empty := Empty(cfg, masks);
    assert Cache.Flushed(cfg, Cache.Allowed(w, ops)).st == empty;
    RunOfOne(cfg, masks, OpInsert(ops, res, MaskOf(ops)));
    FirstInsert(cfg, masks, ops, res);
    LookupAtPath(cfg, Insert(cfg, empty, ops, res, MaskOf(ops)), ops, MaskOf(ops), 1);
    assert CellAt(Vacate(cfg, empty), Hashes(cfg, ops), 0).cnt == 0;
  }
}
