/** A cache with two tables of 16 slots for 8 entries: what insertions do to the counters and last inserters of
    its slots, without the words that the slots hold. */
module DmhcTwoTables {
  import opened Wrappers
  import opened RiscvIsa
  import opened DmhcSpec
  import opened DmhcTheorems
  import opened DmhcMixed
  import opened DmhcSelfCheck
  import opened DmhcAssertion

  /** Two tables of 16 slots for 8 entries. */
  ghost predicate TwoTables(cfg: Config) {
    ValidConfig(cfg) && cfg.k == 2 && cfg.slots == 16 && cfg.capacity == 8
  }

  function FirstIndex(cfg: Config, o: Operands): (s: nat)
    requires TwoTables(cfg)
    ensures s < 16
  {
    cfg.hash(0, o)
  }

  function SecondIndex(cfg: Config, o: Operands): (s: nat)
    requires TwoTables(cfg)
    ensures s < 16
  {
    cfg.hash(1, o)
  }

  ghost predicate IndexesAre(cfg: Config, o: Operands, a: nat, b: nat)
    requires TwoTables(cfg)
  {
    FirstIndex(cfg, o) == a && SecondIndex(cfg, o) == b
  }

  // ---- tables without their words ----

  /** The count and the last inserter of a slot. */
  type Use = (nat, nat)

  /** A state, without the words of the G-tables. */
  datatype View = View(first: seq<Use>, second: seq<Use>, m: seq<Entry>, next: nat)

  ghost predicate Shaped(cfg: Config, st: State) {
    TwoTables(cfg) && WellFormed(cfg, st)
  }

  ghost function UsesOf(cfg: Config, st: State, i: nat): (uses: seq<Use>)
    requires Shaped(cfg, st) && i < 2
    ensures |uses| == 16 && forall s | 0 <= s < 16 :: uses[s] == (st.g[i][s].cnt, st.g[i][s].last)
  {
    seq(16, s requires 0 <= s < 16 => (st.g[i][s].cnt, st.g[i][s].last))
  }

  ghost function ViewOf(cfg: Config, st: State): View
    requires Shaped(cfg, st)
  {
    View(UsesOf(cfg, st, 0), UsesOf(cfg, st, 1), st.m, st.next)
  }

  function Used(u: Use, e: nat): Use {
    (if u.0 != GTABLE_MAX_COUNT then u.0 + 1 else u.0, e)
  }

  function Released(u: Use, addr: nat, guarded: bool): Use {
    var cnt := if u.0 > 0 && (!guarded || u.0 > 1) then u.0 - 1 else u.0;
    if cnt == 0 then (0, 0) else (cnt, if u.1 == addr then 0 else u.1)
  }

  /** Storing a rule counts it in its slots and names its entry there. */
  lemma RealInsertView(cfg: Config, st: State, addr: nat, ops: Operands, res: Results, free: nat, mask: Mask)
    requires Shaped(cfg, st) && addr < 8
    ensures var v, a, b := ViewOf(cfg, st), FirstIndex(cfg, ops), SecondIndex(cfg, ops);
            ViewOf(cfg, RealInsert(cfg, st, addr, ops, res, free, mask))
            == View(v.first[a := Used(v.first[a], addr)], v.second[b := Used(v.second[b], addr)],
                    v.m[addr := Entry(true, Merge(mask, v.m[addr].key, ops), res, mask)], v.next)
  {
    var a, b, hs := FirstIndex(cfg, ops), SecondIndex(cfg, ops), Hashes(cfg, ops);
    var cells := InsertCells(cfg, st, hs, addr, free);
    var st' := RealInsert(cfg, st, addr, ops, res, free, mask);
    assert hs[0] == a && hs[1] == b;
    assert st'.g[0] == st.g[0][a := cells[0]] && st'.g[1] == st.g[1][b := cells[1]];
    assert CellAt(st, hs, 0) == st.g[0][a] && CellAt(st, hs, 1) == st.g[1][b];
    assert UsesOf(cfg, st', 0) == UsesOf(cfg, st, 0)[a := Used(UsesOf(cfg, st, 0)[a], addr)];
    assert UsesOf(cfg, st', 1) == UsesOf(cfg, st, 1)[b := Used(UsesOf(cfg, st, 1)[b], addr)];
  }

  lemma EvictUses(cfg: Config, st: State, addr: nat, guard: Option<seq<nat>>, i: nat)
    requires Shaped(cfg, st) && addr < 8 && i < 2
    ensures var hs := Hashes(cfg, st.m[addr].key);
            UsesOf(cfg, Evict(cfg, st, addr, guard), i)
            == UsesOf(cfg, st, i)[hs[i] := Released(UsesOf(cfg, st, i)[hs[i]], addr, Guarded(guard, hs, i))]
  {
    var hs, st' := Hashes(cfg, st.m[addr].key), Evict(cfg, st, addr, guard);
    assert CellAt(st, hs, i) == st.g[i][hs[i]];
    assert st'.g[i] == st.g[i][hs[i] := EvictCell(st.g[i][hs[i]], addr, Guarded(guard, hs, i))];
  }

  lemma EvictView(cfg: Config, st: State, addr: nat, guard: Option<seq<nat>>)
    requires Shaped(cfg, st) && addr < 8
    ensures var v := ViewOf(cfg, st);
            var a, b := FirstIndex(cfg, v.m[addr].key), SecondIndex(cfg, v.m[addr].key);
            ViewOf(cfg, Evict(cfg, st, addr, guard))
            == View(v.first[a := Released(v.first[a], addr, Guarded(guard, [a, b], 0))],
                    v.second[b := Released(v.second[b], addr, Guarded(guard, [a, b], 1))],
                    v.m[addr := Entry(false, ZERO_OPERANDS, ZERO_RESULTS, v.m[addr].mask)], v.next)
  {
    assert Hashes(cfg, st.m[addr].key) == [FirstIndex(cfg, st.m[addr].key), SecondIndex(cfg, st.m[addr].key)];
    EvictUses(cfg, st, addr, guard, 0);
    EvictUses(cfg, st, addr, guard, 1);
  }

  // ---- one insertion ----

  predicate Sized(v: View) {
    |v.first| == |v.second| == 16 && |v.m| == 8 && v.next < 8
  }

  /** The next entry is blank, and one of the two slots is unused. */
  predicate HasRoom(cfg: Config, v: View, ops: Operands)
    requires TwoTables(cfg) && Sized(v)
  {
    && !v.m[v.next].used && v.m[v.next].key == ZERO_OPERANDS && v.next < 7
    && (v.first[FirstIndex(cfg, ops)].0 == 0 || v.second[SecondIndex(cfg, ops)].0 == 0)
  }

  function Stored(cfg: Config, v: View, ops: Operands, res: Results): (v': View)
    requires TwoTables(cfg) && Sized(v) && v.next < 7
    ensures Sized(v')
  {
    var a, b := FirstIndex(cfg, ops), SecondIndex(cfg, ops);
    View(v.first[a := Used(v.first[a], v.next)], v.second[b := Used(v.second[b], v.next)],
         v.m[v.next := Entry(true, ops, res, MaskOf(ops))], v.next + 1)
  }

  /** A rule for which a slot is unused is missed before, fits, and is stored. */
  lemma FreeStep(cfg: Config, st: State, ops: Operands, res: Results)
    requires Shaped(cfg, st) && HasRoom(cfg, ViewOf(cfg, st), ops)
    ensures ViewOf(cfg, Insert(cfg, st, ops, res, MaskOf(ops))) == Stored(cfg, ViewOf(cfg, st), ops, res)
    ensures Fits(cfg, st, ops, res)
  {
    var st0 := Vacate(cfg, st);
    var hs := Hashes(cfg, ops);
    assert CellAt(st0, hs, 0) == st.g[0][FirstIndex(cfg, ops)] && CellAt(st0, hs, 1) == st.g[1][SecondIndex(cfg, ops)];
    var free := FreeSlot(st0, hs, 0);
    assert free != -1 by {
      assert FreeSlot(st0, hs, 1) == if CellAt(st0, hs, 1).cnt == 0 then 1 else FreeSlot(st0, hs, 2);
    }
    RealInsertView(cfg, st0, st.next, ops, res, free, MaskOf(ops));
    UnusedSlotSuffices(cfg, st, ops, res, MaskOf(ops));
    assert UsesOf(cfg, st0, 0) == UsesOf(cfg, st, 0) && UsesOf(cfg, st0, 1) == UsesOf(cfg, st, 1);
    assert Merge(MaskOf(ops), ZERO_OPERANDS, ops) == ops;
  }

  lemma StoredAt(cfg: Config, v: View, ops: Operands, res: Results, a: nat)
    requires TwoTables(cfg) && Sized(v) && v.next < 7 && a < 8
    ensures Stored(cfg, v, ops, res).m[a] == if a == v.next then Entry(true, ops, res, MaskOf(ops)) else v.m[a]
  {}

  /** Choosing a slot in two tables. */
  lemma TwoSlots(cfg: Config, st: State, ops: Operands, guard: Option<seq<nat>>)
    requires Shaped(cfg, st)
    ensures var hs := Hashes(cfg, ops);
            var u, w := UsesOf(cfg, st, 0)[FirstIndex(cfg, ops)], UsesOf(cfg, st, 1)[SecondIndex(cfg, ops)];
            && hs == [FirstIndex(cfg, ops), SecondIndex(cfg, ops)]
            && (CellAt(st, hs, 0).cnt, CellAt(st, hs, 0).last) == u
            && (CellAt(st, hs, 1).cnt, CellAt(st, hs, 1).last) == w
            && FreeSlot(st, hs, 0) == (if u.0 == 0 then 0 else if w.0 == 0 then 1 else -1)
            && MinUse(st, hs, guard, 2)
               == if Guarded(guard, hs, 0) && Guarded(guard, hs, 1) then -1
                  else if Guarded(guard, hs, 0) then 1
                  else if Guarded(guard, hs, 1) then 0
                  else if w.0 < u.0 then 1 else 0
  {
    var hs := Hashes(cfg, ops);
    assert hs == [FirstIndex(cfg, ops), SecondIndex(cfg, ops)];
    assert FreeSlot(st, hs, 2) == -1;
    assert FreeSlot(st, hs, 1) == if CellAt(st, hs, 1).cnt == 0 then 1 else -1;
    assert MinUse(st, hs, guard, 0) == -1;
    assert MinUse(st, hs, guard, 1) == if Guarded(guard, hs, 0) then -1 else 0;
  }

  // ---- runs ----

  /** The wrapper installs the records one after another, all with the same result. */
  function Inserts(records: seq<Operands>, res: Results): (trace: seq<Op>)
    ensures |trace| == |records|
    ensures forall i | 0 <= i < |records| :: trace[i] == OpInsert(records[i], res, MaskOf(records[i]))
  {
    seq(|records|, i requires 0 <= i < |records| => OpInsert(records[i], res, MaskOf(records[i])))
  }

  /** The state after the first `n` records. */
  function StateAfter(cfg: Config, masks: seq<Mask>, records: seq<Operands>, res: Results, n: nat): (st: State)
    requires ValidConfig(cfg) && |masks| == cfg.capacity && n <= |records|
    ensures WellFormed(cfg, st)
  {
    Run(cfg, masks, Inserts(records[..n], res))
  }

  lemma NextState(cfg: Config, masks: seq<Mask>, records: seq<Operands>, res: Results, n: nat)
    requires ValidConfig(cfg) && |masks| == cfg.capacity && n < |records|
    ensures StateAfter(cfg, masks, records, res, n + 1)
            == Insert(cfg, StateAfter(cfg, masks, records, res, n), records[n], res, MaskOf(records[n]))
  {
    assert Inserts(records[..n + 1], res)[..n] == Inserts(records[..n], res);
  }

  predicate MissesAt(cfg: Config, masks: seq<Mask>, records: seq<Operands>, res: Results, n: nat)
    requires ValidConfig(cfg) && |masks| == cfg.capacity && n < |records|
  {
    Lookup(cfg, StateAfter(cfg, masks, records, res, n), records[n], MaskOf(records[n])) == None
  }

  function ExitAt(cfg: Config, masks: seq<Mask>, records: seq<Operands>, res: Results, n: nat): nat
    requires ValidConfig(cfg) && |masks| == cfg.capacity && n < |records|
  {
    ExitCode(cfg, StateAfter(cfg, masks, records, res, n), records[n], res, MaskOf(records[n]))
  }

  /** Every record is missed before it is installed, and the last installation is the first to end the process,
      with exit code `code`. */
  ghost predicate EndsWith(cfg: Config, masks: seq<Mask>, records: seq<Operands>, res: Results, code: nat) {
    && ValidConfig(cfg) && |masks| == cfg.capacity && |records| > 0 && code != 0
    && (forall n | 0 <= n < |records| :: MissesAt(cfg, masks, records, res, n))
    && (forall n | 0 <= n < |records| - 1 :: ExitAt(cfg, masks, records, res, n) == 0)
    && ExitAt(cfg, masks, records, res, |records| - 1) == code
  }

  /** None of the first `n` installations ends the process. */
  ghost predicate NoExit(cfg: Config, masks: seq<Mask>, records: seq<Operands>, res: Results, n: nat)
    requires ValidConfig(cfg) && |masks| == cfg.capacity && n <= |records|
  {
    forall i | 0 <= i < n :: ExitAt(cfg, masks, records, res, i) == 0
  }

  lemma LivesBefore(cfg: Config, masks: seq<Mask>, records: seq<Operands>, res: Results, n: nat, m: nat)
    requires ValidConfig(cfg) && |masks| == cfg.capacity && n <= m <= |records| && NoExit(cfg, masks, records, res, m)
    ensures NoExit(cfg, masks, records, res, n)
  {}

  lemma OneMoreLives(cfg: Config, masks: seq<Mask>, records: seq<Operands>, res: Results, n: nat)
    requires ValidConfig(cfg) && |masks| == cfg.capacity && n < |records|
    requires NoExit(cfg, masks, records, res, n) && ExitAt(cfg, masks, records, res, n) == 0
    ensures NoExit(cfg, masks, records, res, n + 1)
  {}

  lemma {:induction false} AliveAfter(cfg: Config, masks: seq<Mask>, records: seq<Operands>, res: Results, n: nat)
    requires ValidConfig(cfg) && |masks| == cfg.capacity && n <= |records| && NoExit(cfg, masks, records, res, n)
    ensures Alive(cfg, masks, Inserts(records[..n], res))
  {
    if n > 0 {
      var trace := Inserts(records[..n], res);
      AliveAfter(cfg, masks, records, res, n - 1);
      assert trace[..|trace| - 1] == Inserts(records[..n - 1], res);
      assert trace[|trace| - 1] == OpInsert(records[n - 1], res, MaskOf(records[n - 1]));
      assert ExitAt(cfg, masks, records, res, n - 1) == 0;
    }
  }

  /** While the process lives, a record that no earlier one contains is missed. */
  lemma NewIsMissed(cfg: Config, masks: seq<Mask>, records: seq<Operands>, res: Results, n: nat)
    requires ValidConfig(cfg) && |masks| == cfg.capacity && n < |records| && records[n] != ZERO_OPERANDS
    requires NoExit(cfg, masks, records, res, n)
    requires forall i | 0 <= i < n :: !Extends(records[i], records[n])
    ensures MissesAt(cfg, masks, records, res, n)
  {
    var trace := Inserts(records[..n], res);
    AliveAfter(cfg, masks, records, res, n);
    AliveChecks(cfg, masks, trace);
    MixedRunSound(cfg, masks, trace, records[n]);
    InstalledAmong(records, res, n);
  }

  lemma {:induction false} InstalledAmong(records: seq<Operands>, res: Results, n: nat)
    requires n <= |records|
    ensures forall rule | rule in Installed(Inserts(records[..n], res)) ::
              exists i :: 0 <= i < n && records[i] == rule.0
  {
    if n > 0 {
      InstalledAmong(records, res, n - 1);
      assert Inserts(records[..n], res)[..n - 1] == Inserts(records[..n - 1], res);
      forall rule | rule in Installed(Inserts(records[..n], res))
        ensures exists i :: 0 <= i < n && records[i] == rule.0
      {
        if rule !in Installed(Inserts(records[..n - 1], res)) { assert records[n - 1] == rule.0; }
      }
    }
  }

  /** While the process lives, a rule that fits does not end it. */
  lemma FitsExits0(cfg: Config, masks: seq<Mask>, records: seq<Operands>, res: Results, n: nat)
    requires ValidConfig(cfg) && |masks| == cfg.capacity && n < |records|
    requires NoExit(cfg, masks, records, res, n)
    requires Fits(cfg, StateAfter(cfg, masks, records, res, n), records[n], res)
    ensures ExitAt(cfg, masks, records, res, n) == 0
  {
    var trace := Inserts(records[..n], res);
    AliveAfter(cfg, masks, records, res, n);
    AliveChecks(cfg, masks, trace);
    MixedRunInvariant(cfg, masks, trace);
    FitsSuffices(cfg, Installed(trace), StateAfter(cfg, masks, records, res, n), records[n], res);
  }

  /** While the process lives, the self-check of an installation passes exactly when it does not evict its entry. */
  lemma CheckAtIff(cfg: Config, masks: seq<Mask>, records: seq<Operands>, res: Results, n: nat)
    requires ValidConfig(cfg) && |masks| == cfg.capacity && n < |records| && NoExit(cfg, masks, records, res, n)
    requires Distinguishable(records[n], res)
    ensures var st, ops := StateAfter(cfg, masks, records, res, n), records[n];
            Lookup(cfg, Insert(cfg, st, ops, res, MaskOf(ops)), ops, MaskOf(ops)) == Some(res)
            <==> !EvictsItself(cfg, st, ops, res)
  {
    var trace := Inserts(records[..n], res);
    AliveAfter(cfg, masks, records, res, n);
    AliveChecks(cfg, masks, trace);
    MixedRunInvariant(cfg, masks, trace);
    InsertPassesIff(cfg, Installed(trace), StateAfter(cfg, masks, records, res, n), records[n], res);
  }

  // ---- runs in which every rule finds an unused slot ----

  function ViewAfter(cfg: Config, masks: seq<Mask>, records: seq<Operands>, res: Results, n: nat): (v: View)
    requires TwoTables(cfg) && |masks| == 8 && n <= |records| && n <= 6
    ensures Sized(v) && v.next == n + 1
  {
    if n == 0 then
      View(seq(16, _ => (0, 0)), seq(16, _ => (0, 0)),
           seq(8, a requires 0 <= a < 8 => Entry(false, ZERO_OPERANDS, ZERO_RESULTS, masks[a])), 1)
    else Stored(cfg, ViewAfter(cfg, masks, records, res, n - 1), records[n - 1], res)
  }

  const BLANK: seq<Use> := seq(16, _ => (0, 0))

  /** There is room for record `n` after the records before it. */
  ghost predicate Roomy(cfg: Config, masks: seq<Mask>, records: seq<Operands>, res: Results, n: nat)
    requires TwoTables(cfg) && |masks| == 8 && n < |records| && n < 6
  {
    HasRoom(cfg, ViewAfter(cfg, masks, records, res, n), records[n])
  }

  ghost predicate Slots(cfg: Config, masks: seq<Mask>, records: seq<Operands>, res: Results, n: nat,
                        first: seq<Use>, second: seq<Use>)
    requires TwoTables(cfg) && |masks| == 8 && n <= |records| && n <= 6
  {
    ViewAfter(cfg, masks, records, res, n).first == first && ViewAfter(cfg, masks, records, res, n).second == second
  }

  lemma {:induction false} OtherEntryBlank(cfg: Config, masks: seq<Mask>, records: seq<Operands>, res: Results, n: nat,
                                           a: nat)
    requires TwoTables(cfg) && |masks| == 8 && n <= |records| && n <= 6 && a < 8 && (a == 0 || n < a)
    ensures ViewAfter(cfg, masks, records, res, n).m[a] == Entry(false, ZERO_OPERANDS, ZERO_RESULTS, masks[a])
  {
    if n > 0 { OtherEntryBlank(cfg, masks, records, res, n - 1, a); }
  }

  lemma StoreAt(cfg: Config, masks: seq<Mask>, records: seq<Operands>, res: Results, n: nat, a: nat, b: nat,
                first: seq<Use>, second: seq<Use>, u: Use, w: Use)
    requires TwoTables(cfg) && |masks| == 8 && n < |records| && n < 6 && |first| == |second| == 16
    requires Slots(cfg, masks, records, res, n, first, second)
    requires IndexesAre(cfg, records[n], a, b)
    requires first[a].0 == 0 || second[b].0 == 0
    requires u == Used(first[a], n + 1) && w == Used(second[b], n + 1)
    ensures Slots(cfg, masks, records, res, n + 1, first[a := u], second[b := w])
    ensures Roomy(cfg, masks, records, res, n)
  {
    OtherEntryBlank(cfg, masks, records, res, n, n + 1);
  }

  lemma {:induction false} EntryStored(cfg: Config, masks: seq<Mask>, records: seq<Operands>, res: Results, n: nat,
                                       a: nat, key: Operands)
    requires TwoTables(cfg) && |masks| == 8 && 0 < a <= n <= |records| && n <= 6 && key == records[a - 1]
    ensures ViewAfter(cfg, masks, records, res, n).m[a] == Entry(true, key, res, MaskOf(key))
  {
    StoredAt(cfg, ViewAfter(cfg, masks, records, res, n - 1), records[n - 1], res, a);
    if a < n { EntryStored(cfg, masks, records, res, n - 1, a, key); }
  }

  lemma FreeRunStep(cfg: Config, masks: seq<Mask>, records: seq<Operands>, res: Results, n: nat)
    requires TwoTables(cfg) && |masks| == 8 && n < |records| && n < 6 && Roomy(cfg, masks, records, res, n)
    requires ViewOf(cfg, StateAfter(cfg, masks, records, res, n)) == ViewAfter(cfg, masks, records, res, n)
    requires NoExit(cfg, masks, records, res, n)
    ensures ViewOf(cfg, StateAfter(cfg, masks, records, res, n + 1)) == ViewAfter(cfg, masks, records, res, n + 1)
    ensures ExitAt(cfg, masks, records, res, n) == 0
  {
    NextState(cfg, masks, records, res, n);
    FreeStep(cfg, StateAfter(cfg, masks, records, res, n), records[n], res);
    FitsExits0(cfg, masks, records, res, n);
  }

  ghost predicate RoomyUpTo(cfg: Config, masks: seq<Mask>, records: seq<Operands>, res: Results, n: nat)
    requires TwoTables(cfg) && |masks| == 8 && n <= |records| && n <= 6
  {
    n > 0 ==> Roomy(cfg, masks, records, res, n - 1) && RoomyUpTo(cfg, masks, records, res, n - 1)
  }

  lemma NoneInserted(cfg: Config, masks: seq<Mask>, records: seq<Operands>, res: Results)
    requires TwoTables(cfg) && |masks| == 8
    ensures ViewOf(cfg, StateAfter(cfg, masks, records, res, 0)) == ViewAfter(cfg, masks, records, res, 0)
  {
    var st, v := StateAfter(cfg, masks, records, res, 0), ViewAfter(cfg, masks, records, res, 0);
    assert records[..0] == [] && st == Empty(cfg, masks);
    assert UsesOf(cfg, st, 0) == v.first && UsesOf(cfg, st, 1) == v.second;
    assert st.m == v.m;
  }

  /** Then the views are those of the states, and no rule ends the process. */
  lemma {:induction false} FreeRun(cfg: Config, masks: seq<Mask>, records: seq<Operands>, res: Results, n: nat)
    requires TwoTables(cfg) && |masks| == 8 && n <= |records| && n <= 6 && RoomyUpTo(cfg, masks, records, res, n)
    ensures ViewOf(cfg, StateAfter(cfg, masks, records, res, n)) == ViewAfter(cfg, masks, records, res, n)
    ensures NoExit(cfg, masks, records, res, n)
  {
    if n == 0 {
      NoneInserted(cfg, masks, records, res);
    } else {
      FreeRun(cfg, masks, records, res, n - 1);
      FreeRunStep(cfg, masks, records, res, n - 1);
      OneMoreLives(cfg, masks, records, res, n - 1);
    }
  }
}
