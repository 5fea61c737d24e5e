/** The multi-hash rule cache with its arrays updated in place
    (validator/rule_cache/dmhc_rule_cache/dmhc.cc). */
module Dmhc {
  import opened Wrappers
  import opened Bits
  import opened RiscvIsa
  import opened DmhcSpec
  import opened DmhcInvariant
  import opened DmhcTheorems

  class Dmhc {
    const cfg: Config
    ghost var model: State

    var next_entry: nat
    const gtable: array2<nat>
    const gtable_cnt: array2<nat>
    const gtable_lastinsert: array2<nat>
    const mtable_use: array<bool>
    const mtable_inputs: array<Operands>
    const mtable_outputs: array<Results>
    const consider_mtable_input: array2<bool>

    // scratch space the C++ code reuses between calls
    const hashes: array<nat>
    const victim_hashes: array<nat>
    const do_not_victimize_hashes: array<nat>
    const consider_evict: array<bool>
    var victim_ops: Operands
    var victim_res: Results
    var reinsert_ops: Operands
    var reinsert_res: Results

    constructor (cfg: Config)
      requires ValidConfig(cfg)
      ensures Valid() && fresh(Repr()) && this.cfg == cfg
      ensures IsEmpty(cfg, model)
    {
      this.cfg := cfg;
      gtable := new nat[cfg.k, cfg.slots];
      gtable_cnt := new nat[cfg.k, cfg.slots];
      gtable_lastinsert := new nat[cfg.k, cfg.slots];
      mtable_use := new bool[cfg.capacity];
      mtable_inputs := new Operands[cfg.capacity];
      mtable_outputs := new Results[cfg.capacity];
      consider_mtable_input := new bool[OPS_LEN, cfg.capacity];
      hashes := new nat[cfg.k];
      victim_hashes := new nat[cfg.k];
      do_not_victimize_hashes := new nat[cfg.k];
      consider_evict := new bool[OPS_LEN];
      victim_ops, victim_res := ZERO_OPERANDS, ZERO_RESULTS;
      reinsert_ops, reinsert_res := ZERO_OPERANDS, ZERO_RESULTS;
      next_entry := 1;
      new;
      assert fresh(Repr());
      assert Shape();
      Start();
    }

    ghost function MaskOfEntry(a: nat): (mask: Mask)
      requires Shape() && a < cfg.capacity
      reads consider_mtable_input
    {
      seq(OPS_LEN, f requires 0 <= f < OPS_LEN reads consider_mtable_input => consider_mtable_input[f, a])
    }

    /** The constructor's closing `reset`, when the mask arrays hold whatever was allocated. */
    method Start()
      requires Shape()
      modifies this, gtable, gtable_cnt, gtable_lastinsert, mtable_use, mtable_inputs, mtable_outputs
      ensures Valid()
      ensures IsEmpty(cfg, model)
    {
      ClearTables();
      next_entry := 1;
      ghost var masks: seq<Mask> := [];
      for a := 0 to cfg.capacity
        invariant |masks| == a && forall b | 0 <= b < a :: masks[b] == MaskOfEntry(b)
        modifies {}
      {
        masks := masks + [MaskOfEntry(a)];
      }
      model := Empty(cfg, masks);
    }

    ghost predicate Shape() {
      && ValidConfig(cfg)
      && gtable.Length0 == gtable_cnt.Length0 == gtable_lastinsert.Length0 == cfg.k
      && gtable.Length1 == gtable_cnt.Length1 == gtable_lastinsert.Length1 == cfg.slots
      && gtable != gtable_cnt && gtable != gtable_lastinsert && gtable_cnt != gtable_lastinsert
      && mtable_use.Length == mtable_inputs.Length == mtable_outputs.Length == cfg.capacity
      && consider_mtable_input.Length0 == OPS_LEN && consider_mtable_input.Length1 == cfg.capacity
      && hashes.Length == victim_hashes.Length == do_not_victimize_hashes.Length == cfg.k
      && hashes != victim_hashes && hashes != do_not_victimize_hashes && victim_hashes != do_not_victimize_hashes
      && consider_evict.Length == OPS_LEN && consider_evict !in Tables()
      && hashes !in Tables() && victim_hashes !in Tables() && do_not_victimize_hashes !in Tables()
    }

    ghost predicate GTablesAre(g: seq<seq<Cell>>)
      requires Shape() && |g| == cfg.k && forall i | 0 <= i < cfg.k :: |g[i]| == cfg.slots
      reads gtable, gtable_cnt, gtable_lastinsert
    {
      forall i, s | 0 <= i < cfg.k && 0 <= s < cfg.slots ::
        && gtable[i, s] == g[i][s].word
        && gtable_cnt[i, s] == g[i][s].cnt
        && gtable_lastinsert[i, s] == g[i][s].last
    }

    ghost predicate MTableIs(m: seq<Entry>)
      requires Shape() && |m| == cfg.capacity
      reads mtable_use, mtable_inputs, mtable_outputs, consider_mtable_input
    {
      forall a | 0 <= a < cfg.capacity ::
        && mtable_use[a] == m[a].used && mtable_inputs[a] == m[a].key && mtable_outputs[a] == m[a].out
        && forall f | 0 <= f < OPS_LEN :: consider_mtable_input[f, a] == m[a].mask[f]
    }

    /** The arrays hold exactly `model`. */
    ghost predicate Valid()
      reads this, gtable, gtable_cnt, gtable_lastinsert, mtable_use, mtable_inputs, mtable_outputs,
        consider_mtable_input
    {
      && Shape() && WellFormed(cfg, model)
      && next_entry == model.next
      && GTablesAre(model.g)
      && MTableIs(model.m)
    }

    ghost function Tables(): set<object> {
      {this, gtable, gtable_cnt, gtable_lastinsert, mtable_use, mtable_inputs, mtable_outputs, consider_mtable_input}
    }

    ghost function Repr(): set<object> {
      Tables() + {hashes, victim_hashes, do_not_victimize_hashes, consider_evict}
    }

    /** Rows `..i` come from `g'` and the rest from `g`; replacing row `i` moves the boundary up. */
    static lemma Splice(g: seq<seq<Cell>>, g': seq<seq<Cell>>, i: nat)
      requires |g| == |g'| && i < |g|
      ensures (g'[..i] + g[i..])[i := g'[i]] == g'[..i + 1] + g[i + 1..]
    {}

    method ComputeHashes(ops: Operands, hashesToFill: array<nat>)
      requires hashesToFill.Length == cfg.k
      modifies hashesToFill
      ensures hashesToFill[..] == Hashes(cfg, ops)
    {
      for i := 0 to cfg.k
        invariant hashesToFill[..i] == Hashes(cfg, ops)[..i]
      {
        hashesToFill[i] := cfg.hash(i, ops);
      }
    }

    method Hit(ops: Operands, address: nat, consider: array<bool>) returns (hit: bool)
      requires Valid() && address < cfg.capacity && consider.Length == OPS_LEN
      ensures hit <==> model.m[address].used && Matches(consider[..], model.m[address].key, ops)
    {
      if mtable_use[address] == false { return false; }
      if consider[0] && mtable_inputs[address].pc != ops.pc { return false; }
      if consider[1] && mtable_inputs[address].ci != ops.ci { return false; }
      if consider[2] && mtable_inputs[address].op1 != ops.op1 { return false; }
      if consider[3] && mtable_inputs[address].op2 != ops.op2 { return false; }
      if consider[4] && mtable_inputs[address].op3 != ops.op3 { return false; }
      if consider[5] && mtable_inputs[address].mem != ops.mem { return false; }
      return true;
    }

    /** On a miss the caller's result is left alone, as the C++ reference parameter is. */
    method Lookup(ops: Operands, resIn: Results, consider: array<bool>) returns (found: bool, res: Results)
      requires Valid() && consider.Length == OPS_LEN
      modifies hashes
      ensures Valid() && model == old(model)
      ensures var hit := DmhcSpec.Lookup(cfg, model, ops, consider[..]);
              found == hit.Some? && res == if found then hit.value else resIn
    {
      ComputeHashes(ops, hashes);
      ghost var hs := Hashes(cfg, ops);
      for i := 0 to cfg.k
        invariant forall j | 0 <= j < i :: CellAt(model, hs, j).cnt != 0
      {
        if gtable_cnt[i, hashes[i]] == 0 {
          assert CellAt(model, hs, i).cnt == 0;
          return false, resIn;
        }
      }
      var addr := 0;
      for i := 0 to cfg.k
        invariant addr == Address(model, hs, i)
      {
        addr := Xor(addr, gtable[i, hashes[i]]);
      }
      AddressInRange(cfg, model, hs, cfg.k);
      var h := Hit(ops, addr, consider);
      if h { return true, mtable_outputs[addr]; } else { return false, resIn; }
    }

    ghost function GuardOf(doNotVictimize: array?<nat>): Option<seq<nat>>
      reads doNotVictimize
    {
      if doNotVictimize == null then None else Some(doNotVictimize[..])
    }

    /** One iteration of the eviction loop: drop the victim's contribution to slot `h` of table `i`. */
    method ReleaseSlot(i: nat, h: nat, address: nat, isProtected: bool, ghost g: seq<seq<Cell>>)
      requires Shape() && |g| == cfg.k && (forall j | 0 <= j < cfg.k :: |g[j]| == cfg.slots) && GTablesAre(g)
      requires i < cfg.k && h < cfg.slots
      modifies gtable, gtable_cnt, gtable_lastinsert
      ensures GTablesAre(g[i := g[i][h := EvictCell(g[i][h], address, isProtected)]])
    {
      if gtable_cnt[i, h] > 0 {
        if !isProtected {
          gtable_cnt[i, h] := gtable_cnt[i, h] - 1;
        } else if gtable_cnt[i, h] > 1 {
          gtable_cnt[i, h] := gtable_cnt[i, h] - 1;
        }
      }
      if gtable_cnt[i, h] == 0 {
        gtable[i, h] := 0;
        gtable_lastinsert[i, h] := INVALID_LAST_USER;
      } else if gtable_lastinsert[i, h] == address {
        gtable_lastinsert[i, h] := INVALID_LAST_USER;
      }
    }

    /** Drop the contribution of a victim, whose hashes are in `victim_hashes`, to its `k` slots. */
    method ReleaseAll(address: nat, doNotVictimize: array?<nat>, ghost g0: seq<seq<Cell>>, ghost g': seq<seq<Cell>>)
      requires Shape() && |g0| == |g'| == cfg.k
      requires doNotVictimize != null ==> doNotVictimize.Length == cfg.k && doNotVictimize !in Tables()
      requires forall j | 0 <= j < cfg.k :: |g0[j]| == |g'[j]| == cfg.slots && victim_hashes[j] < cfg.slots
      requires forall j | 0 <= j < cfg.k ::
                 var h := victim_hashes[j];
                 g'[j] == g0[j][h := EvictCell(g0[j][h], address, doNotVictimize != null && doNotVictimize[j] == h)]
      requires GTablesAre(g0)
      modifies gtable, gtable_cnt, gtable_lastinsert
      ensures GTablesAre(g')
    {
      for i := 0 to cfg.k
        invariant GTablesAre(g'[..i] + g0[i..])
      {
        ghost var g := g'[..i] + g0[i..];
        assert g[i] == g0[i];
        var h := victim_hashes[i];
        ReleaseSlot(i, h, address, doNotVictimize != null && doNotVictimize[i] == h, g);
        Splice(g0, g', i);
      }
      assert g'[..cfg.k] + g0[cfg.k..] == g';
    }

    method ReleaseSlots(address: nat, doNotVictimize: array?<nat>, ghost st: State)
      requires Shape() && WellFormed(cfg, st) && address < cfg.capacity && GTablesAre(st.g)
      requires victim_hashes[..] == Hashes(cfg, st.m[address].key)
      requires doNotVictimize != null ==> doNotVictimize.Length == cfg.k && doNotVictimize !in Tables()
      modifies gtable, gtable_cnt, gtable_lastinsert
      ensures GTablesAre(Evict(cfg, st, address, GuardOf(doNotVictimize)).g)
    {
      ghost var hs := Hashes(cfg, st.m[address].key);
      ghost var g' := Evict(cfg, st, address, GuardOf(doNotVictimize)).g;
      forall j | 0 <= j < cfg.k
        ensures victim_hashes[j] == hs[j]
        ensures g'[j] == st.g[j][hs[j] := EvictCell(st.g[j][hs[j]], address,
                                                    doNotVictimize != null && doNotVictimize[j] == hs[j])]
      {
        assert victim_hashes[j] == victim_hashes[..][j];
      }
      ReleaseAll(address, doNotVictimize, st.g, g');
    }

    /** Move an M-table entry, with its mask, into the victim fields. */
    method TakeEntry(address: nat)
      requires Shape() && |model.m| == cfg.capacity && address < cfg.capacity && MTableIs(model.m)
      modifies `victim_ops, `victim_res, mtable_use, mtable_inputs, mtable_outputs, consider_evict
      ensures victim_ops == model.m[address].key && victim_res == model.m[address].out
      ensures consider_evict[..] == model.m[address].mask
      ensures MTableIs(model.m[address := Entry(false, ZERO_OPERANDS, ZERO_RESULTS, model.m[address].mask)])
    {
      victim_ops := mtable_inputs[address];
      mtable_inputs[address] := ZERO_OPERANDS;
      for i := 0 to OPS_LEN
        modifies consider_evict
        invariant forall f | 0 <= f < i :: consider_evict[f] == model.m[address].mask[f]
      {
        consider_evict[i] := consider_mtable_input[i, address];
      }
      victim_res := mtable_outputs[address];
      mtable_outputs[address] := ZERO_RESULTS;
      mtable_use[address] := false;
    }

    method EvictMtableEntry(address: nat, doNotVictimize: array?<nat>)
      requires Valid() && address < cfg.capacity
      requires doNotVictimize != null
               ==> doNotVictimize.Length == cfg.k && doNotVictimize != victim_hashes && doNotVictimize !in Tables()
      modifies Tables(), victim_hashes, consider_evict
      ensures Valid() && model == Evict(cfg, old(model), address, old(GuardOf(doNotVictimize)))
      ensures victim_ops == old(model.m[address].key) && victim_res == old(model.m[address].out)
      ensures consider_evict[..] == old(model.m[address].mask)
      ensures reinsert_ops == old(reinsert_ops) && reinsert_res == old(reinsert_res)
    {
      TakeEntry(address);
      ComputeHashes(victim_ops, victim_hashes);
      ReleaseSlots(address, doNotVictimize, model);
      model := Evict(cfg, model, address, GuardOf(doNotVictimize));
    }

    method CopyMask(address: nat, consider: array<bool>, ghost m: seq<Entry>)
      requires Shape() && |m| == cfg.capacity && address < cfg.capacity && MTableIs(m) && consider.Length == OPS_LEN
      modifies consider_mtable_input
      ensures MTableIs(m[address := m[address].(mask := consider[..])])
    {
      for i := 0 to OPS_LEN
        invariant forall f, a | 0 <= f < OPS_LEN && 0 <= a < cfg.capacity ::
          consider_mtable_input[f, a] == if a == address && f < i then consider[f] else m[a].mask[f]
      {
        consider_mtable_input[i, address] := consider[i];
      }
    }

    /** The stored key after overwriting the considered fields. */
    method MergeFields(address: nat, ops: Operands, ghost m: seq<Entry>) returns (stored: Operands)
      requires Shape() && |m| == cfg.capacity && address < cfg.capacity && MTableIs(m)
      ensures stored == Merge(m[address].mask, m[address].key, ops)
    {
      stored := mtable_inputs[address];
      if consider_mtable_input[0, address] { stored := stored.(pc := ops.pc); }
      if consider_mtable_input[1, address] { stored := stored.(ci := ops.ci); }
      if consider_mtable_input[2, address] { stored := stored.(op1 := ops.op1); }
      if consider_mtable_input[3, address] { stored := stored.(op2 := ops.op2); }
      if consider_mtable_input[4, address] { stored := stored.(op3 := ops.op3); }
      if consider_mtable_input[5, address] { stored := stored.(mem := ops.mem); }
    }

    method WriteEntry(address: nat, stored: Operands, res: Results, ghost m: seq<Entry>)
      requires Shape() && |m| == cfg.capacity && address < cfg.capacity && MTableIs(m)
      modifies mtable_use, mtable_inputs, mtable_outputs
      ensures MTableIs(m[address := Entry(true, stored, res, m[address].mask)])
    {
      mtable_inputs[address] := stored;
      mtable_outputs[address] := res;
      mtable_use[address] := true;
    }

    /** Store a rule in an M-table entry, field by considered field. */
    method StoreEntry(address: nat, ops: Operands, res: Results, consider: array<bool>)
      requires Shape() && |model.m| == cfg.capacity && address < cfg.capacity && MTableIs(model.m)
      requires consider.Length == OPS_LEN && consider !in Tables()
      modifies mtable_use, mtable_inputs, mtable_outputs, consider_mtable_input
      ensures MTableIs(model.m[address := Entry(true, Merge(consider[..], model.m[address].key, ops), res,
                                                consider[..])])
    {
      CopyMask(address, consider, model.m);
      ghost var m := model.m[address := model.m[address].(mask := consider[..])];
      var stored := MergeFields(address, ops, m);
      WriteEntry(address, stored, res, m);
      assert m[address := Entry(true, stored, res, m[address].mask)]
             == model.m[address := Entry(true, stored, res, consider[..])];
    }

    /** One iteration of the loop that counts a new user and records it as last inserter. */
    method ClaimSlot(i: nat, h: nat, address: nat, ghost g: seq<seq<Cell>>)
      requires Shape() && |g| == cfg.k && (forall j | 0 <= j < cfg.k :: |g[j]| == cfg.slots) && GTablesAre(g)
      requires i < cfg.k && h < cfg.slots
      modifies gtable_cnt, gtable_lastinsert
      ensures GTablesAre(g[i := g[i][h := InsertCell(g[i][h], false, 0, address)]])
    {
      if gtable_cnt[i, h] != GTABLE_MAX_COUNT {
        gtable_cnt[i, h] := gtable_cnt[i, h] + 1;
      }
      gtable_lastinsert[i, h] := address;
    }

    ghost function WordChanged(g: seq<seq<Cell>>, i: nat, h: nat, current: nat, address: nat): seq<seq<Cell>>
      requires i < |g| && h < |g[i]|
    {
      g[i := g[i][h := g[i][h].(word := Xor(Xor(g[i][h].word, current), address))]]
    }

    /** Choose the free slot's word so that the words at `slots` XOR to `address`. */
    method OverwriteWord(address: nat, slots: array<nat>, freeSlot: nat)
      requires Shape() && WellFormed(cfg, model) && GTablesAre(model.g)
      requires slots.Length == cfg.k && InTables(model, slots[..]) && freeSlot < cfg.k
      modifies gtable
      ensures GTablesAre(WordChanged(model.g, freeSlot, slots[freeSlot], Address(model, slots[..], cfg.k), address))
    {
      var current := 0;
      for i := 0 to cfg.k
        modifies {}
        invariant current == Address(model, slots[..], i)
      {
        current := Xor(current, gtable[i, slots[i]]);
      }
      gtable[freeSlot, slots[freeSlot]] := Xor(Xor(gtable[freeSlot, slots[freeSlot]], current), address);
    }

    /** Overwriting the free slot's word and then claiming slot `i` gives row `i` of `InsertCells`. */
    lemma RowAfterClaim(st: State, hs: seq<nat>, address: nat, free: nat, i: nat)
      requires ValidConfig(cfg) && WellFormed(cfg, st) && InTables(st, hs) && address < cfg.capacity
      requires free < cfg.k && i < cfg.k
      ensures var g1 := WordChanged(st.g, free, hs[free], Address(st, hs, cfg.k), address);
              SetCells(st, hs, InsertCells(cfg, st, hs, address, free)).g[i]
              == g1[i][hs[i] := InsertCell(g1[i][hs[i]], false, 0, address)]
    {
      assert CellAt(st, hs, i) == st.g[i][hs[i]];
      if i == free {
        var g1: seq<seq<Cell>> := WordChanged(st.g, free, hs[free], Address(st, hs, cfg.k), address);
        assert g1[i][hs[i]].word == Xor(Xor(st.g[i][hs[i]].word, Address(st, hs, cfg.k)), address);
      }
    }

    /** Count the new user in every slot and record it as last inserter. */
    method ClaimAll(address: nat, slots: array<nat>, ghost g1: seq<seq<Cell>>, ghost g': seq<seq<Cell>>)
      requires Shape() && |g1| == |g'| == slots.Length == cfg.k
      requires forall j | 0 <= j < cfg.k :: |g1[j]| == |g'[j]| == cfg.slots && slots[j] < cfg.slots
      requires forall j | 0 <= j < cfg.k :: g'[j] == g1[j][slots[j] := InsertCell(g1[j][slots[j]], false, 0, address)]
      requires GTablesAre(g1)
      modifies gtable_cnt, gtable_lastinsert
      ensures GTablesAre(g')
    {
      for i := 0 to cfg.k
        invariant GTablesAre(g'[..i] + g1[i..])
      {
        ghost var g := g'[..i] + g1[i..];
        assert g[i] == g1[i];
        ClaimSlot(i, slots[i], address, g);
        Splice(g1, g', i);
      }
      assert g'[..cfg.k] + g1[cfg.k..] == g';
    }

    method ClaimSlots(address: nat, ops: Operands, slots: array<nat>, freeSlot: nat)
      requires Shape() && WellFormed(cfg, model) && address < cfg.capacity && GTablesAre(model.g)
      requires slots[..] == Hashes(cfg, ops) && freeSlot < cfg.k
      modifies gtable, gtable_cnt, gtable_lastinsert
      ensures GTablesAre(SetCells(model, Hashes(cfg, ops),
                                  InsertCells(cfg, model, Hashes(cfg, ops), address, freeSlot)).g)
    {
      OverwriteWord(address, slots, freeSlot);
      ghost var hs := Hashes(cfg, ops);
      ghost var g1 := WordChanged(model.g, freeSlot, hs[freeSlot], Address(model, hs, cfg.k), address);
      ghost var g' := SetCells(model, hs, InsertCells(cfg, model, hs, address, freeSlot)).g;
      forall i | 0 <= i < cfg.k
        ensures slots[i] == hs[i] && g'[i] == g1[i][hs[i] := InsertCell(g1[i][hs[i]], false, 0, address)]
      {
        assert slots[i] == slots[..][i];
        RowAfterClaim(model, hs, address, freeSlot, i);
      }
      ClaimAll(address, slots, g1, g');
    }

    /** `ok` tells whether the assertion that the chosen slot is unused holds. */
    method RealInsert(address: nat, ops: Operands, res: Results, slots: array<nat>, freeSlot: nat,
                      consider: array<bool>)
      returns (ok: bool)
      requires Valid() && address < cfg.capacity && freeSlot < cfg.k
      requires slots[..] == Hashes(cfg, ops)
      requires consider.Length == OPS_LEN && consider !in Tables()
      modifies Tables()
      ensures Valid() && model == DmhcSpec.RealInsert(cfg, old(model), address, ops, res, freeSlot, consider[..])
      ensures victim_ops == old(victim_ops) && victim_res == old(victim_res)
      ensures ok <==> CellAt(old(model), Hashes(cfg, ops), freeSlot).cnt == 0
    {
      StoreEntry(address, ops, res, consider);
      assert slots[freeSlot] == slots[..][freeSlot];
      ok := gtable_cnt[freeSlot, slots[freeSlot]] == 0;
      ClaimSlots(address, ops, slots, freeSlot);
      model := DmhcSpec.RealInsert(cfg, model, address, ops, res, freeSlot, consider[..]);
    }

    /** The lowest table whose slot for the rule has count zero, or -1; scanned from the top down. */
    method FindFreeSlot(ghost ops: Operands) returns (freeSlot: int)
      requires Valid() && hashes[..] == Hashes(cfg, ops)
      ensures freeSlot == FreeSlot(model, Hashes(cfg, ops), 0)
    {
      freeSlot := -1;
      for i := cfg.k downto 0
        invariant freeSlot == FreeSlot(model, Hashes(cfg, ops), i)
      {
        assert hashes[i] == hashes[..][i];
        if gtable_cnt[i, hashes[i]] == 0 { freeSlot := i; }
      }
    }

    /** The first table with the least count among the slots that may be victimised, or -1. */
    method FindMinUse(hops: nat, doNotVictimize: array<nat>, ghost ops: Operands) returns (minuse: int)
      requires Valid() && hashes[..] == Hashes(cfg, ops) && doNotVictimize.Length == cfg.k
      ensures minuse == MinUse(model, Hashes(cfg, ops), if hops == 0 then None else Some(doNotVictimize[..]), cfg.k)
    {
      minuse := -1;
      var minusers: int := -1;
      ghost var guard := if hops == 0 then None else Some(doNotVictimize[..]);
      ghost var hs := Hashes(cfg, ops);
      for i := 0 to cfg.k
        invariant minuse == MinUse(model, hs, guard, i)
        invariant minuse != -1 ==> minusers == CellAt(model, hs, minuse).cnt
      {
        assert hashes[i] == hashes[..][i];
        if hops == 0 || hashes[i] != doNotVictimize[i] {
          if minuse == -1 {
            minuse := i;
            minusers := gtable_cnt[i, hashes[i]];
          } else if gtable_cnt[i, hashes[i]] < minusers {
            minuse := i;
            minusers := gtable_cnt[i, hashes[i]];
          }
        }
      }
    }

    ghost function GuardAt(hops: nat, doNotVictimize: array<nat>): Option<seq<nat>>
      reads doNotVictimize
    {
      if hops == 0 then None else Some(doNotVictimize[..])
    }

    /** The victim fields hold `v`, taken from entry `victimAddress`. */
    ghost predicate VictimIs(v: Option<Victim>, victim: bool, victimAddress: nat)
      reads this, consider_evict
    {
      && victim == v.Some?
      && (victim ==> consider_evict.Length == OPS_LEN
                     && v.value == Victim(victimAddress, victim_ops, victim_res, consider_evict[..]))
    }

    method EvictLeastUsed(ops: Operands, hops: nat, doNotVictimize: array<nat>, minuse: nat)
      returns (victim: bool, victimAddress: nat)
      requires Valid() && hashes[..] == Hashes(cfg, ops) && doNotVictimize == do_not_victimize_hashes
      requires minuse == MinUse(model, Hashes(cfg, ops), GuardAt(hops, doNotVictimize), cfg.k)
      modifies Tables(), victim_hashes, consider_evict
      ensures Valid() && reinsert_ops == old(reinsert_ops) && reinsert_res == old(reinsert_res)
      ensures var room := DmhcSpec.MakeRoom(cfg, old(model), ops, GuardAt(hops, doNotVictimize));
              model == room.st && VictimIs(room.victim, victim, victimAddress)
      ensures !victim ==> consider_evict[..] == old(consider_evict[..])
    {
      victim, victimAddress := false, 0;
      assert hashes[minuse] == hashes[..][minuse];
      if gtable_lastinsert[minuse, hashes[minuse]] != INVALID_LAST_USER {
        victimAddress := gtable_lastinsert[minuse, hashes[minuse]];
        victim := true;
        if hops > 0 {
          EvictMtableEntry(victimAddress, doNotVictimize);
        } else {
          EvictMtableEntry(victimAddress, null);
        }
      }
    }

    /** Choose the slot to overwrite, evicting a rule if no slot is unused; -1 means give up. */
    method ChooseSlot(ops: Operands, hops: nat, doNotVictimize: array<nat>)
      returns (freeSlot: int, victim: bool, victimAddress: nat)
      requires Valid() && hashes[..] == Hashes(cfg, ops) && doNotVictimize == do_not_victimize_hashes
      modifies Tables(), victim_hashes, consider_evict
      ensures Valid()
      ensures var p := Prepare(cfg, old(model), ops, GuardAt(hops, doNotVictimize));
              model == p.room.st && freeSlot == p.free && VictimIs(p.room.victim, victim, victimAddress)
      ensures hops == 0 ==> freeSlot != -1
      ensures !victim ==> consider_evict[..] == old(consider_evict[..])
    {
      victim, victimAddress := false, 0;
      freeSlot := FindFreeSlot(ops);
      if freeSlot == -1 {
        var minuse := FindMinUse(hops, doNotVictimize, ops);
        assert hops == 0 ==> !Guarded(GuardAt(hops, doNotVictimize), Hashes(cfg, ops), 0);
        if hops > 0 && minuse == -1 {
          // all slots are guarded: the victim is given up
          return;
        } else if hops == 0 && minuse == -1 {
          // exit(3)
          assert false;
        } else {
          victim, victimAddress := EvictLeastUsed(ops, hops, doNotVictimize, minuse);
        }
        // whatever was evicted, overwrite the least used slot
        freeSlot := FindMinUse(hops, doNotVictimize, ops);
      }
    }

    /** One level of `insert`, up to and including `real_insert`. */
    method PlaceRule(address: nat, ops: Operands, res: Results, hops: nat, doNotVictimize: array<nat>,
                     consider: array<bool>)
      returns (victim: bool, victimAddress: nat, ok: bool)
      requires Valid() && address < cfg.capacity
      requires doNotVictimize == do_not_victimize_hashes
      requires consider.Length == OPS_LEN && consider !in Tables()
      requires if hops == 0 then consider != consider_evict else consider == consider_evict
      modifies Tables(), hashes, victim_hashes, consider_evict
      ensures Valid()
      ensures var p := Place(cfg, old(model), address, ops, res, old(consider[..]), GuardAt(hops, doNotVictimize));
              model == p.st && VictimIs(p.victim, victim, victimAddress)
      ensures ok <==> PlaceAsserts(cfg, old(model), ops, GuardAt(hops, doNotVictimize))
    {
      ok := true;
      ghost var mask := consider[..];
      ghost var prep := Prepare(cfg, model, ops, GuardAt(hops, doNotVictimize));
      ComputeHashes(ops, hashes);
      var freeSlot;
      freeSlot, victim, victimAddress := ChooseSlot(ops, hops, doNotVictimize);
      if freeSlot == -1 {
        mtable_use[address] := false;
        model := model.(m := model.m[address := model.m[address].(used := false)]);
        return;
      }
      assert consider[..] == StoredMask(mask, GuardAt(hops, doNotVictimize), prep.room);
      ok := RealInsert(address, ops, res, hashes, freeSlot, consider);
    }

    /** The victim becomes the rule to insert. */
    method StageVictim()
      requires Valid()
      modifies `reinsert_ops, `reinsert_res
      ensures Valid() && reinsert_ops == victim_ops && reinsert_res == victim_res
    {
      reinsert_ops := victim_ops;
      reinsert_res := victim_res;
    }

    /** The recursive `insert`. At hop 1 the `consider` argument is `consider_evict` itself. */
    method InsertAt(address: nat, ops: Operands, res: Results, hops: nat, doNotVictimize: array<nat>,
                    consider: array<bool>)
      returns (ok: bool)
      requires Valid() && address < cfg.capacity && hops <= HOP_LIMIT
      requires doNotVictimize == do_not_victimize_hashes
      requires hops == 0 ==> doNotVictimize[..] == Hashes(cfg, ops)
      requires consider.Length == OPS_LEN && consider !in Tables()
      requires if hops == 0 then consider != consider_evict else consider == consider_evict
      modifies Tables(), hashes, victim_hashes, consider_evict
      ensures Valid()
      ensures hops == 0 ==> model == PlaceAndRehome(cfg, old(model), address, ops, res, old(consider[..]))
      ensures hops > 0 ==>
                model == Place(cfg, old(model), address, ops, res, old(consider[..]), Some(doNotVictimize[..])).st
      ensures hops == 0 ==> (ok <==> BothAssert(cfg, old(model), address, ops, res, old(consider[..])))
      ensures hops > 0 ==> (ok <==> PlaceAsserts(cfg, old(model), ops, Some(doNotVictimize[..])))
      decreases HOP_LIMIT - hops
    {
      var victim, victimAddress;
      victim, victimAddress, ok := PlaceRule(address, ops, res, hops, doNotVictimize, consider);
      if victim {
        if hops < HOP_LIMIT {
          StageVictim();
          var rest := InsertAt(victimAddress, reinsert_ops, reinsert_res, hops + 1, doNotVictimize, consider_evict);
          ok := ok && rest;
        }
      }
    }

    /** Take the next M-table entry in turn, evicting the rule it holds. */
    method Recycle() returns (mtableEntry: nat)
      requires Valid()
      modifies Tables(), victim_hashes, consider_evict
      ensures Valid() && mtableEntry == old(model.next) && model == Vacate(cfg, old(model))
    {
      mtableEntry := next_entry;
      next_entry := next_entry + 1;
      if next_entry >= cfg.capacity {
        next_entry := 1; // entry 0 stands for an unknown inserter
      }
      model := model.(next := next_entry);
      if mtable_use[mtableEntry] == true {
        EvictMtableEntry(mtableEntry, null); // this victim is not re-homed
      }
    }

    /** Insert a rule. `exit` is the code with which a failed assertion or self-check ends the process, and 0
        when there is none. The self-check passes whenever all rules share the mask `consider`. */
    method Insert(ops: Operands, res: Results, consider: array<bool>) returns (exit: nat)
      requires Valid() && consider.Length == OPS_LEN && consider !in Repr()
      modifies Repr()
      ensures Valid()
      ensures model == DmhcSpec.Insert(cfg, old(model), ops, res, consider[..])
      ensures exit == ExitCode(cfg, old(model), ops, res, consider[..])
      ensures Inv(cfg, consider[..], old(model)) && InMask(consider[..], ops) ==> exit != 1
    {
      ghost var st := model;
      var ok := InsertRule(ops, res, consider);
      if Inv(cfg, consider[..], st) && InMask(consider[..], ops) {
        InsertCorrect(cfg, consider[..], st, ops, res);
      }
      if cfg.asserts && !ok { return ABORTED; }
      exit := SelfCheck(ops, res, consider);
    }

    method InsertRule(ops: Operands, res: Results, consider: array<bool>) returns (ok: bool)
      requires Valid() && consider.Length == OPS_LEN && consider !in Repr()
      modifies Repr()
      ensures Valid() && consider !in Repr()
      ensures model == DmhcSpec.Insert(cfg, old(model), ops, res, consider[..])
      ensures ok <==> InsertAsserts(cfg, old(model), ops, res, consider[..])
    {
      var mtableEntry := Recycle();
      ComputeHashes(ops, do_not_victimize_hashes);
      ok := InsertAt(mtableEntry, ops, res, 0, do_not_victimize_hashes, consider);
    }

    /** Look the rule up again. */
    method SelfCheck(ops: Operands, res: Results, consider: array<bool>) returns (exit: nat)
      requires Valid() && consider.Length == OPS_LEN && consider !in Tables()
      modifies `victim_res, hashes
      ensures Valid() && model == old(model)
      ensures exit == if DmhcSpec.Lookup(cfg, model, ops, consider[..]) == Some(res) then 0 else 1
    {
      var found;
      found, victim_res := Lookup(ops, victim_res, consider);
      if found != true {
        return 1;
      } else if res != victim_res {
        return 1;
      }
      return 0;
    }

    method Reset()
      requires Valid()
      modifies this, gtable, gtable_cnt, gtable_lastinsert, mtable_use, mtable_inputs, mtable_outputs
      ensures Valid() && model == DmhcSpec.Reset(cfg, old(model))
    {
      ClearTables();
      model := DmhcSpec.Reset(cfg, model);
      next_entry := 1;
    }

    method ClearTables()
      requires Shape()
      modifies gtable, gtable_cnt, gtable_lastinsert, mtable_use, mtable_inputs, mtable_outputs
      ensures forall i, s | 0 <= i < cfg.k && 0 <= s < cfg.slots ::
                gtable[i, s] == 0 && gtable_cnt[i, s] == 0 && gtable_lastinsert[i, s] == INVALID_LAST_USER
      ensures forall a | 0 <= a < cfg.capacity ::
                !mtable_use[a] && mtable_inputs[a] == ZERO_OPERANDS && mtable_outputs[a] == ZERO_RESULTS
    {
      for i := 0 to cfg.k
        modifies gtable, gtable_cnt, gtable_lastinsert
        invariant forall r, s | 0 <= r < i && 0 <= s < cfg.slots ::
          gtable[r, s] == 0 && gtable_cnt[r, s] == 0 && gtable_lastinsert[r, s] == INVALID_LAST_USER
      {
        for j := 0 to cfg.slots
          invariant forall r, s | 0 <= r < cfg.k && 0 <= s < cfg.slots && (r < i || (r == i && s < j)) ::
            gtable[r, s] == 0 && gtable_cnt[r, s] == 0 && gtable_lastinsert[r, s] == INVALID_LAST_USER
        {
          gtable[i, j] := 0;
          gtable_cnt[i, j] := 0;
          gtable_lastinsert[i, j] := INVALID_LAST_USER;
        }
      }
      for j := 0 to cfg.capacity
        modifies mtable_use
        invariant forall a | 0 <= a < j :: !mtable_use[a]
      {
        mtable_use[j] := false;
      }
      for i := 0 to cfg.capacity
        modifies mtable_inputs, mtable_outputs
        invariant forall a | 0 <= a < i :: mtable_inputs[a] == ZERO_OPERANDS && mtable_outputs[a] == ZERO_RESULTS
      {
        mtable_inputs[i] := ZERO_OPERANDS;
        mtable_outputs[i] := ZERO_RESULTS;
      }
    }
  }
}
