/** What each step of the multi-hash rule cache `dmhc_t` computes, as functions on a value.
    The class in Dmhc.dfy is proved equal to these functions, and the properties of the cache
    are proved about them. */
module DmhcSpec {
  import opened Wrappers
  import opened Bits
  import opened RiscvIsa

  const GTABLE_MAX_COUNT: nat := 3
  const HOP_LIMIT: nat := 1
  const INVALID_LAST_USER: nat := 0

  /** The exit code of a process that a failed assertion aborts. */
  const ABORTED: nat := 134

  /** `k` G-tables of `slots` = c*capacity cells each. The hashes are arbitrary functions. `asserts` tells
      whether `assert` is compiled in, as it is in the build that CMakeLists.txt configures. */
  datatype Config = Config(k: nat, slots: nat, capacity: nat, hash: (nat, Operands) -> nat, asserts: bool := true)

  ghost predicate ValidConfig(cfg: Config) {
    && 1 <= cfg.k <= 4
    && 2 <= cfg.capacity
    && (exists n: nat :: cfg.capacity == Pow2(n))
    && (forall i: nat, ops :: cfg.hash(i, ops) < cfg.slots)
  }

  /** One G-table cell: `gtable`, `gtable_cnt` and `gtable_lastinsert` at the same place. */
  datatype Cell = Cell(word: nat, cnt: nat, last: nat)

  /** One M-table entry: `mtable_use`, `mtable_inputs`, `mtable_outputs`, `consider_mtable_input`. */
  datatype Entry = Entry(used: bool, key: Operands, out: Results, mask: Mask)

  datatype State = State(g: seq<seq<Cell>>, m: seq<Entry>, next: nat)

  /** Table sizes, and every index stored in a table is inside the M-table. */
  ghost predicate WellFormed(cfg: Config, st: State) {
    && |st.g| == cfg.k
    && (forall i | 0 <= i < cfg.k :: |st.g[i]| == cfg.slots)
    && (forall i, s | 0 <= i < cfg.k && 0 <= s < cfg.slots ::
          st.g[i][s].word < cfg.capacity && st.g[i][s].last < cfg.capacity)
    && |st.m| == cfg.capacity
    && 1 <= st.next < cfg.capacity
  }

  function Hashes(cfg: Config, ops: Operands): (hs: seq<nat>)
    ensures |hs| == cfg.k
  {
    seq(cfg.k, i requires 0 <= i < cfg.k => cfg.hash(i, ops))
  }

  /** Slots that index the `k` G-tables of `st`. */
  ghost predicate InTables(st: State, hs: seq<nat>) {
    |hs| == |st.g| && forall i | 0 <= i < |hs| :: hs[i] < |st.g[i]|
  }

  function CellAt(st: State, hs: seq<nat>, i: nat): Cell
    requires InTables(st, hs) && i < |hs|
  {
    st.g[i][hs[i]]
  }

  /** XOR of the first `n` G-table words at `hs`. */
  function Address(st: State, hs: seq<nat>, n: nat): nat
    requires InTables(st, hs) && n <= |hs|
  {
    if n == 0 then 0 else Xor(Address(st, hs, n - 1), CellAt(st, hs, n - 1).word)
  }

  /** Every address the G-tables can produce is inside the M-table: `capacity` is a power of two. */
  lemma {:induction false} AddressInRange(cfg: Config, st: State, hs: seq<nat>, n: nat)
    requires ValidConfig(cfg) && WellFormed(cfg, st) && InTables(st, hs) && n <= |hs|
    ensures Address(st, hs, n) < cfg.capacity
  {
    if n != 0 {
      AddressInRange(cfg, st, hs, n - 1);
      var e: nat :| cfg.capacity == Pow2(e);
      XorBound(Address(st, hs, n - 1), CellAt(st, hs, n - 1).word, e);
    }
  }

  /** Replace the cell at `hs[i]` of every G-table `i` by `cells[i]`. */
  function SetCells(st: State, hs: seq<nat>, cells: seq<Cell>): (st': State)
    requires InTables(st, hs) && |cells| == |hs|
    ensures st'.m == st.m && st'.next == st.next
    ensures |st'.g| == |st.g| && forall i | 0 <= i < |st.g| :: st'.g[i] == st.g[i][hs[i] := cells[i]]
  {
    st.(g := seq(|st.g|, i requires 0 <= i < |st.g| => st.g[i][hs[i] := cells[i]]))
  }

  function Merge(mask: Mask, stored: Operands, ops: Operands): Operands {
    Operands(
      if mask[0] then ops.pc else stored.pc,
      if mask[1] then ops.ci else stored.ci,
      if mask[2] then ops.op1 else stored.op1,
      if mask[3] then ops.op2 else stored.op2,
      if mask[4] then ops.op3 else stored.op3,
      if mask[5] then ops.mem else stored.mem)
  }

  predicate Matches(mask: Mask, stored: Operands, ops: Operands) {
    && (mask[0] ==> stored.pc == ops.pc)
    && (mask[1] ==> stored.ci == ops.ci)
    && (mask[2] ==> stored.op1 == ops.op1)
    && (mask[3] ==> stored.op2 == ops.op2)
    && (mask[4] ==> stored.op3 == ops.op3)
    && (mask[5] ==> stored.mem == ops.mem)
  }

  // ---- lookup ----

  function Lookup(cfg: Config, st: State, ops: Operands, mask: Mask): Option<Results>
    requires InTables(st, Hashes(cfg, ops))
  {
    var hs := Hashes(cfg, ops);
    if exists i | 0 <= i < cfg.k :: CellAt(st, hs, i).cnt == 0 then None
    else
      var addr := Address(st, hs, cfg.k);
      if addr < |st.m| && st.m[addr].used && Matches(mask, st.m[addr].key, ops) then Some(st.m[addr].out)
      else None
  }

  // ---- eviction ----

  function EvictCell(cell: Cell, addr: nat, protected: bool): Cell {
    var cnt := if cell.cnt > 0 && (!protected || cell.cnt > 1) then cell.cnt - 1 else cell.cnt;
    if cnt == 0 then Cell(0, 0, INVALID_LAST_USER)
    else Cell(cell.word, cnt, if cell.last == addr then INVALID_LAST_USER else cell.last)
  }

  predicate Guarded(guard: Option<seq<nat>>, hs: seq<nat>, i: nat) {
    guard.Some? && i < |guard.value| && i < |hs| && guard.value[i] == hs[i]
  }

  /** `evict_mtable_entry`; `guard` is its `do_not_victimize` argument, `None` for NULL. */
  function Evict(cfg: Config, st: State, addr: nat, guard: Option<seq<nat>>): (st': State)
    requires ValidConfig(cfg) && WellFormed(cfg, st) && addr < cfg.capacity
    ensures WellFormed(cfg, st')
  {
    var hs := Hashes(cfg, st.m[addr].key);
    var cells := seq(cfg.k, i requires 0 <= i < cfg.k => EvictCell(CellAt(st, hs, i), addr, Guarded(guard, hs, i)));
    SetCells(st, hs, cells).(m := st.m[addr := Entry(false, ZERO_OPERANDS, ZERO_RESULTS, st.m[addr].mask)])
  }

  // ---- insertion ----

  function InsertCell(cell: Cell, free: bool, current: nat, addr: nat): Cell {
    Cell(if free then Xor(Xor(cell.word, current), addr) else cell.word,
         if cell.cnt != GTABLE_MAX_COUNT then cell.cnt + 1 else cell.cnt,
         addr)
  }

  /** The cells `real_insert` writes. */
  function InsertCells(cfg: Config, st: State, hs: seq<nat>, addr: nat, free: nat): (cells: seq<Cell>)
    requires ValidConfig(cfg) && WellFormed(cfg, st) && InTables(st, hs) && addr < cfg.capacity
    ensures |cells| == cfg.k
    ensures forall i | 0 <= i < cfg.k ::
              cells[i] == InsertCell(CellAt(st, hs, i), i == free, Address(st, hs, cfg.k), addr)
    ensures forall i | 0 <= i < cfg.k :: cells[i].word < cfg.capacity
  {
    var current := Address(st, hs, cfg.k);
    var cells := seq(cfg.k, i requires 0 <= i < cfg.k => InsertCell(CellAt(st, hs, i), i == free, current, addr));
    assert forall i | 0 <= i < cfg.k :: cells[i].word < cfg.capacity by {
      forall i | 0 <= i < cfg.k ensures cells[i].word < cfg.capacity {
        AddressInRange(cfg, st, hs, cfg.k);
        var e: nat :| cfg.capacity == Pow2(e);
        XorBound(CellAt(st, hs, i).word, current, e);
        XorBound(Xor(CellAt(st, hs, i).word, current), addr, e);
      }
    }
    cells
  }

  /** `real_insert`. Its assertion that the chosen slot is unused is `PlaceAsserts`. */
  function RealInsert(cfg: Config, st: State, addr: nat, ops: Operands, res: Results, free: nat,
                      mask: Mask): (st': State)
    requires ValidConfig(cfg) && WellFormed(cfg, st) && addr < cfg.capacity
    ensures WellFormed(cfg, st')
  {
    var hs := Hashes(cfg, ops);
    var cells := InsertCells(cfg, st, hs, addr, free);
    SetCells(st, hs, cells).(m := st.m[addr := Entry(true, Merge(mask, st.m[addr].key, ops), res, mask)])
  }

  /** The lowest `i` at or above `from` whose counter is zero, or -1. */
  function FreeSlot(st: State, hs: seq<nat>, from: nat): (r: int)
    requires InTables(st, hs) && from <= |hs|
    ensures r == -1 || from <= r < |hs|
    decreases |hs| - from
  {
    if from == |hs| then -1
    else if CellAt(st, hs, from).cnt == 0 then from
    else FreeSlot(st, hs, from + 1)
  }

  /** The first table among `0..n` with the smallest counter, skipping guarded slots, or -1. */
  function MinUse(st: State, hs: seq<nat>, guard: Option<seq<nat>>, n: nat): (r: int)
    requires InTables(st, hs) && n <= |hs|
    ensures -1 <= r < n
    ensures r == -1 <==> forall i | 0 <= i < n :: Guarded(guard, hs, i)
    ensures r != -1 ==> !Guarded(guard, hs, r)
  {
    if n == 0 then -1
    else
      var best := MinUse(st, hs, guard, n - 1);
      if Guarded(guard, hs, n - 1) then best
      else if best == -1 || CellAt(st, hs, n - 1).cnt < CellAt(st, hs, best).cnt then n - 1
      else best
  }

  datatype Victim = Victim(addr: nat, key: Operands, out: Results, mask: Mask)

  datatype Placed = Placed(st: State, victim: Option<Victim>)

  /** No slot of the rule is unused: evict the last inserter of the least used slot, if known. */
  function MakeRoom(cfg: Config, st: State, ops: Operands, guard: Option<seq<nat>>): (p: Placed)
    requires ValidConfig(cfg) && WellFormed(cfg, st)
    requires MinUse(st, Hashes(cfg, ops), guard, cfg.k) != -1
    ensures WellFormed(cfg, p.st)
    ensures p.victim.Some? ==> p.victim.value.addr < cfg.capacity
  {
    var hs := Hashes(cfg, ops);
    var last := CellAt(st, hs, MinUse(st, hs, guard, cfg.k)).last;
    if last == INVALID_LAST_USER then Placed(st, None)
    else Placed(Evict(cfg, st, last, guard), Some(Victim(last, st.m[last].key, st.m[last].out, st.m[last].mask)))
  }

  /** The state just before `real_insert`, the victim evicted so far, and the slot whose word will
      be overwritten, -1 when every slot is guarded. */
  datatype Prepared = Prepared(room: Placed, free: int)

  function Prepare(cfg: Config, st: State, ops: Operands, guard: Option<seq<nat>>): (p: Prepared)
    requires ValidConfig(cfg) && WellFormed(cfg, st)
    ensures WellFormed(cfg, p.room.st) && -1 <= p.free < cfg.k
    ensures p.room.victim.Some? ==> p.room.victim.value.addr < cfg.capacity
  {
    var hs := Hashes(cfg, ops);
    var free := FreeSlot(st, hs, 0);
    if free != -1 then Prepared(Placed(st, None), free)
    else if MinUse(st, hs, guard, cfg.k) == -1 then Prepared(Placed(st, None), -1)
    else
      var room := MakeRoom(cfg, st, ops, guard);
      Prepared(room, MinUse(room.st, hs, guard, cfg.k))
  }

  /** The mask an entry is stored with. At hop 1 the caller's mask argument *is* `consider_evict`,
      so an eviction at that level overwrites it. */
  function StoredMask(mask: Mask, guard: Option<seq<nat>>, room: Placed): Mask {
    if guard.Some? && room.victim.Some? then room.victim.value.mask else mask
  }

  /** One level of the recursive `insert`, up to and including `real_insert`; `guard` is `None` at
      hop 0. With nowhere to go the entry is given up. */
  function Place(cfg: Config, st: State, addr: nat, ops: Operands, res: Results, mask: Mask,
                 guard: Option<seq<nat>>): (p: Placed)
    requires ValidConfig(cfg) && WellFormed(cfg, st) && addr < cfg.capacity
    ensures WellFormed(cfg, p.st)
    ensures p.victim.Some? ==> p.victim.value.addr < cfg.capacity
  {
    var prep := Prepare(cfg, st, ops, guard);
    if prep.free == -1 then
      Placed(st.(m := st.m[addr := st.m[addr].(used := false)]), None)
    else
      Placed(RealInsert(cfg, prep.room.st, addr, ops, res, prep.free, StoredMask(mask, guard, prep.room)),
             prep.room.victim)
  }

  /** The state in which `Place` puts the new rule: the next entry is taken and vacated. */
  function Vacate(cfg: Config, st: State): (st': State)
    requires ValidConfig(cfg) && WellFormed(cfg, st)
    ensures WellFormed(cfg, st')
  {
    var st1 := st.(next := if st.next + 1 >= cfg.capacity then 1 else st.next + 1);
    if st.m[st.next].used then Evict(cfg, st1, st.next, None) else st1
  }

  /** The recursive `insert` started at hop 0: place the rule, then re-home one victim. */
  function PlaceAndRehome(cfg: Config, st: State, addr: nat, ops: Operands, res: Results, mask: Mask): (st': State)
    requires ValidConfig(cfg) && WellFormed(cfg, st) && addr < cfg.capacity
    ensures WellFormed(cfg, st')
  {
    var p := Place(cfg, st, addr, ops, res, mask, None);
    match p.victim
    case None => p.st
    case Some(v) => Place(cfg, p.st, v.addr, v.key, v.out, v.mask, Some(Hashes(cfg, ops))).st
  }

  /** A whole top-level `insert`, up to its self-check. */
  function Insert(cfg: Config, st: State, ops: Operands, res: Results, mask: Mask): (st': State)
    requires ValidConfig(cfg) && WellFormed(cfg, st)
    ensures WellFormed(cfg, st')
  {
    PlaceAndRehome(cfg, Vacate(cfg, st), st.next, ops, res, mask)
  }

  // ---- how the process may end ----

  /** The assertion of `real_insert` at one level: the slot it is given is unused. */
  predicate PlaceAsserts(cfg: Config, st: State, ops: Operands, guard: Option<seq<nat>>)
    requires ValidConfig(cfg) && WellFormed(cfg, st)
  {
    var prep := Prepare(cfg, st, ops, guard);
    prep.free == -1 || CellAt(prep.room.st, Hashes(cfg, ops), prep.free).cnt == 0
  }

  /** The same at both levels. */
  predicate BothAssert(cfg: Config, st: State, addr: nat, ops: Operands, res: Results, mask: Mask)
    requires ValidConfig(cfg) && WellFormed(cfg, st) && addr < cfg.capacity
  {
    var p := Place(cfg, st, addr, ops, res, mask, None);
    && PlaceAsserts(cfg, st, ops, None)
    && (p.victim.Some? ==> PlaceAsserts(cfg, p.st, p.victim.value.key, Some(Hashes(cfg, ops))))
  }

  predicate InsertAsserts(cfg: Config, st: State, ops: Operands, res: Results, mask: Mask)
    requires ValidConfig(cfg) && WellFormed(cfg, st)
  {
    BothAssert(cfg, Vacate(cfg, st), st.next, ops, res, mask)
  }

  /** The code with which a top-level `insert` ends the process, 0 when it does not: a failed assertion comes
      first, then the failed self-check. `Insert` is the state without these exits. */
  function ExitCode(cfg: Config, st: State, ops: Operands, res: Results, mask: Mask): nat
    requires ValidConfig(cfg) && WellFormed(cfg, st)
  {
    if cfg.asserts && !InsertAsserts(cfg, st, ops, res, mask) then ABORTED
    else if Lookup(cfg, Insert(cfg, st, ops, res, mask), ops, mask) == Some(res) then 0
    else 1
  }

  function Empty(cfg: Config, masks: seq<Mask>): (st: State)
    requires |masks| == cfg.capacity
    ensures ValidConfig(cfg) ==> WellFormed(cfg, st)
  {
    State(seq(cfg.k, i => seq(cfg.slots, j => Cell(0, 0, INVALID_LAST_USER))),
          seq(cfg.capacity, a requires 0 <= a < cfg.capacity => Entry(false, ZERO_OPERANDS, ZERO_RESULTS, masks[a])),
          1)
  }

  ghost predicate IsEmpty(cfg: Config, st: State) {
    exists masks: seq<Mask> | |masks| == cfg.capacity :: st == Empty(cfg, masks)
  }

  /** `reset` clears every table but not the per-entry masks. */
  function Reset(cfg: Config, st: State): (st': State)
    requires ValidConfig(cfg) && WellFormed(cfg, st)
    ensures WellFormed(cfg, st')
  {
    Empty(cfg, seq(cfg.capacity, a requires 0 <= a < cfg.capacity => st.m[a].mask))
  }
}
