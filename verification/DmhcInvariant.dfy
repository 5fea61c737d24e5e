/** The invariant of `dmhc_t` while every rule uses one `consider` mask, and its preservation by
    each step of an insertion. */
module DmhcInvariant {
  import opened Wrappers
  import opened Bits
  import opened RiscvIsa
  import opened DmhcSpec

  /** The live M-table entries whose key hashes to slot `s` of G-table `i`. */
  function Users(cfg: Config, st: State, i: nat, s: nat): set<nat> {
    set a: nat | a < |st.m| && st.m[a].used && cfg.hash(i, st.m[a].key) == s
  }

  /** A counter never exceeds the number of live users; an unused slot is blank; a recorded last
      inserter is a live user of that very slot. */
  ghost predicate CellOk(cfg: Config, st: State, i: nat, s: nat)
    requires i < |st.g| && s < |st.g[i]|
  {
    var c := st.g[i][s];
    && c.cnt <= GTABLE_MAX_COUNT
    && c.cnt <= |Users(cfg, st, i, s)|
    && (c.cnt == 0 ==> c.word == 0 && c.last == INVALID_LAST_USER)
    && (c.last != INVALID_LAST_USER ==> c.last in Users(cfg, st, i, s))
  }

  /** The fields that are not considered are zero. */
  predicate InMask(mask: Mask, ops: Operands) {
    Merge(mask, ZERO_OPERANDS, ops) == ops
  }

  predicate EntryOk(mask: Mask, e: Entry) {
    && (!e.used ==> e.key == ZERO_OPERANDS && e.out == ZERO_RESULTS)
    && (e.used ==> e.mask == mask && InMask(mask, e.key))
  }

  ghost predicate Inv(cfg: Config, mask: Mask, st: State) {
    && ValidConfig(cfg)
    && WellFormed(cfg, st)
    && (forall a | 0 <= a < |st.m| :: EntryOk(mask, st.m[a]))
    && !st.m[0].used
    && (forall i, s | 0 <= i < cfg.k && 0 <= s < cfg.slots :: CellOk(cfg, st, i, s))
  }

  /** A lookup of `ops` reaches entry `e`: no counter on its path is zero and the words XOR to `e`. */
  ghost predicate Resolves(cfg: Config, st: State, ops: Operands, e: nat) {
    && WellFormed(cfg, st) && ValidConfig(cfg)
    && e < cfg.capacity
    && (forall i | 0 <= i < cfg.k :: CellAt(st, Hashes(cfg, ops), i).cnt > 0)
    && Address(st, Hashes(cfg, ops), cfg.k) == e
  }

  /** `guard` protects a live rule other than entry `addr`. */
  ghost predicate GuardOk(cfg: Config, st: State, guard: Option<seq<nat>>, addr: nat) {
    guard.Some? ==>
      exists e | 0 <= e < |st.m| && e != addr :: st.m[e].used && guard.value == Hashes(cfg, st.m[e].key)
  }

  // ---- the sets of users ----

  lemma UsersWithout(cfg: Config, st: State, st': State, addr: nat, i: nat, s: nat)
    requires addr < |st.m| && st.m[addr].used
    requires |st'.m| == |st.m| && !st'.m[addr].used
    requires forall a | 0 <= a < |st.m| && a != addr :: st'.m[a] == st.m[a]
    ensures Users(cfg, st', i, s) == Users(cfg, st, i, s) - {addr}
    ensures cfg.hash(i, st.m[addr].key) != s ==> Users(cfg, st', i, s) == Users(cfg, st, i, s)
    ensures cfg.hash(i, st.m[addr].key) == s ==> |Users(cfg, st', i, s)| == |Users(cfg, st, i, s)| - 1
  {
    assert Users(cfg, st', i, s) == Users(cfg, st, i, s) - {addr};
  }

  lemma UsersWith(cfg: Config, st: State, st': State, addr: nat, i: nat, s: nat)
    requires addr < |st.m| && !st.m[addr].used
    requires |st'.m| == |st.m| && st'.m[addr].used
    requires forall a | 0 <= a < |st.m| && a != addr :: st'.m[a] == st.m[a]
    ensures cfg.hash(i, st'.m[addr].key) != s ==> Users(cfg, st', i, s) == Users(cfg, st, i, s)
    ensures cfg.hash(i, st'.m[addr].key) == s ==>
              Users(cfg, st', i, s) == Users(cfg, st, i, s) + {addr}
              && |Users(cfg, st', i, s)| == |Users(cfg, st, i, s)| + 1
  {
    if cfg.hash(i, st'.m[addr].key) == s {
      assert Users(cfg, st', i, s) == Users(cfg, st, i, s) + {addr};
    } else {
      assert Users(cfg, st', i, s) == Users(cfg, st, i, s);
    }
  }

  // ---- eviction ----

  lemma EvictCellOk(cfg: Config, mask: Mask, st: State, addr: nat, guard: Option<seq<nat>>, i: nat, s: nat)
    requires Inv(cfg, mask, st) && addr < cfg.capacity && st.m[addr].used && GuardOk(cfg, st, guard, addr)
    requires i < cfg.k && s < cfg.slots
    ensures CellOk(cfg, Evict(cfg, st, addr, guard), i, s)
  {
    var hs := Hashes(cfg, st.m[addr].key);
    var st' := Evict(cfg, st, addr, guard);
    UsersWithout(cfg, st, st', addr, i, s);
    assert CellOk(cfg, st, i, s);
    var c := st.g[i][s];
    if hs[i] != s {
      assert st'.g[i][s] == c;
    } else {
      assert st'.g[i][s] == EvictCell(c, addr, Guarded(guard, hs, i));
      if Guarded(guard, hs, i) {
        var e :| 0 <= e < |st.m| && e != addr && st.m[e].used && guard.value == Hashes(cfg, st.m[e].key);
        assert guard.value[i] == cfg.hash(i, st.m[e].key);
        assert e in Users(cfg, st', i, s);
      }
    }
  }

  lemma EvictInv(cfg: Config, mask: Mask, st: State, addr: nat, guard: Option<seq<nat>>)
    requires Inv(cfg, mask, st) && addr < cfg.capacity && st.m[addr].used && GuardOk(cfg, st, guard, addr)
    ensures Inv(cfg, mask, Evict(cfg, st, addr, guard))
  {
    forall i, s | 0 <= i < cfg.k && 0 <= s < cfg.slots ensures CellOk(cfg, Evict(cfg, st, addr, guard), i, s) {
      EvictCellOk(cfg, mask, st, addr, guard, i, s);
    }
  }

  /** Words at places where no cell changed word give the same address. */
  lemma {:induction false} SameAddress(st: State, st': State, hs: seq<nat>, n: nat)
    requires InTables(st, hs) && InTables(st', hs) && n <= |hs|
    requires forall i | 0 <= i < n :: CellAt(st', hs, i).word == CellAt(st, hs, i).word
    ensures Address(st', hs, n) == Address(st, hs, n)
  {
    if n != 0 { SameAddress(st, st', hs, n - 1); }
  }

  /** Evicting with a rule's hashes as guard leaves that rule reachable. */
  lemma EvictKeepsGuarded(cfg: Config, st: State, addr: nat, ops: Operands, e: nat)
    requires Resolves(cfg, st, ops, e) && addr < cfg.capacity
    ensures Resolves(cfg, Evict(cfg, st, addr, Some(Hashes(cfg, ops))), ops, e)
  {
    SameAddress(st, Evict(cfg, st, addr, Some(Hashes(cfg, ops))), Hashes(cfg, ops), cfg.k);
  }

  // ---- real_insert ----

  lemma RealInsertCellOk(cfg: Config, mask: Mask, st: State, addr: nat, ops: Operands, res: Results, free: nat, i: nat,
                         s: nat)
    requires Inv(cfg, mask, st) && 0 < addr < cfg.capacity && !st.m[addr].used && InMask(mask, ops)
    requires i < cfg.k && s < cfg.slots
    ensures CellOk(cfg, RealInsert(cfg, st, addr, ops, res, free, mask), i, s)
  {
    UsersWith(cfg, st, RealInsert(cfg, st, addr, ops, res, free, mask), addr, i, s);
    assert CellOk(cfg, st, i, s);
  }

  lemma RealInsertInv(cfg: Config, mask: Mask, st: State, addr: nat, ops: Operands, res: Results, free: nat)
    requires Inv(cfg, mask, st) && 0 < addr < cfg.capacity && !st.m[addr].used && InMask(mask, ops)
    ensures var st' := RealInsert(cfg, st, addr, ops, res, free, mask);
            Inv(cfg, mask, st') && st'.m == st.m[addr := Entry(true, ops, res, mask)]
  {
    forall i, s | 0 <= i < cfg.k && 0 <= s < cfg.slots
      ensures CellOk(cfg, RealInsert(cfg, st, addr, ops, res, free, mask), i, s)
    {
      RealInsertCellOk(cfg, mask, st, addr, ops, res, free, i, s);
    }
  }

  /** Overwriting one word of a path with `w ^ current ^ addr` makes the path spell `addr`. */
  lemma {:induction false} OneWordChanged(st: State, st': State, hs: seq<nat>, free: nat, n: nat)
    requires InTables(st, hs) && InTables(st', hs) && n <= |hs| && free < |hs|
    requires forall i | 0 <= i < |hs| && i != free :: CellAt(st', hs, i).word == CellAt(st, hs, i).word
    ensures free < n ==> Xor(Address(st', hs, n), CellAt(st, hs, free).word)
                         == Xor(Address(st, hs, n), CellAt(st', hs, free).word)
    ensures n <= free ==> Address(st', hs, n) == Address(st, hs, n)
  {
    if n != 0 {
      OneWordChanged(st, st', hs, free, n - 1);
      var a, a' := Address(st, hs, n - 1), Address(st', hs, n - 1);
      var w, w' := CellAt(st, hs, free).word, CellAt(st', hs, free).word;
      if free == n - 1 {
        XorSwapRight(a, w', w);
      } else if free < n - 1 {
        var x := CellAt(st, hs, n - 1).word;
        XorSwapRight(a', x, w);
        XorSwapRight(a, x, w');
      }
    }
  }

  lemma RealInsertResolves(cfg: Config, st: State, addr: nat, ops: Operands, res: Results, free: nat, mask: Mask)
    requires ValidConfig(cfg) && WellFormed(cfg, st) && addr < cfg.capacity && free < cfg.k
    ensures Resolves(cfg, RealInsert(cfg, st, addr, ops, res, free, mask), ops, addr)
  {
    var hs := Hashes(cfg, ops);
    var st' := RealInsert(cfg, st, addr, ops, res, free, mask);
    OneWordChanged(st, st', hs, free, cfg.k);
    SolveAddress(Address(st', hs, cfg.k), CellAt(st, hs, free).word, Address(st, hs, cfg.k), addr);
  }

  lemma SolveAddress(x: nat, w: nat, current: nat, addr: nat)
    requires Xor(x, w) == Xor(current, Xor(Xor(w, current), addr))
    ensures x == addr
  {
    // x = x ^ w ^ w, and the right-hand side is w ^ addr
    XorAssoc(x, w, w); XorSelf(w); XorZero(x);
    XorComm(w, current);
    XorAssoc(Xor(current, w), addr, 0);
    XorAssoc(current, Xor(current, w), addr);
    XorAssoc(current, current, w); XorSelf(current); XorZero(w);
    XorComm(w, addr);
    XorAssoc(addr, w, w); XorZero(addr);
  }

  /** Inserting at a place whose free slot is not one of a rule's slots leaves that rule reachable. */
  lemma RealInsertKeepsGuarded(cfg: Config, st: State, addr: nat, key: Operands, res: Results, free: nat, mask: Mask,
                               ops: Operands, e: nat)
    requires Resolves(cfg, st, ops, e) && addr < cfg.capacity && free < cfg.k
    requires cfg.hash(free, key) != cfg.hash(free, ops)
    ensures Resolves(cfg, RealInsert(cfg, st, addr, key, res, free, mask), ops, e)
  {
    SameAddress(st, RealInsert(cfg, st, addr, key, res, free, mask), Hashes(cfg, ops), cfg.k);
  }
}
