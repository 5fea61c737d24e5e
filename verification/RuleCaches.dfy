/** The ideal rule cache, a plain map, and the finite one, a map bounded by a ring of keys
    (validator/rule_cache/ideal_rule_cache, validator/rule_cache/finite_rule_cache). */
module RuleCaches {
  import opened RiscvIsa

  type Table = map<Operands, Results>

  // ---- the ideal cache ----

  class IdealRuleCache {
    var rule_cache_table: Table

    constructor ()
      ensures rule_cache_table == map[]
    {
      rule_cache_table := map[];
    }

    method Flush()
      modifies this
      ensures rule_cache_table == map[]
    {
      rule_cache_table := map[];
    }

    method InstallRule(ops: Operands, res: Results)
      modifies this
      ensures rule_cache_table == old(rule_cache_table)[ops := res]
    {
      rule_cache_table := rule_cache_table[ops := res];
    }

    method Allow(ops: Operands, res: Results) returns (found: bool, res': Results)
      ensures found <==> ops in rule_cache_table
      ensures res' == if found then rule_cache_table[ops] else res
    {
      found := ops in rule_cache_table;
      res' := if found then rule_cache_table[ops] else res;
    }
  }

  // ---- the finite cache as a value ----

  datatype Finite = Finite(table: Table, entries: seq<Operands>, next: nat, full: bool)

  predicate ValidFinite(f: Finite) {
    f.next < |f.entries|
  }

  function NewFinite(capacity: nat): (f: Finite)
    requires capacity > 0
    ensures ValidFinite(f)
  {
    Finite(map[], seq(capacity, _ => ZERO_OPERANDS), 0, false)
  }

  /** The branch that prints "Internal error in rule cache". */
  predicate InternalError(f: Finite)
    requires ValidFinite(f)
  {
    f.full && f.entries[f.next] !in f.table
  }

  function InstallFinite(f: Finite, ops: Operands, res: Results): (f': Finite)
    requires ValidFinite(f)
    ensures ValidFinite(f') && |f'.entries| == |f.entries|
  {
    var table := if f.full then f.table - {f.entries[f.next]} else f.table;
    var entries := f.entries[f.next := ops];
    if f.next + 1 >= |entries| then Finite(table[ops := res], entries, 0, true)
    else Finite(table[ops := res], entries, f.next + 1, f.full)
  }

  /** The inherited `flush` clears the map and leaves the ring as it is. */
  function FlushFinite(f: Finite): Finite {
    f.(table := map[])
  }

  class FiniteRuleCache {
    var rule_cache_table: Table
    var cache_full: bool
    var entries: seq<Operands>
    var next_entry: nat

    ghost predicate Valid()
      reads this
    {
      ValidFinite(Model())
    }

    function Model(): Finite
      reads this
    {
      Finite(rule_cache_table, entries, next_entry, cache_full)
    }

    constructor (capacity: nat)
      requires capacity > 0
      ensures Valid() && Model() == NewFinite(capacity)
    {
      rule_cache_table, cache_full, next_entry := map[], false, 0;
      entries := seq(capacity, _ => ZERO_OPERANDS);
    }

    method Flush()
      requires Valid()
      modifies this
      ensures Valid() && Model() == FlushFinite(old(Model()))
    {
      rule_cache_table := map[];
    }

    /** `error` tells that the internal error was printed. */
    method InstallRule(ops: Operands, res: Results) returns (error: bool)
      requires Valid()
      modifies this
      ensures Valid() && Model() == InstallFinite(old(Model()), ops, res)
      ensures error == InternalError(old(Model()))
    {
      error := false;
      if cache_full {
        if entries[next_entry] !in rule_cache_table {
          error := true;
          NothingToErase(rule_cache_table, entries[next_entry]);
        } else {
          rule_cache_table := rule_cache_table - {entries[next_entry]};
        }
      }
      rule_cache_table := rule_cache_table[ops := res];
      entries := entries[next_entry := ops];
      next_entry := next_entry + 1;
      if next_entry >= |entries| {
        cache_full := true;
        next_entry := 0;
      }
    }

    static lemma NothingToErase(table: Table, key: Operands)
      requires key !in table
      ensures table - {key} == table
    {}

    method Allow(ops: Operands, res: Results) returns (found: bool, res': Results)
      requires Valid()
      ensures found <==> ops in rule_cache_table
      ensures res' == if found then rule_cache_table[ops] else res
    {
      found := ops in rule_cache_table;
      res' := if found then rule_cache_table[ops] else res;
    }
  }

  // ---- runs ----

  datatype Op = Install(ops: Operands, res: Results) | Flush

  function RunFinite(capacity: nat, ops: seq<Op>): (f: Finite)
    requires capacity > 0
    ensures ValidFinite(f) && |f.entries| == capacity
  {
    if ops == [] then NewFinite(capacity)
    else
      var before := RunFinite(capacity, ops[..|ops| - 1]);
      match ops[|ops| - 1]
      case Install(k, r) => InstallFinite(before, k, r)
      case Flush => FlushFinite(before)
  }

  function RunIdeal(ops: seq<Op>): Table {
    if ops == [] then map[]
    else
      var before := RunIdeal(ops[..|ops| - 1]);
      match ops[|ops| - 1]
      case Install(k, r) => before[k := r]
      case Flush => map[]
  }

  /** The keys in the ring, oldest first. */
  function Queue(f: Finite): seq<Operands>
    requires ValidFinite(f)
  {
    if f.full then f.entries[f.next..] + f.entries[..f.next] else f.entries[..f.next]
  }

  /** Installing appends to the queue and drops the oldest key of a full one. */
  lemma QueueStep(f: Finite, ops: Operands, res: Results)
    requires ValidFinite(f)
    ensures Queue(InstallFinite(f, ops, res)) == (if f.full then Queue(f)[1..] else Queue(f)) + [ops]
    ensures InstallFinite(f, ops, res).full <==> |Queue(InstallFinite(f, ops, res))| == |f.entries|
  {
    var e, n, q := f.entries, f.next, Queue(InstallFinite(f, ops, res));
    RingStep(e, n, ops);
    if f.full {
      var rest := e[n + 1..] + e[..n];
      assert q == e[n + 1..] + (e[..n] + [ops]);
      assert q == rest + [ops];
      assert Queue(f) == [e[n]] + rest;
      assert Queue(f)[1..] == rest;
    } else {
      assert q == e[..n] + [ops];
    }
  }

  lemma RingStep(e: seq<Operands>, n: nat, x: Operands)
    requires n < |e|
    ensures e[n := x][..n + 1] == e[..n] + [x] && e[n := x][n + 1..] == e[n + 1..] && e[n..] == [e[n]] + e[n + 1..]
    ensures n + 1 == |e| ==> e[n := x][0..] + e[n := x][..0] == e[n + 1..] + (e[..n] + [x]) == e[..n] + [x]
  {}

  predicate InQueue(f: Finite)
    requires ValidFinite(f)
  {
    forall k | k in f.table :: k in Queue(f)
  }

  lemma {:induction false} KeysFit(table: Table, queue: seq<Operands>)
    requires forall k | k in table :: k in queue
    ensures |table| <= |queue|
  {
    if |queue| > 0 {
      var rest := table - {queue[0]};
      forall k | k in rest ensures k in queue[1..] { assert queue == [queue[0]] + queue[1..]; }
      KeysFit(rest, queue[1..]);
      if queue[0] in table {
        assert table.Keys == rest.Keys + {queue[0]};
        assert |table| == |table.Keys| && |rest| == |rest.Keys|;
      } else {
        assert rest == table;
      }
    } else {
      assert table == map[];
    }
  }

  lemma InstallInQueue(f: Finite, ops: Operands, res: Results)
    requires ValidFinite(f) && InQueue(f)
    ensures InQueue(InstallFinite(f, ops, res))
  {
    var f' := InstallFinite(f, ops, res);
    QueueStep(f, ops, res);
    var queue, queue' := Queue(f), Queue(f');
    assert ops == queue'[|queue'| - 1];
    forall k | k in f.table && (f.full ==> k != f.entries[f.next]) ensures k in queue' {
      var i :| 0 <= i < |queue| && queue[i] == k;
      if f.full {
        assert queue[0] == f.entries[f.next];
        assert queue'[i - 1] == k;
      } else {
        assert queue'[i] == k;
      }
    }
  }

  /** In any run, with flushes and repeated keys, the cache holds at most `capacity` rules, and every
      rule it holds is one the ideal cache holds after the same run, with the same result. */
  lemma {:induction false} FiniteBounded(capacity: nat, ops: seq<Op>)
    requires capacity > 0
    ensures var f := RunFinite(capacity, ops);
            && InQueue(f) && |f.table| <= capacity
            && forall k | k in f.table :: k in RunIdeal(ops) && RunIdeal(ops)[k] == f.table[k]
  {
    if ops != [] {
      var before, last := ops[..|ops| - 1], ops[|ops| - 1];
      FiniteBounded(capacity, before);
      if last.Install? { InstallInQueue(RunFinite(capacity, before), last.ops, last.res); }
    }
    var f := RunFinite(capacity, ops);
    KeysFit(f.table, Queue(f));
  }

  // ---- runs that install absent keys only ----

  datatype Rule = Rule(ops: Operands, res: Results)

  function Installs(rules: seq<Rule>): (ops: seq<Op>)
    ensures |ops| == |rules| && forall i | 0 <= i < |rules| :: ops[i] == Install(rules[i].ops, rules[i].res)
  {
    seq(|rules|, i requires 0 <= i < |rules| => Install(rules[i].ops, rules[i].res))
  }

  /** Every rule was absent when it was installed. */
  predicate AbsentRun(capacity: nat, rules: seq<Rule>)
    requires capacity > 0
  {
    rules == [] ||
    (AbsentRun(capacity, rules[..|rules| - 1]) &&
     rules[|rules| - 1].ops !in RunFinite(capacity, Installs(rules[..|rules| - 1])).table)
  }

  /** The last `min(n, capacity)` rules. */
  function Newest(capacity: nat, rules: seq<Rule>): seq<Rule> {
    if |rules| <= capacity then rules else rules[|rules| - capacity..]
  }

  function TableOf(rules: seq<Rule>): Table {
    if rules == [] then map[]
    else TableOf(rules[..|rules| - 1])[rules[|rules| - 1].ops := rules[|rules| - 1].res]
  }

  function KeysOf(rules: seq<Rule>): (ks: seq<Operands>)
    ensures |ks| == |rules| && forall i | 0 <= i < |rules| :: ks[i] == rules[i].ops
  {
    seq(|rules|, i requires 0 <= i < |rules| => rules[i].ops)
  }

  predicate Distinct(rules: seq<Rule>) {
    forall i, j | 0 <= i < j < |rules| :: rules[i].ops != rules[j].ops
  }

  lemma {:induction false} TableOfKeys(rules: seq<Rule>, k: Operands)
    ensures k in TableOf(rules) <==> exists i :: 0 <= i < |rules| && rules[i].ops == k
  {
    if rules != [] { TableOfKeys(rules[..|rules| - 1], k); }
  }

  /** Dropping the oldest of distinct rules removes its key. */
  lemma {:induction false} TableOfRest(rules: seq<Rule>)
    requires rules != [] && Distinct(rules)
    ensures TableOf(rules[1..]) == TableOf(rules) - {rules[0].ops}
  {
    if |rules| > 1 {
      var front := rules[..|rules| - 1];
      TableOfRest(front);
      assert rules[1..][..|rules| - 2] == front[1..];
      assert rules[1..] != [] && rules[1..][|rules| - 2] == rules[|rules| - 1];
    } else {
      assert rules[1..] == [] && TableOf(rules[..0]) == map[];
    }
  }

  /** The cache holds exactly these distinct rules, oldest first. */
  predicate Holds(f: Finite, rules: seq<Rule>)
    requires ValidFinite(f)
  {
    Distinct(rules) && f.table == TableOf(rules) && Queue(f) == KeysOf(rules)
  }

  /** What an absent-key run looks like after some rules. */
  predicate HoldsNewest(capacity: nat, rules: seq<Rule>, f: Finite)
    requires ValidFinite(f)
  {
    Holds(f, Newest(capacity, rules)) && (f.full <==> |rules| >= capacity)
  }

  lemma NewestStep(capacity: nat, rules: seq<Rule>, rule: Rule)
    requires capacity > 0
    ensures Newest(capacity, rules + [rule])
            == (if |rules| >= capacity then Newest(capacity, rules)[1..] else Newest(capacity, rules)) + [rule]
  {}

  lemma DropOldest(f: Finite, rules: seq<Rule>)
    requires ValidFinite(f) && Holds(f, rules) && f.full
    ensures |rules| == |f.entries| && f.entries[f.next] == rules[0].ops && !InternalError(f)
    ensures f.table - {f.entries[f.next]} == TableOf(rules[1..]) && Queue(f)[1..] == KeysOf(rules[1..])
  {
    assert Queue(f)[0] == f.entries[f.next];
    TableOfRest(rules);
    TableOfKeys(rules, rules[0].ops);
  }

  lemma AppendDistinct(rules: seq<Rule>, rule: Rule)
    requires Distinct(rules) && rule.ops !in TableOf(rules)
    ensures Distinct(rules + [rule])
    ensures TableOf(rules + [rule]) == TableOf(rules)[rule.ops := rule.res]
    ensures KeysOf(rules + [rule]) == KeysOf(rules) + [rule.ops]
  {
    assert (rules + [rule])[..|rules|] == rules;
    forall i | 0 <= i < |rules| ensures rules[i].ops != rule.ops { TableOfKeys(rules, rules[i].ops); }
  }

  /** The key is absent, or it is the oldest one of a full ring. */
  predicate FifoStep(f: Finite, k: Operands)
    requires ValidFinite(f)
  {
    k !in f.table || (f.full && f.entries[f.next] == k)
  }

  lemma HoldsStep(f: Finite, rules: seq<Rule>, rule: Rule)
    requires ValidFinite(f) && Holds(f, rules) && FifoStep(f, rule.ops)
    ensures Holds(InstallFinite(f, rule.ops, rule.res), (if f.full then rules[1..] else rules) + [rule])
  {
    QueueStep(f, rule.ops, rule.res);
    if f.full {
      DropOldest(f, rules);
      AppendDistinct(rules[1..], rule);
    } else {
      AppendDistinct(rules, rule);
    }
  }

  /** Every key was absent or the oldest of a full ring when it was installed. */
  predicate FifoRun(capacity: nat, rules: seq<Rule>)
    requires capacity > 0
  {
    rules == [] ||
    (FifoRun(capacity, rules[..|rules| - 1]) &&
     FifoStep(RunFinite(capacity, Installs(rules[..|rules| - 1])), rules[|rules| - 1].ops))
  }

  /** After every prefix of the run the cache held exactly the newest rules. */
  predicate AlwaysNewest(capacity: nat, rules: seq<Rule>)
    requires capacity > 0
  {
    && HoldsNewest(capacity, rules, RunFinite(capacity, Installs(rules)))
    && (rules != [] ==> AlwaysNewest(capacity, rules[..|rules| - 1]))
  }

  /** In a run without flushes the cache always holds exactly the last `min(n, capacity)` rules if and only if
      each installed key is absent or is the oldest of a full ring. */
  lemma {:induction false} FiniteIsFifoIff(capacity: nat, rules: seq<Rule>)
    requires capacity > 0
    ensures AlwaysNewest(capacity, rules) <==> FifoRun(capacity, rules)
    ensures FifoRun(capacity, rules) ==> !InternalError(RunFinite(capacity, Installs(rules)))
  {
    if rules != [] {
      var before, last := rules[..|rules| - 1], rules[|rules| - 1];
      assert before + [last] == rules;
      FiniteIsFifoIff(capacity, before);
      InstallsSnoc(capacity, before, last);
      if AlwaysNewest(capacity, before) {
        NewestAfterIff(capacity, before, RunFinite(capacity, Installs(before)), last);
      }
    } else {
      NothingHeld(capacity);
    }
    if FifoRun(capacity, rules) { OldestStored(capacity, rules, RunFinite(capacity, Installs(rules))); }
  }

  lemma NothingHeld(capacity: nat)
    requires capacity > 0
    ensures HoldsNewest(capacity, [], RunFinite(capacity, Installs([])))
  {
    assert Installs([]) == [] && KeysOf([]) == [];
  }

  lemma NewestAfterIff(capacity: nat, rules: seq<Rule>, f: Finite, rule: Rule)
    requires ValidFinite(f) && |f.entries| == capacity && HoldsNewest(capacity, rules, f)
    ensures HoldsNewest(capacity, rules + [rule], InstallFinite(f, rule.ops, rule.res)) <==> FifoStep(f, rule.ops)
  {
    var newest := Newest(capacity, rules);
    NewestStep(capacity, rules, rule);
    if FifoStep(f, rule.ops) {
      StepHoldsNewest(capacity, rules, f, rule);
    } else {
      TableOfKeys(newest, rule.ops);
      var i :| 0 <= i < |newest| && newest[i].ops == rule.ops;
      if f.full { DropOldest(f, newest); }
      var after, j := Newest(capacity, rules + [rule]), if f.full then i - 1 else i;
      assert after[j].ops == rule.ops && after[|after| - 1] == rule && j < |after| - 1;
    }
  }

  /** Runs that install absent keys only, as the validator does between flushes, are one case: there the cache
      holds exactly the last `min(n, capacity)` rules, and the internal error is not reached. */
  lemma {:induction false} FiniteIsFifo(capacity: nat, rules: seq<Rule>)
    requires capacity > 0 && AbsentRun(capacity, rules)
    ensures HoldsNewest(capacity, rules, RunFinite(capacity, Installs(rules)))
    ensures !InternalError(RunFinite(capacity, Installs(rules)))
  {
    AbsentIsFifo(capacity, rules);
    FiniteIsFifoIff(capacity, rules);
  }

  lemma {:induction false} AbsentIsFifo(capacity: nat, rules: seq<Rule>)
    requires capacity > 0 && AbsentRun(capacity, rules)
    ensures FifoRun(capacity, rules)
  {
    if rules != [] { AbsentIsFifo(capacity, rules[..|rules| - 1]); }
  }

  lemma InstallsSnoc(capacity: nat, before: seq<Rule>, last: Rule)
    requires capacity > 0
    ensures RunFinite(capacity, Installs(before + [last]))
            == InstallFinite(RunFinite(capacity, Installs(before)), last.ops, last.res)
  {
    assert Installs(before + [last])[..|before|] == Installs(before);
  }

  lemma StepHoldsNewest(capacity: nat, rules: seq<Rule>, f: Finite, rule: Rule)
    requires ValidFinite(f) && |f.entries| == capacity && HoldsNewest(capacity, rules, f) && FifoStep(f, rule.ops)
    ensures HoldsNewest(capacity, rules + [rule], InstallFinite(f, rule.ops, rule.res))
  {
    HoldsStep(f, Newest(capacity, rules), rule);
    NewestStep(capacity, rules, rule);
    QueueStep(f, rule.ops, rule.res);
  }

  lemma OldestStored(capacity: nat, rules: seq<Rule>, f: Finite)
    requires ValidFinite(f) && HoldsNewest(capacity, rules, f)
    ensures !InternalError(f)
  {
    if f.full { DropOldest(f, Newest(capacity, rules)); }
  }

  // ---- every run ----

  /** The installations of a run, numbered from 0. */
  function Installations(ops: seq<Op>): seq<Rule> {
    if ops == [] then []
    else
      var before := Installations(ops[..|ops| - 1]);
      match ops[|ops| - 1]
      case Install(k, r) => before + [Rule(k, r)]
      case Flush => before
  }

  /** How many installations came before the last flush. */
  function FlushedAt(ops: seq<Op>): nat {
    if ops == [] then 0
    else if ops[|ops| - 1].Flush? then |Installations(ops)|
    else FlushedAt(ops[..|ops| - 1])
  }

  /** Flushes do not touch the ring: it lists the newest keys of all installations. */
  lemma {:induction false} QueueIsNewest(capacity: nat, ops: seq<Op>)
    requires capacity > 0
    ensures var f, rules := RunFinite(capacity, ops), Installations(ops);
            Queue(f) == KeysOf(Newest(capacity, rules)) && (f.full <==> |rules| >= capacity)
  {
    if ops != [] {
      var before, last := ops[..|ops| - 1], ops[|ops| - 1];
      var f, rules := RunFinite(capacity, before), Installations(before);
      QueueIsNewest(capacity, before);
      if last.Install? {
        QueueStep(f, last.ops, last.res);
        NewestStep(capacity, rules, Rule(last.ops, last.res));
        KeysSnoc(capacity, rules, f, Rule(last.ops, last.res));
      }
    }
  }

  lemma KeysSnoc(capacity: nat, rules: seq<Rule>, f: Finite, rule: Rule)
    requires capacity > 0 && ValidFinite(f)
    requires Queue(f) == KeysOf(Newest(capacity, rules)) && (f.full <==> |rules| >= capacity)
    ensures var kept := if |rules| >= capacity then Newest(capacity, rules)[1..] else Newest(capacity, rules);
            KeysOf(kept + [rule]) == (if f.full then Queue(f)[1..] else Queue(f)) + [rule.ops]
  {}

  /** The key the next installation erases. */
  lemma OldestIs(capacity: nat, ops: seq<Op>)
    requires capacity > 0 && |Installations(ops)| >= capacity
    ensures var f, rules := RunFinite(capacity, ops), Installations(ops);
            f.full && f.entries[f.next] == rules[|rules| - capacity].ops
  {
    QueueIsNewest(capacity, ops);
    var f := RunFinite(capacity, ops);
    assert Queue(f)[0] == f.entries[f.next];
  }

  predicate LastInstall(rules: seq<Rule>, k: Operands, l: nat) {
    l < |rules| && rules[l].ops == k && forall p | l < p < |rules| :: rules[p].ops != k
  }

  /** Installation `p + capacity` erases the key of installation `p`. No such erasure came after `l`. */
  predicate NotErased(capacity: nat, rules: seq<Rule>, k: Operands, l: nat) {
    forall p | 0 <= p < |rules| && rules[p].ops == k :: p + capacity <= l || p + capacity >= |rules|
  }

  predicate StillHeld(capacity: nat, ops: seq<Op>, k: Operands, l: nat) {
    LastInstall(Installations(ops), k, l) && FlushedAt(ops) <= l && NotErased(capacity, Installations(ops), k, l)
  }

  ghost predicate Held(capacity: nat, ops: seq<Op>, k: Operands) {
    exists l: nat :: StillHeld(capacity, ops, k, l)
  }

  lemma OtherHeld(capacity: nat, before: seq<Op>, last: Op, k: Operands, l: nat)
    requires capacity > 0 && last.Install? && k != last.ops
    ensures var ops, n := before + [last], |Installations(before)|;
            StillHeld(capacity, ops, k, l)
            <==> StillHeld(capacity, before, k, l) && !(n >= capacity && Installations(before)[n - capacity].ops == k)
  {
    var ops, rules, n := before + [last], Installations(before), |Installations(before)|;
    assert ops[..|ops| - 1] == before;
    assert Installations(ops) == rules + [Rule(last.ops, last.res)];
    if StillHeld(capacity, ops, k, l) {
      assert forall p | 0 <= p < n :: Installations(ops)[p] == rules[p];
      assert NotErased(capacity, rules, k, l);
    }
  }

  lemma NewestHeld(capacity: nat, before: seq<Op>, last: Op)
    requires capacity > 0 && last.Install?
    ensures var ops, n := before + [last], |Installations(before)|;
            Installations(ops)[n] == Rule(last.ops, last.res) && StillHeld(capacity, ops, last.ops, n)
            && forall l: nat | StillHeld(capacity, ops, last.ops, l) :: l == n
  {
    var ops := before + [last];
    assert ops[..|ops| - 1] == before;
    FlushedBefore(before);
  }

  lemma {:induction false} FlushedBefore(ops: seq<Op>)
    ensures FlushedAt(ops) <= |Installations(ops)|
  {
    if ops != [] { FlushedBefore(ops[..|ops| - 1]); }
  }

  /** In every run, with flushes and repeated keys: a key is held exactly when its last installation came after
      the last flush and no erasure of the key came after that installation; it is held with the result of that
      installation. */
  lemma {:induction false} HeldIff(capacity: nat, ops: seq<Op>, k: Operands)
    requires capacity > 0
    ensures var f := RunFinite(capacity, ops);
            && (k in f.table <==> Held(capacity, ops, k))
            && forall l: nat | StillHeld(capacity, ops, k, l) :: k in f.table && f.table[k] == Installations(ops)[l].res
  {
    if ops != [] {
      var before, last := ops[..|ops| - 1], ops[|ops| - 1];
      assert ops == before + [last];
      HeldIff(capacity, before, k);
      if last.Install? { HeldAfterInstall(capacity, before, last, k); }
    }
  }

  lemma HeldAfterInstall(capacity: nat, before: seq<Op>, last: Op, k: Operands)
    requires capacity > 0 && last.Install?
    requires var f := RunFinite(capacity, before);
             && (k in f.table <==> Held(capacity, before, k))
             && forall l: nat | StillHeld(capacity, before, k, l) ::
                 k in f.table && f.table[k] == Installations(before)[l].res
    ensures var ops := before + [last];
            var f := InstallFinite(RunFinite(capacity, before), last.ops, last.res);
            && (k in f.table <==> Held(capacity, ops, k))
            && forall l: nat | StillHeld(capacity, ops, k, l) :: k in f.table && f.table[k] == Installations(ops)[l].res
  {
    var ops, n := before + [last], |Installations(before)|;
    var f := RunFinite(capacity, before);
    QueueIsNewest(capacity, before);
    if n >= capacity { OldestIs(capacity, before); }
    if k == last.ops {
      NewestHeld(capacity, before, last);
    } else {
      forall l: nat
        ensures StillHeld(capacity, ops, k, l)
                <==> StillHeld(capacity, before, k, l)
                     && !(n >= capacity && Installations(before)[n - capacity].ops == k)
      {
        OtherHeld(capacity, before, last, k, l);
      }
      assert ops[..|ops| - 1] == before;
    }
  }

  predicate SinceFlush(ops: seq<Op>, k: Operands, l: nat) {
    LastInstall(Installations(ops), k, l) && FlushedAt(ops) <= l
  }

  /** The ideal cache holds a key exactly when it was installed since the last flush, with the latest result. */
  lemma {:induction false} IdealHeldIff(ops: seq<Op>, k: Operands)
    ensures k in RunIdeal(ops) <==> exists l: nat :: SinceFlush(ops, k, l)
    ensures forall l: nat | SinceFlush(ops, k, l) :: k in RunIdeal(ops) && RunIdeal(ops)[k] == Installations(ops)[l].res
  {
    if ops != [] {
      var before, last := ops[..|ops| - 1], ops[|ops| - 1];
      var rules, rules' := Installations(before), Installations(ops);
      IdealHeldIff(before, k);
      FlushedBefore(before);
      if last.Install? {
        if k == last.ops {
          assert SinceFlush(ops, k, |rules|);
        } else {
          forall l: nat ensures SinceFlush(ops, k, l) <==> SinceFlush(before, k, l) {
            if SinceFlush(ops, k, l) { assert forall p | 0 <= p < |rules| :: rules'[p] == rules[p]; }
          }
        }
      }
    }
  }

  /** The internal error is reached exactly when the ring is full and the key it is about to erase, that of the
      installation `capacity` places back, is not held. */
  lemma InternalErrorIff(capacity: nat, ops: seq<Op>)
    requires capacity > 0
    ensures var rules := Installations(ops);
            InternalError(RunFinite(capacity, ops))
            <==> |rules| >= capacity && !Held(capacity, ops, rules[|rules| - capacity].ops)
  {
    QueueIsNewest(capacity, ops);
    if |Installations(ops)| >= capacity {
      OldestIs(capacity, ops);
      HeldIff(capacity, ops, Installations(ops)[|Installations(ops)| - capacity].ops);
    }
  }

  /** A flush reaches it without any repeated key: with room for one, the next installation after a flush. */
  lemma FlushReachesError(a: Operands, res: Results)
    ensures InternalError(RunFinite(1, [Install(a, res), Flush]))
  {
    var run := [Install(a, res), Flush];
    assert run[..1] == [Install(a, res)] && run[..1][..0] == [];
    assert RunFinite(1, [Install(a, res)]) == InstallFinite(NewFinite(1), a, res);
  }

  // ---- what flushes and repeated keys do ----

  /** After a flush the ring still lists old keys: with room for two, a rule is lost although it is
      the only one installed since the flush. */
  lemma FlushLosesNewRule(a: Operands, b: Operands, res: Results)
    requires a != b
    ensures var f := RunFinite(2, [Install(a, res), Flush, Install(a, res), Install(b, res)]);
            f.table == map[b := res]
  {
    var f0 := NewFinite(2);
    var f1 := InstallFinite(f0, a, res);
    var f3 := InstallFinite(FlushFinite(f1), a, res);
    assert f3.full && f3.next == 0 && f3.entries[0] == a && f3.table == map[a := res];
    RunOfFour(2, Install(a, res), Flush, Install(a, res), Install(b, res));
  }

  /** Installing a present key again makes the internal error reachable without any flush. */
  lemma RepeatReachesError(a: Operands, b: Operands, res: Results)
    requires a != b
    ensures InternalError(RunFinite(2, [Install(a, res), Install(a, res), Install(b, res)]))
  {
    var f0 := NewFinite(2);
    var f1 := InstallFinite(f0, a, res);
    var f2 := InstallFinite(f1, a, res);
    var f3 := InstallFinite(f2, b, res);
    assert f2.entries == [a, a] && f2.full && f2.next == 0;
    RunOfThree(2, Install(a, res), Install(a, res), Install(b, res));
  }

  function Step(f: Finite, op: Op): (f': Finite)
    requires ValidFinite(f)
    ensures ValidFinite(f')
  {
    match op case Install(k, r) => InstallFinite(f, k, r) case Flush => FlushFinite(f)
  }

  lemma RunOfThree(capacity: nat, a: Op, b: Op, c: Op)
    requires capacity > 0
    ensures RunFinite(capacity, [a, b, c]) == Step(Step(Step(NewFinite(capacity), a), b), c)
  {
    assert [a, b, c][..2] == [a, b] && [a, b][..1] == [a] && [a][..0] == [];
    assert RunFinite(capacity, [a]) == Step(NewFinite(capacity), a);
    assert RunFinite(capacity, [a, b]) == Step(RunFinite(capacity, [a]), b);
  }

  lemma RunOfFour(capacity: nat, a: Op, b: Op, c: Op, d: Op)
    requires capacity > 0
    ensures RunFinite(capacity, [a, b, c, d]) == Step(Step(Step(Step(NewFinite(capacity), a), b), c), d)
  {
    assert [a, b, c, d][..3] == [a, b, c];
    RunOfThree(capacity, a, b, c);
  }
}
