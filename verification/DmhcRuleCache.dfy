/** The wrapper that drives the multi-hash cache
    (validator/rule_cache/dmhc_rule_cache/dmhc_rule_cache.cc). */
module DmhcRuleCache {
  import opened Wrappers
  import opened RiscvIsa
  import DmhcSpec
  import opened DmhcMixed
  import Dmhc

  type Config = DmhcSpec.Config

  /** The cache, the operands and mask of the latest `allow`, and the exit code of a failed assertion or
      self-check, after which the process is gone. */
  datatype Wrapper = Wrapper(st: DmhcSpec.State, ops: Operands, consider: Mask, exit: nat)

  ghost predicate ValidWrapper(cfg: Config, w: Wrapper) {
    DmhcSpec.ValidConfig(cfg) && DmhcSpec.WellFormed(cfg, w.st)
  }

  function Hit(cfg: Config, w: Wrapper, ops: Operands): Option<Results>
    requires ValidWrapper(cfg, w)
  {
    DmhcSpec.Lookup(cfg, w.st, ops, MaskOf(ops))
  }

  function Allowed(w: Wrapper, ops: Operands): Wrapper {
    w.(ops := ops, consider := MaskOf(ops))
  }

  /** The rule goes in under the operands of the previous `allow`, whatever operands are passed. */
  function Installed(cfg: Config, w: Wrapper, res: Results): (w': Wrapper)
    requires ValidWrapper(cfg, w)
    ensures ValidWrapper(cfg, w')
  {
    w.(st := DmhcSpec.Insert(cfg, w.st, w.ops, res, w.consider),
       exit := DmhcSpec.ExitCode(cfg, w.st, w.ops, res, w.consider))
  }

  function Flushed(cfg: Config, w: Wrapper): (w': Wrapper)
    requires ValidWrapper(cfg, w)
    ensures ValidWrapper(cfg, w')
  {
    w.(st := DmhcSpec.Reset(cfg, w.st))
  }

  class DmhcRuleCache {
    const the_rule_cache: Dmhc.Dmhc
    const consider: array<bool>
    var ops_copy: Operands
    var res_copy: Results
    var exit_code: nat

    ghost function Repr(): set<object> {
      {this, consider} + the_rule_cache.Repr()
    }

    ghost predicate Valid()
      reads Repr()
    {
      && the_rule_cache.Valid()
      && consider.Length == OPS_LEN && consider[0] && consider[1]
      && consider !in the_rule_cache.Repr() && this !in the_rule_cache.Repr()
    }

    ghost function Model(): (w: Wrapper)
      requires Valid()
      reads Repr()
      ensures ValidWrapper(the_rule_cache.cfg, w)
    {
      Wrapper(the_rule_cache.model, ops_copy, consider[..], exit_code)
    }

    constructor (cfg: Config)
      requires DmhcSpec.ValidConfig(cfg)
      ensures Valid() && fresh(Repr()) && the_rule_cache.cfg == cfg
      ensures DmhcSpec.IsEmpty(cfg, Model().st) && Model().exit == 0
    {
      the_rule_cache := new Dmhc.Dmhc(cfg);
      consider := new bool[OPS_LEN](i => i < 2);
      ops_copy, res_copy, exit_code := ZERO_OPERANDS, ZERO_RESULTS, 0;
    }

    method SetConsider(ops: Operands)
      requires Valid()
      modifies consider
      ensures Valid() && consider[..] == MaskOf(ops)
    {
      consider[2] := ops.op1 != BAD_TAG_VALUE;
      consider[3] := ops.op2 != BAD_TAG_VALUE;
      consider[4] := ops.op3 != BAD_TAG_VALUE;
      consider[5] := ops.mem != BAD_TAG_VALUE;
      assert consider[..] == MaskOf(ops);
    }

    method Allow(ops: Operands, res: Results) returns (found: bool, res': Results)
      requires Valid()
      modifies Repr()
      ensures Valid() && Model() == Allowed(old(Model()), ops)
      ensures var hit := Hit(the_rule_cache.cfg, old(Model()), ops);
              found == hit.Some? && res' == if found then hit.value else res
    {
      ops_copy := ops;
      SetConsider(ops);
      found, res_copy := the_rule_cache.Lookup(ops_copy, res_copy, consider);
      res' := if found then res_copy else res;
    }

    /** `ops` is not used: the copy made by `Allow` is. */
    method InstallRule(ops: Operands, res: Results)
      requires Valid()
      modifies Repr()
      ensures Valid() && Model() == Installed(the_rule_cache.cfg, old(Model()), res)
    {
      res_copy := res;
      exit_code := the_rule_cache.Insert(ops_copy, res_copy, consider);
    }

    method Flush()
      requires Valid()
      modifies Repr()
      ensures Valid() && Model() == Flushed(the_rule_cache.cfg, old(Model()))
    {
      the_rule_cache.Reset();
    }
  }
}
