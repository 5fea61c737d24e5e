/** The hashes of the multi-hash cache are linear, so a record can collide with a part of itself in every
    table at once: there are more records than tuples of table indexes. */
module HashCollisions {
  import opened Wrappers
  import opened Bits
  import opened RiscvIsa
  import opened CycleWalk
  import opened FoldHash
  import opened ComputeHash
  import opened DmhcSpec
  import opened DmhcMixed
  import DmhcTheorems

  // ---- linearity ----

  lemma {:induction false} ShrXor(x: nat, y: nat, j: nat)
    ensures Shr(Xor(x, y), j) == Xor(Shr(x, j), Shr(y, j))
    decreases j
  {
    if j > 0 {
      XorUnfold(x, y);
      ShrXor(x / 2, y / 2, j - 1);
    }
  }

  lemma BitXor(x: nat, y: nat, j: nat)
    ensures Bit(Xor(x, y), j) == if Bit(x, j) == Bit(y, j) then 0 else 1
  {
    ShrXor(x, y, j);
    XorUnfold(Shr(x, j), Shr(y, j));
  }

  lemma BitsOfXor(x: nat, y: nat, n: nat)
    ensures BitsOf(Xor(x, y), 0, n) == XorBits(BitsOf(x, 0, n), BitsOf(y, 0, n))
  {
    forall j | 0 <= j < n ensures Bit(Xor(x, y), j) == if Bit(x, j) == Bit(y, j) then 0 else 1 { BitXor(x, y, j); }
  }

  function XorAll(a: seq<nat>, b: seq<nat>): (c: seq<nat>)
    requires |a| == |b|
    ensures |c| == |a| && forall i | 0 <= i < |c| :: c[i] == Xor(a[i], b[i])
  {
    seq(|a|, i requires 0 <= i < |a| => Xor(a[i], b[i]))
  }

  lemma {:induction false} AllBitsXor(widths: seq<nat>, a: seq<nat>, b: seq<nat>)
    requires |widths| == |a| == |b|
    ensures |AllBits(widths, a)| == |AllBits(widths, b)|
    ensures AllBits(widths, XorAll(a, b)) == XorBits(AllBits(widths, a), AllBits(widths, b))
  {
    if |a| > 0 {
      var n := |a| - 1;
      AllBitsXor(widths[..n], a[..n], b[..n]);
      assert XorAll(a, b)[..n] == XorAll(a[..n], b[..n]);
      BitsOfXor(a[n], b[n], widths[n]);
    }
  }

  function XorOperands(a: Operands, b: Operands): Operands {
    Operands(Xor(a.pc, b.pc), Xor(a.ci, b.ci), Xor(a.op1, b.op1), Xor(a.op2, b.op2), Xor(a.op3, b.op3),
             Xor(a.mem, b.mem))
  }

  lemma PermutedXor(p: seq<nat>, a: seq<nat>, b: seq<nat>)
    requires IsPermutation(p) && |a| == |b| <= |p|
    ensures Permuted(p, XorBits(a, b)) == XorBits(Permuted(p, a), Permuted(p, b))
  {}

  /** Every hash is linear. */
  lemma IndexXor(perms: seq<seq<nat>>, k: nat, widths: seq<nat>, size: nat, i: nat, a: Operands, b: Operands)
    requires ValidTables(perms, k, widths) && size >= 2 && i < k
    ensures TableIndex(perms, k, widths, size, i, XorOperands(a, b))
            == Xor(TableIndex(perms, k, widths, size, i, a), TableIndex(perms, k, widths, size, i, b))
  {
    var bitsA, bitsB := AllBits(widths, Fields(a)), AllBits(widths, Fields(b));
    assert Fields(XorOperands(a, b)) == XorAll(Fields(a), Fields(b));
    AllBitsXor(widths, Fields(a), Fields(b));
    AllBitsAreBits(widths, Fields(a));
    AllBitsAreBits(widths, Fields(b));
    PermutedXor(perms[i], bitsA, bitsB);
    FoldLinear(Permuted(perms[i], bitsA), Permuted(perms[i], bitsB), Log2(size));
  }

  // ---- counting ----

  lemma {:induction false} SplitUnique(a: nat, b: nat, c: nat, d: nat, w: nat)
    requires a < Pow2(w) && c < Pow2(w) && a + Shl(b, w) == c + Shl(d, w)
    ensures a == c && b == d
  {
    if w > 0 { SplitUnique(a / 2, b, c / 2, d, w - 1); }
  }

  /** `n` times `w`. */
  function Total(n: nat, w: nat): nat {
    if n == 0 then 0 else w + Total(n - 1, w)
  }

  /** Words of `w` bits, one after another, as one number. */
  function Code(words: seq<nat>, w: nat): nat {
    if |words| == 0 then 0 else words[0] + Shl(Code(words[1..], w), w)
  }

  lemma {:induction false} ShlBelow(x: nat, n: nat, w: nat)
    requires x < Pow2(n)
    ensures Shl(x, w) + Pow2(w) <= Pow2(n + w)
    decreases w
  {
    if w > 0 { ShlBelow(x, n, w - 1); }
  }

  lemma {:induction false} CodeBelow(words: seq<nat>, w: nat)
    requires forall i | 0 <= i < |words| :: words[i] < Pow2(w)
    ensures Code(words, w) < Pow2(Total(|words|, w))
  {
    if |words| > 0 {
      CodeBelow(words[1..], w);
      ShlBelow(Code(words[1..], w), Total(|words| - 1, w), w);
    }
  }

  lemma {:induction false} CodeInjective(a: seq<nat>, b: seq<nat>, w: nat)
    requires |a| == |b| && Code(a, w) == Code(b, w)
    requires forall i | 0 <= i < |a| :: a[i] < Pow2(w) && b[i] < Pow2(w)
    ensures a == b
  {
    if |a| > 0 {
      SplitUnique(a[0], Code(a[1..], w), b[0], Code(b[1..], w), w);
      CodeInjective(a[1..], b[1..], w);
      assert a == [a[0]] + a[1..] && b == [b[0]] + b[1..];
    }
  }

  /** More arguments than values: two arguments share a value. */
  lemma SameValue(f: nat -> nat, n: nat, m: nat) returns (x: nat, y: nat)
    requires m < n && forall i | 0 <= i < n :: f(i) < m
    ensures x < y < n && f(x) == f(y)
  {
    var s := seq(n, i requires 0 <= i < n => f(i));
    if Distinct(s) { Pigeonhole(s, m); }
    x, y :| 0 <= x < y < n && s[x] == s[y];
  }

  // ---- records ----

  /** A number of 128 bits, spread over the four operands behind the instruction. */
  function RecordOf(x: nat): Operands {
    Operands(0, 0, Low(x, 32), Low(Shr(x, 32), 32), Low(Shr(Shr(x, 32), 32), 32), Low(Shr(Shr(Shr(x, 32), 32), 32), 32))
  }

  lemma {:induction false} ShrBelow(x: nat, n: nat, m: nat)
    requires x < Pow2(n + m)
    ensures Shr(x, n) < Pow2(m)
    decreases n
  {
    if n > 0 { ShrBelow(x / 2, n - 1, m); }
  }

  lemma RecordInjective(x: nat, y: nat)
    requires x < Pow2(128) && y < Pow2(128) && RecordOf(x) == RecordOf(y)
    ensures x == y
  {
    var x1, y1 := Shr(x, 32), Shr(y, 32);
    var x2, y2 := Shr(x1, 32), Shr(y1, 32);
    TopPart(x, x1, x2);
    TopPart(y, y1, y2);
    SameHalves(x2, y2);
    SameHalves(x1, y1);
    SameHalves(x, y);
  }

  /** The last 32 of 128 bits need no cutting. */
  lemma TopPart(x: nat, x1: nat, x2: nat)
    requires x < Pow2(128) && x1 == Shr(x, 32) && x2 == Shr(x1, 32)
    ensures Low(Shr(x2, 32), 32) == Shr(x2, 32)
  {
    ShrBelow(x, 32, 96);
    ShrBelow(x1, 32, 64);
    ShrBelow(x2, 32, 32);
    LowOfSmall(Shr(x2, 32), 32);
  }

  lemma SameHalves(x: nat, y: nat)
    requires Low(x, 32) == Low(y, 32) && Shr(x, 32) == Shr(y, 32)
    ensures x == y
  {
    LowAndHigh(x, 32);
    LowAndHigh(y, 32);
  }

  lemma XorIsZero(x: nat, y: nat)
    requires Xor(x, y) == 0
    ensures x == y
  {
    XorAssoc(x, y, y);
    XorSelf(y);
    XorZero(x);
    XorZero(y);
  }

  lemma {:induction false} TotalGrows(k: nat, n: nat, v: nat, w: nat)
    requires k <= n && v <= w
    ensures Total(k, v) <= Total(n, w)
  {
    if n > 0 { TotalGrows(if k > 0 then k - 1 else 0, n - 1, v, w); }
  }

  lemma PowStrict(m: nat, n: nat)
    requires m < n
    ensures Pow2(m) < Pow2(n)
  {
    PowMonotonic(m, n - 1);
  }

  // ---- the collision ----

  /** Tables, and a capacity that fits a 32-bit `int` twice over. */
  ghost predicate RealTables(perms: seq<seq<nat>>, k: nat, widths: seq<nat>, capacity: nat) {
    ValidTables(perms, k, widths) && 1 <= k <= 4 && 2 <= capacity && IsPow2(capacity) && 2 * capacity <= Pow2(31)
  }

  /** The indexes of a record, as one number. */
  ghost function CodeOf(perms: seq<seq<nat>>, k: nat, widths: seq<nat>, capacity: nat, ops: Operands): nat
    requires RealTables(perms, k, widths, capacity)
  {
    Code(Hashes(HasherConfig(perms, k, widths, capacity), ops), Log2(2 * capacity))
  }

  lemma IndexBelow(perms: seq<seq<nat>>, k: nat, widths: seq<nat>, size: nat, i: nat, ops: Operands)
    requires ValidTables(perms, k, widths) && size >= 2 && i < k
    ensures TableIndex(perms, k, widths, size, i, ops) < Pow2(Log2(size))
  {
    AllBitsAreBits(widths, Fields(ops));
    FoldBelow(Permuted(perms[i], AllBits(widths, Fields(ops))), Log2(size));
  }

  lemma HashesBelow(perms: seq<seq<nat>>, k: nat, widths: seq<nat>, capacity: nat, ops: Operands)
    requires RealTables(perms, k, widths, capacity)
    ensures var hs := Hashes(HasherConfig(perms, k, widths, capacity), ops);
            forall i | 0 <= i < |hs| :: hs[i] < Pow2(Log2(2 * capacity))
  {
    forall i | 0 <= i < k
      ensures Hashes(HasherConfig(perms, k, widths, capacity), ops)[i] < Pow2(Log2(2 * capacity))
    {
      IndexBelow(perms, k, widths, 2 * capacity, i, ops);
    }
  }

  lemma {:induction false} LogAtMost(a: nat, e: nat)
    requires a <= Pow2(e)
    ensures Log2(a) <= e
  {
    if a > 1 { LogAtMost((a + 1) / 2, e - 1); }
  }

  lemma CodeFits(perms: seq<seq<nat>>, k: nat, widths: seq<nat>, capacity: nat, ops: Operands)
    requires RealTables(perms, k, widths, capacity)
    ensures CodeOf(perms, k, widths, capacity, ops) < Pow2(124)
  {
    var w := Log2(2 * capacity);
    HashesBelow(perms, k, widths, capacity, ops);
    CodeBelow(Hashes(HasherConfig(perms, k, widths, capacity), ops), w);
    LogAtMost(2 * capacity, 31);
    TotalGrows(k, 4, w, 31);
    assert Total(4, 31) == 124;
    PowMonotonic(Total(k, w), 124);
  }

  /** Two different records of operands have the same index in every table. */
  lemma TwoRecordsCollide(perms: seq<seq<nat>>, k: nat, widths: seq<nat>, capacity: nat) returns (x: nat, y: nat)
    requires RealTables(perms, k, widths, capacity)
    ensures RecordOf(x) != RecordOf(y)
    ensures var cfg := HasherConfig(perms, k, widths, capacity); Hashes(cfg, RecordOf(x)) == Hashes(cfg, RecordOf(y))
  {
    var f := (v: nat) => CodeOf(perms, k, widths, capacity, RecordOf(v));
    forall v | 0 <= v < Pow2(128) ensures f(v) < Pow2(124) { CodeFits(perms, k, widths, capacity, RecordOf(v)); }
    PowStrict(124, 128);
    x, y := SameValue(f, Pow2(128), Pow2(124));
    if RecordOf(x) == RecordOf(y) { RecordInjective(x, y); }
    HashesBelow(perms, k, widths, capacity, RecordOf(x));
    HashesBelow(perms, k, widths, capacity, RecordOf(y));
    CodeInjective(Hashes(HasherConfig(perms, k, widths, capacity), RecordOf(x)),
                  Hashes(HasherConfig(perms, k, widths, capacity), RecordOf(y)), Log2(2 * capacity));
  }

  /** Tags that fit the 32-bit operands of the wrapper. */
  predicate Tags32(o: Operands) {
    o.pc < Pow2(32) && o.ci < Pow2(32) && o.op1 < Pow2(32) && o.op2 < Pow2(32) && o.op3 < Pow2(32) && o.mem < Pow2(32)
  }

  /** `q` with the difference of two records in the operands behind the instruction. */
  function Shifted(q: Operands, a: Operands, b: Operands): Operands {
    XorOperands(q, XorOperands(a, b))
  }

  lemma ShiftedHash(perms: seq<seq<nat>>, k: nat, widths: seq<nat>, capacity: nat, q: Operands, a: Operands,
                    b: Operands)
    requires RealTables(perms, k, widths, capacity)
    requires var cfg := HasherConfig(perms, k, widths, capacity); Hashes(cfg, a) == Hashes(cfg, b)
    ensures var cfg := HasherConfig(perms, k, widths, capacity); Hashes(cfg, Shifted(q, a, b)) == Hashes(cfg, q)
  {
    var cfg := HasherConfig(perms, k, widths, capacity);
    forall i | 0 <= i < k ensures Hashes(cfg, Shifted(q, a, b))[i] == Hashes(cfg, q)[i] {
      assert Hashes(cfg, a)[i] == Hashes(cfg, b)[i];
      var ia := TableIndex(perms, k, widths, 2 * capacity, i, a);
      IndexXor(perms, k, widths, 2 * capacity, i, a, b);
      IndexXor(perms, k, widths, 2 * capacity, i, q, XorOperands(a, b));
      XorSelf(ia);
      XorZero(TableIndex(perms, k, widths, 2 * capacity, i, q));
    }
  }

  lemma ShiftedContains(pc: Tag, ci: Tag, a: Operands, b: Operands)
    requires a.pc == b.pc == 0 && a.ci == b.ci == 0 && a != b
    ensures var q := Operands(pc, ci, 0, 0, 0, 0);
            var k := Shifted(q, a, b);
            k != q && Extends(k, q) && k.pc == pc && k.ci == ci
  {
    XorSelf(0);
    XorZero(pc);
    XorZero(ci);
    XorZero(Xor(a.op1, b.op1));
    XorZero(Xor(a.op2, b.op2));
    XorZero(Xor(a.op3, b.op3));
    XorZero(Xor(a.mem, b.mem));
    if Shifted(Operands(pc, ci, 0, 0, 0, 0), a, b) == Operands(pc, ci, 0, 0, 0, 0) {
      XorIsZero(a.op1, b.op1);
      XorIsZero(a.op2, b.op2);
      XorIsZero(a.op3, b.op3);
      XorIsZero(a.mem, b.mem);
    }
  }

  lemma Shifted32(q: Operands, a: Operands, b: Operands)
    requires Tags32(q) && Tags32(a) && Tags32(b)
    ensures Tags32(Shifted(q, a, b))
  {
    var d := XorOperands(a, b);
    XorBound(a.pc, b.pc, 32);
    XorBound(a.ci, b.ci, 32);
    XorBound(a.op1, b.op1, 32);
    XorBound(a.op2, b.op2, 32);
    XorBound(a.op3, b.op3, 32);
    XorBound(a.mem, b.mem, 32);
    XorBound(q.pc, d.pc, 32);
    XorBound(q.ci, d.ci, 32);
    XorBound(q.op1, d.op1, 32);
    XorBound(q.op2, d.op2, 32);
    XorBound(q.op3, d.op3, 32);
    XorBound(q.mem, d.mem, 32);
  }

  /** For every choice of permutation tables and every capacity, an instruction without operands collides in
      every table with the same instruction with some operands: the rule of the second would answer for
      the first. */
  lemma ContainedRecordsCollide(perms: seq<seq<nat>>, k: nat, widths: seq<nat>, capacity: nat, pc: Tag, ci: Tag)
    returns (whole: Operands)
    requires RealTables(perms, k, widths, capacity) && pc < Pow2(32) && ci < Pow2(32)
    ensures var q := Operands(pc, ci, 0, 0, 0, 0);
            whole != q && Extends(whole, q) && Tags32(whole) && whole.pc == pc && whole.ci == ci
    ensures var cfg := HasherConfig(perms, k, widths, capacity);
            Hashes(cfg, whole) == Hashes(cfg, Operands(pc, ci, 0, 0, 0, 0))
  {
    var q := Operands(pc, ci, 0, 0, 0, 0);
    var x, y := TwoRecordsCollide(perms, k, widths, capacity);
    whole := Shifted(q, RecordOf(x), RecordOf(y));
    ShiftedHash(perms, k, widths, capacity, q, RecordOf(x), RecordOf(y));
    ShiftedContains(pc, ci, RecordOf(x), RecordOf(y));
    Shifted32(q, RecordOf(x), RecordOf(y));
  }

  /** So false hits occur for every choice of tables: after the rule of one record is installed, another
      record is answered with it. */
  lemma FalseHitExists(perms: seq<seq<nat>>, k: nat, widths: seq<nat>, capacity: nat, masks: seq<Mask>,
                       pc: Tag, ci: Tag, res: Results)
    returns (whole: Operands)
    requires RealTables(perms, k, widths, capacity) && pc < Pow2(32) && ci < Pow2(32) && |masks| == capacity
    ensures var cfg, q := HasherConfig(perms, k, widths, capacity), Operands(pc, ci, 0, 0, 0, 0);
            && ValidConfig(cfg) && whole != q && Tags32(whole)
            && Lookup(cfg, DmhcTheorems.Run(cfg, masks, [DmhcTheorems.OpInsert(whole, res, MaskOf(whole))]),
                      q, MaskOf(q))
               == Some(res)
  {
    HasherConfigIsValid(perms, k, widths, capacity);
    whole := ContainedRecordsCollide(perms, k, widths, capacity, pc, ci);
    FalseHitIff(HasherConfig(perms, k, widths, capacity), masks, whole, res, Operands(pc, ci, 0, 0, 0, 0));
  }
}
