/** Two permutation tables of 192 bits, each of which swaps some pairs of bits. Permuting and folding the bits of
    six 32-bit tags with them, for a capacity of 8, gives the indexes with which the failing and the aborting run
    happen. They are not the tables that the source ships. */
module DmhcSwapTables {
  import opened Bits
  import opened RiscvIsa
  import opened CycleWalk
  import opened FoldHash
  import opened ComputeHash
  import opened HashCollisions
  import opened DmhcSpec
  import opened DmhcTwoTables
  import opened DmhcFailingRun
  import opened DmhcAbortingRun

  const BITS := 192
  const WIDTHS: seq<nat> := [32, 32, 32, 32, 32, 32]

  // ---- the permutations ----

  /** Each permutation swaps some pairs of bits. */
  function FirstSwap(j: nat): nat {
    match j
    case 0 => 3
    case 3 => 0
    case 33 => 35
    case 35 => 33
    case 128 => 130
    case 130 => 128
    case 129 => 132
    case 132 => 129
    case 161 => 163
    case 163 => 161
    case _ => j
  }

  function SecondSwap(j: nat): nat {
    match j
    case 1 => 4
    case 4 => 1
    case 32 => 34
    case 34 => 32
    case 33 => 36
    case 36 => 33
    case 64 => 69
    case 69 => 64
    case 65 => 66
    case 66 => 65
    case 96 => 98
    case 98 => 96
    case 97 => 100
    case 100 => 97
    case 161 => 164
    case 164 => 161
    case _ => j
  }

  function Swap(i: nat, j: nat): nat {
    if i == 0 then FirstSwap(j) else SecondSwap(j)
  }

  lemma SwapTwice(i: nat, j: nat)
    requires j < BITS
    ensures Swap(i, j) < BITS && Swap(i, Swap(i, j)) == j
  {}

  function Table(i: nat): (p: seq<nat>)
    ensures |p| == BITS && forall j | 0 <= j < BITS :: p[j] == Swap(i, j)
  {
    seq(BITS, j requires 0 <= j < BITS => Swap(i, j))
  }

  lemma TableIsPermutation(i: nat)
    ensures IsPermutation(Table(i))
  {
    var p := Table(i);
    forall j | 0 <= j < BITS ensures p[j] < BITS { SwapTwice(i, j); }
    forall j, l | 0 <= j < l < BITS ensures p[j] != p[l] {
      SwapTwice(i, j);
      SwapTwice(i, l);
    }
  }

  function Tables(): (perms: seq<seq<nat>>)
    ensures |perms| == 2 && perms[0] == Table(0) && perms[1] == Table(1)
  {
    [Table(0), Table(1)]
  }

  // ---- the bits of a record ----

  lemma AllBitsOfThree(fields: seq<nat>)
    requires |fields| == 6
    ensures AllBits(WIDTHS[..3], fields[..3])
            == BitsOf(fields[0], 0, 32) + BitsOf(fields[1], 0, 32) + BitsOf(fields[2], 0, 32)
  {
    AllBitsAppend(WIDTHS, fields, 0);
    AllBitsAppend(WIDTHS, fields, 1);
    AllBitsAppend(WIDTHS, fields, 2);
  }

  lemma AllBitsOfSix(fields: seq<nat>)
    requires |fields| == 6
    ensures AllBits(WIDTHS, fields)
            == BitsOf(fields[0], 0, 32) + BitsOf(fields[1], 0, 32) + BitsOf(fields[2], 0, 32)
               + BitsOf(fields[3], 0, 32) + BitsOf(fields[4], 0, 32) + BitsOf(fields[5], 0, 32)
  {
    AllBitsOfThree(fields);
    AllBitsAppend(WIDTHS, fields, 3);
    AllBitsAppend(WIDTHS, fields, 4);
    AllBitsAppend(WIDTHS, fields, 5);
    assert WIDTHS[..6] == WIDTHS && fields[..6] == fields;
  }

  lemma BitAt(fields: seq<nat>, g: nat, l: nat)
    requires |fields| == 6 && g < 6 && l < 32
    ensures |AllBits(WIDTHS, fields)| == BITS && AllBits(WIDTHS, fields)[32 * g + l] == Bit(fields[g], l)
  {
    AllBitsOfSix(fields);
    match g
    case 0 =>
    case 1 =>
    case 2 =>
    case 3 =>
    case 4 =>
    case 5 =>
  }

  lemma {:induction false} ZeroBit(l: nat)
    ensures Bit(0, l) == 0
  {
    if l > 0 { ZeroBit(l - 1); }
  }

  /** The only one of the tag 2^b, for b = 0 and b = 1. */
  lemma UnitBit(b: nat, l: nat)
    requires b < 2
    ensures Bit(b + 1, l) == if l == b then 1 else 0
  {
    if l == 1 {
      assert Shr(b + 1, 1) == Shr((b + 1) / 2, 0);
    } else if l > 1 {
      assert Shr(b + 1, l) == Shr((b + 1) / 2, l - 1) == Shr(0, l - 2);
      ZeroBit(l - 2);
    }
  }

  /** The record with tag `v` in field `f` and zeros elsewhere. */
  function One(f: nat, v: nat): Operands {
    match f
    case 0 => Operands(v, 0, 0, 0, 0, 0)
    case 1 => Operands(0, v, 0, 0, 0, 0)
    case 2 => Operands(0, 0, v, 0, 0, 0)
    case 3 => Operands(0, 0, 0, v, 0, 0)
    case 4 => Operands(0, 0, 0, 0, v, 0)
    case _ => Operands(0, 0, 0, 0, 0, v)
  }

  lemma OneBits(f: nat, b: nat, j: nat)
    requires f < 6 && b < 2 && j < BITS
    ensures |AllBits(WIDTHS, Fields(One(f, b + 1)))| == BITS
    ensures AllBits(WIDTHS, Fields(One(f, b + 1)))[j] == if j == 32 * f + b then 1 else 0
  {
    var g, l := j / 32, j % 32;
    BitAt(Fields(One(f, b + 1)), g, l);
    if g == f { UnitBit(b, l); } else { ZeroBit(l); }
  }

  lemma TablesValid()
    ensures ValidTables(Tables(), 2, WIDTHS)
  {
    TableIsPermutation(0);
    TableIsPermutation(1);
    forall ops ensures |AllBits(WIDTHS, Fields(ops))| == BITS { BitAt(Fields(ops), 0, 0); }
  }

  // ---- the indexes ----

  ghost function IndexAt(i: nat, o: Operands): nat {
    TablesValid();
    TableIndex(Tables(), 2, WIDTHS, 16, i, o)
  }

  lemma WalkIsOneStep(p: seq<nat>, j: nat)
    requires IsPermutation(p) && j < |p|
    ensures Walk(p, |p|, j) == p[j]
  {
    assert WalkPath(p, |p|, [j]) == WalkPath(p, |p|, [j] + [p[j]]);
  }

  lemma PermutedBits(i: nat, bits: seq<nat>, j: nat)
    requires i < 2 && |bits| == BITS && j < BITS && IsPermutation(Table(i))
    ensures Swap(i, j) < BITS && Permuted(Table(i), bits)[j] == bits[Swap(i, j)]
  {
    SwapTwice(i, j);
    WalkIsOneStep(Table(i), j);
  }

  lemma SixteenSlots()
    ensures Log2(16) == 4
  {
    LogUnique(16, 4);
  }

  /** The index bit that a tag bit sets. */
  function Place(i: nat, f: nat, b: nat): (p: nat)
    ensures p < 4
  {
    if i == 0 then
      match (f, b)
      case (0, 0) => 3
      case (0, 1) => 1
      case (1, 1) => 3
      case (2, 1) => 1
      case (3, 1) => 1
      case (4, 0) => 2
      case (5, 1) => 3
      case _ => 0
    else
      match (f, b)
      case (1, 0) => 2
      case (2, 0) => 1
      case (2, 1) => 2
      case (3, 0) => 2
      case (4, 1) => 1
      case _ => 0
  }

  lemma PlaceIs(i: nat, f: nat, b: nat)
    requires i < 2 && f < 6 && b < 2
    ensures Swap(i, 32 * f + b) % 4 == Place(i, f, b)
  {}

  lemma UnitIndex(i: nat, f: nat, b: nat)
    requires i < 2 && f < 6 && b < 2
    ensures IndexAt(i, One(f, b + 1)) == Pow2(Place(i, f, b))
  {
    TablesValid();
    SixteenSlots();
    PlaceIs(i, f, b);
    var at, bits := 32 * f + b, AllBits(WIDTHS, Fields(One(f, b + 1)));
    OneBits(f, b, 0);
    SwapTwice(i, at);
    var permuted := Permuted(Table(i), bits);
    forall j | 0 <= j < BITS ensures permuted[j] == if j == Swap(i, at) then 1 else 0 {
      SwapTwice(i, j);
      PermutedBits(i, bits, j);
      OneBits(f, b, Swap(i, j));
    }
    FoldUnit(permuted, Swap(i, at), 4);
    WrapIsMod(Swap(i, at), 4);
  }

  // ---- four bits ----

  datatype Nibble = Nibble(b0: bool, b1: bool, b2: bool, b3: bool)

  const NONE := Nibble(false, false, false, false)

  /** One more digit at the low end. */
  function Push(b: bool, x: nat): nat {
    if b then 1 + 2 * x else 2 * x
  }

  function Num(n: Nibble): nat {
    Push(n.b0, Push(n.b1, Push(n.b2, Push(n.b3, 0))))
  }

  function XorNibbles(a: Nibble, b: Nibble): Nibble {
    Nibble(a.b0 != b.b0, a.b1 != b.b1, a.b2 != b.b2, a.b3 != b.b3)
  }

  lemma PushParts(b: bool, x: nat)
    ensures Push(b, x) % 2 == (if b then 1 else 0) && Push(b, x) / 2 == x
  {
    LowDigit(if b then 1 else 0, x);
  }

  lemma SumParity(p: nat, q: nat, a: bool, b: bool)
    requires p % 2 == (if a then 1 else 0) && q % 2 == (if b then 1 else 0)
    ensures (p + q) % 2 == if a != b then 1 else 0
  {}

  lemma XorPush(a: bool, x: nat, b: bool, y: nat, z: nat)
    requires z == Xor(x, y)
    ensures Push(a != b, z) == Xor(Push(a, x), Push(b, y))
  {
    var p, q := Push(a, x), Push(b, y);
    PushParts(a, x);
    PushParts(b, y);
    SumParity(p, q, a, b);
    XorHalves(p, q);
  }

  lemma XorHalves(p: nat, q: nat)
    ensures Xor(p, q) == (p + q) % 2 + 2 * Xor(p / 2, q / 2)
  {}

  lemma XorTwoPushes(a0: bool, a1: bool, x: nat, b0: bool, b1: bool, y: nat, z: nat)
    requires z == Xor(x, y)
    ensures Push(a0 != b0, Push(a1 != b1, z)) == Xor(Push(a0, Push(a1, x)), Push(b0, Push(b1, y)))
  {
    XorPush(a1, x, b1, y, z);
    XorPush(a0, Push(a1, x), b0, Push(b1, y), Push(a1 != b1, z));
  }

  lemma NumXor(a: Nibble, b: Nibble)
    ensures Num(XorNibbles(a, b)) == Xor(Num(a), Num(b))
  {
    XorTwoPushes(a.b2, a.b3, 0, b.b2, b.b3, 0, 0);
    XorTwoPushes(a.b0, a.b1, Push(a.b2, Push(a.b3, 0)), b.b0, b.b1, Push(b.b2, Push(b.b3, 0)),
                 Push(a.b2 != b.b2, Push(a.b3 != b.b3, 0)));
  }

  function Single(p: nat): Nibble {
    Nibble(p == 0, p == 1, p == 2, p == 3)
  }

  lemma SingleIsPow(p: nat)
    requires p < 4
    ensures Num(Single(p)) == Pow2(p)
  {}

  // ---- small records ----

  lemma IndexOfXor(i: nat, a: Operands, b: Operands)
    requires i < 2
    ensures IndexAt(i, XorOperands(a, b)) == Xor(IndexAt(i, a), IndexAt(i, b))
  {
    TablesValid();
    IndexXor(Tables(), 2, WIDTHS, 16, i, a, b);
  }

  /** What a tag below 4 contributes to the index. */
  function Part(i: nat, f: nat, v: nat): Nibble {
    XorNibbles(if v == 1 || v == 3 then Single(Place(i, f, 0)) else NONE,
               if v == 2 || v == 3 then Single(Place(i, f, 1)) else NONE)
  }

  lemma ZeroIndex(i: nat)
    requires i < 2
    ensures IndexAt(i, One(0, 0)) == 0
  {
    assert XorOperands(One(0, 0), One(0, 0)) == One(0, 0);
    IndexOfXor(i, One(0, 0), One(0, 0));
    XorSelf(IndexAt(i, One(0, 0)));
  }

  lemma BothBits(f: nat)
    ensures XorOperands(One(f, 1), One(f, 2)) == One(f, 3)
  {
    XorZero(0);
    assert Xor(1, 2) == 3;
  }

  lemma UnitIsPart(i: nat, f: nat, b: nat)
    requires i < 2 && f < 6 && b < 2
    ensures IndexAt(i, One(f, b + 1)) == Num(Part(i, f, b + 1))
  {
    UnitIndex(i, f, b);
    SingleIsPow(Place(i, f, b));
    assert Part(i, f, b + 1) == Single(Place(i, f, b));
  }

  lemma OneIndex(i: nat, f: nat, v: nat)
    requires i < 2 && f < 6 && v < 4
    ensures IndexAt(i, One(f, v)) == Num(Part(i, f, v))
  {
    if v == 0 {
      ZeroIndex(i);
      assert One(f, 0) == One(0, 0);
    } else if v < 3 {
      UnitIsPart(i, f, v - 1);
    } else {
      UnitIsPart(i, f, 0);
      UnitIsPart(i, f, 1);
      BothBits(f);
      IndexOfXor(i, One(f, 1), One(f, 2));
      NumXor(Part(i, f, 1), Part(i, f, 2));
      assert Part(i, f, 3) == XorNibbles(Part(i, f, 1), Part(i, f, 2));
    }
  }

  predicate Small(o: Operands) {
    o.pc < 4 && o.ci < 4 && o.op1 < 4 && o.op2 < 4 && o.op3 < 4 && o.mem < 4
  }

  function Parts(i: nat, o: Operands): Nibble {
    XorNibbles(XorNibbles(XorNibbles(Part(i, 0, o.pc), Part(i, 1, o.ci)),
                          XorNibbles(Part(i, 2, o.op1), Part(i, 3, o.op2))),
               XorNibbles(Part(i, 4, o.op3), Part(i, 5, o.mem)))
  }

  lemma PartsXor(i: nat, o: Operands)
    ensures Num(Parts(i, o))
            == Xor(Xor(Xor(Num(Part(i, 0, o.pc)), Num(Part(i, 1, o.ci))),
                       Xor(Num(Part(i, 2, o.op1)), Num(Part(i, 3, o.op2)))),
                   Xor(Num(Part(i, 4, o.op3)), Num(Part(i, 5, o.mem))))
  {
    var ab, cd := XorNibbles(Part(i, 0, o.pc), Part(i, 1, o.ci)), XorNibbles(Part(i, 2, o.op1), Part(i, 3, o.op2));
    var ef := XorNibbles(Part(i, 4, o.op3), Part(i, 5, o.mem));
    NumXor(Part(i, 0, o.pc), Part(i, 1, o.ci));
    NumXor(Part(i, 2, o.op1), Part(i, 3, o.op2));
    NumXor(Part(i, 4, o.op3), Part(i, 5, o.mem));
    NumXor(ab, cd);
    NumXor(XorNibbles(ab, cd), ef);
  }

  /** The index of a record of small tags. */
  lemma SmallIndex(i: nat, o: Operands)
    requires i < 2 && Small(o)
    ensures IndexAt(i, o) == Num(Parts(i, o))
  {
    OneIndex(i, 0, o.pc);
    OneIndex(i, 1, o.ci);
    OneIndex(i, 2, o.op1);
    OneIndex(i, 3, o.op2);
    OneIndex(i, 4, o.op3);
    OneIndex(i, 5, o.mem);
    FieldsXored(o);
    var ab := XorOperands(One(0, o.pc), One(1, o.ci));
    var cd := XorOperands(One(2, o.op1), One(3, o.op2));
    var ef := XorOperands(One(4, o.op3), One(5, o.mem));
    IndexOfXor(i, One(0, o.pc), One(1, o.ci));
    IndexOfXor(i, One(2, o.op1), One(3, o.op2));
    IndexOfXor(i, One(4, o.op3), One(5, o.mem));
    IndexOfXor(i, ab, cd);
    IndexOfXor(i, XorOperands(ab, cd), ef);
    PartsXor(i, o);
  }

  lemma FieldsXored(o: Operands)
    ensures var ab := XorOperands(One(0, o.pc), One(1, o.ci));
            var cd := XorOperands(One(2, o.op1), One(3, o.op2));
            var ef := XorOperands(One(4, o.op3), One(5, o.mem));
            XorOperands(XorOperands(ab, cd), ef) == o
  {
    XorZero(o.pc);
    XorZero(o.ci);
    XorZero(o.op1);
    XorZero(o.op2);
    XorZero(o.op3);
    XorZero(o.mem);
    XorZero(0);
  }

  // ---- the run ----

  ghost function SwapConfig(): Config {
    TablesValid();
    HasherConfig(Tables(), 2, WIDTHS, 8)
  }

  lemma SwapConfigValid()
    ensures TwoTables(SwapConfig())
  {
    TablesValid();
    assert 8 == Pow2(3);
    HasherConfigIsValid(Tables(), 2, WIDTHS, 8);
  }

  lemma RecordIndex(o: Operands, p: Nibble, q: Nibble)
    requires Small(o) && TwoTables(SwapConfig()) && Parts(0, o) == p && Parts(1, o) == q
    ensures FirstIndex(SwapConfig(), o) == Num(p) && SecondIndex(SwapConfig(), o) == Num(q)
  {
    SmallIndex(0, o);
    SmallIndex(1, o);
  }

  lemma IndexesOfR1()
    requires TwoTables(SwapConfig())
    ensures IndexesAre(SwapConfig(), R1, 10, 0)
  {
    assert Part(1, 0, 1) == Part(1, 5, 1) == Single(0) && Part(1, 1, 1) == Part(1, 2, 2) == Single(2);
    assert Part(0, 0, 1) == Single(3) && Part(0, 1, 1) == Part(0, 5, 1) == Single(0) && Part(0, 2, 2) == Single(1);
    assert Parts(0, R1) == Nibble(false, true, false, true) && Parts(1, R1) == NONE;
    RecordIndex(R1, Nibble(false, true, false, true), Nibble(false, false, false, false));
  }

  lemma IndexesOfR2()
    requires TwoTables(SwapConfig())
    ensures IndexesAre(SwapConfig(), R2, 11, 7)
  {
    RecordIndex(R2, Nibble(true, true, false, true), Nibble(true, true, true, false));
  }

  lemma IndexesOfR3()
    requires TwoTables(SwapConfig())
    ensures IndexesAre(SwapConfig(), R3, 11, 2)
  {
    RecordIndex(R3, Nibble(true, true, false, true), Nibble(false, true, false, false));
  }

  lemma IndexesOfR4()
    requires TwoTables(SwapConfig())
    ensures IndexesAre(SwapConfig(), R4, 0, 3)
  {
    RecordIndex(R4, Nibble(false, false, false, false), Nibble(true, true, false, false));
  }

  lemma IndexesOfR5()
    requires TwoTables(SwapConfig())
    ensures IndexesAre(SwapConfig(), R5, 13, 1)
  {
    RecordIndex(R5, Nibble(true, false, true, true), Nibble(true, false, false, false));
  }

  lemma IndexesOfR6()
    requires TwoTables(SwapConfig())
    ensures IndexesAre(SwapConfig(), R6, 6, 0)
  {
    assert Part(1, 0, 1) == Part(1, 1, 2) == Part(1, 3, 2) == Part(1, 4, 1) == Single(0);
    assert Parts(1, R6) == NONE;
    RecordIndex(R6, Nibble(false, true, true, false), Nibble(false, false, false, false));
  }

  lemma IndexesOfR7()
    requires TwoTables(SwapConfig())
    ensures IndexesAre(SwapConfig(), R7, 10, 3)
  {
    RecordIndex(R7, Nibble(false, true, false, true), Nibble(true, true, false, false));
  }

  lemma IndexesOfTruncated()
    requires TwoTables(SwapConfig())
    ensures IndexesAre(SwapConfig(), TRUNCATED, 9, 5)
  {
    RecordIndex(TRUNCATED, Nibble(true, false, false, true), Nibble(true, false, true, false));
  }

  lemma IndexesOfBlank()
    requires TwoTables(SwapConfig())
    ensures IndexesAre(SwapConfig(), ZERO_OPERANDS, 0, 0)
  {
    RecordIndex(ZERO_OPERANDS, Nibble(false, false, false, false), Nibble(false, false, false, false));
  }

  lemma IndexesOfA1()
    requires TwoTables(SwapConfig())
    ensures IndexesAre(SwapConfig(), A1, 9, 3)
  {
    RecordIndex(A1, Nibble(true, false, false, true), Nibble(true, true, false, false));
  }

  lemma IndexesOfA2()
    requires TwoTables(SwapConfig())
    ensures IndexesAre(SwapConfig(), A2, 3, 3)
  {
    RecordIndex(A2, Nibble(true, true, false, false), Nibble(true, true, false, false));
  }

  lemma IndexesOfA3()
    requires TwoTables(SwapConfig())
    ensures IndexesAre(SwapConfig(), A3, 3, 0)
  {
    RecordIndex(A3, Nibble(true, true, false, false), Nibble(false, false, false, false));
  }

  lemma IndexesOfA4()
    requires TwoTables(SwapConfig())
    ensures IndexesAre(SwapConfig(), A4, 3, 3)
  {
    RecordIndex(A4, Nibble(true, true, false, false), Nibble(true, true, false, false));
  }

  lemma FailingIndexes()
    requires TwoTables(SwapConfig())
    ensures RunIndexes(SwapConfig())
  {
    IndexesOfR1();
    IndexesOfR2();
    IndexesOfR3();
    IndexesOfR4();
    IndexesOfR5();
    IndexesOfR6();
    IndexesOfR7();
    IndexesOfTruncated();
    IndexesOfBlank();
  }

  lemma AbortingIndexes()
    requires TwoTables(SwapConfig())
    ensures AbortIndexes(SwapConfig())
  {
    IndexesOfA1();
    IndexesOfA2();
    IndexesOfA3();
    IndexesOfA4();
  }

  /** With these tables the self-check ends the run over incomparable records. */
  lemma SwapTablesRunFails(masks: seq<Mask>, res: Results)
    requires |masks| == 8
    ensures EndsWith(SwapConfig(), masks, FAILING_RUN, res, 1)
  {
    SwapConfigValid();
    FailingIndexes();
    IncomparableRunFails(SwapConfig(), masks, res);
  }

  /** And the assertion ends the run over records with the same operands. */
  lemma SwapTablesRunAborts(masks: seq<Mask>, res: Results)
    requires |masks| == 8
    ensures EndsWith(SwapConfig(), masks, ABORTING_RUN, res, ABORTED)
  {
    SwapConfigValid();
    AbortingIndexes();
    OneMaskRunAborts(SwapConfig(), masks, res);
  }
}
