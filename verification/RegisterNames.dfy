/** The register names of a tag file and their codes (tagging_tools/register_name_map.h). */
module RegisterNames {
  import opened Wrappers

  const INTEGERS_0 := ["RZero", "RA", "SP", "GP", "TP", "T0", "T1", "T2"]
  const INTEGERS_8 := ["S0", "S1", "A0", "A1", "A2", "A3", "A4", "A5"]
  const INTEGERS_16 := ["A6", "A7", "S2", "S3", "S4", "S5", "S6", "S7"]
  const INTEGERS_24 := ["S8", "S9", "S10", "S11", "T3", "T4", "T5", "T6"]
  const FLOATS_0 := ["FT0", "FT1", "FT2", "FT3", "FT4", "FT5", "FT6", "FT7"]
  const FLOATS_8 := ["FS0", "FS1", "FA0", "FA1", "FA2", "FA3", "FA4", "FA5"]
  const FLOATS_16 := ["FA6", "FA7", "FS2", "FS3", "FS4", "FS5", "FS6", "FS7"]
  const FLOATS_24 := ["FS8", "FS9", "FS10", "FS11", "FT8", "FT9", "FT10", "FT11"]

  /** The code of a register is its position. */
  const REGISTER_NAMES: seq<string> :=
    INTEGERS_0 + INTEGERS_8 + INTEGERS_16 + INTEGERS_24 + FLOATS_0 + FLOATS_8 + FLOATS_16 + FLOATS_24 + ["PC"]

  /** A `std::map` from names to codes, in iteration order. */
  type CodeTable = seq<(string, nat)>

  function RegisterTable(): (t: CodeTable)
    ensures |t| == |REGISTER_NAMES|
  {
    seq(|REGISTER_NAMES|, i requires 0 <= i < |REGISTER_NAMES| => (REGISTER_NAMES[i], i))
  }

  /** `table.find(name)` */
  function FindCode(table: CodeTable, name: string): Option<nat> {
    if |table| == 0 then None
    else if table[0].0 == name then Some(table[0].1)
    else FindCode(table[1..], name)
  }

  /** `find_if(table, code)`: the first name with a code. */
  function FindName(table: CodeTable, code: nat): Option<string> {
    if |table| == 0 then None
    else if table[0].1 == code then Some(table[0].0)
    else FindName(table[1..], code)
  }

  predicate DistinctNames(table: CodeTable) {
    forall i, j | 0 <= i < j < |table| :: table[i].0 != table[j].0
  }

  predicate DistinctCodes(table: CodeTable) {
    forall i, j | 0 <= i < j < |table| :: table[i].1 != table[j].1
  }

  lemma {:induction false} FindNameMember(table: CodeTable, code: nat) returns (i: nat)
    requires FindName(table, code).Some?
    ensures i < |table| && table[i] == (FindName(table, code).value, code)
  {
    if table[0].1 == code {
      i := 0;
    } else {
      i := FindNameMember(table[1..], code);
      i := i + 1;
    }
  }

  lemma {:induction false} FindCodeMember(table: CodeTable, name: string) returns (i: nat)
    requires FindCode(table, name).Some?
    ensures i < |table| && table[i] == (name, FindCode(table, name).value)
  {
    if table[0].0 == name {
      i := 0;
    } else {
      i := FindCodeMember(table[1..], name);
      i := i + 1;
    }
  }

  lemma {:induction false} FindMember(table: CodeTable, i: nat)
    requires i < |table|
    ensures FindName(table, table[i].1).Some?
    ensures DistinctNames(table) ==> FindCode(table, table[i].0) == Some(table[i].1)
  {
    if i > 0 {
      FindMember(table[1..], i - 1);
    }
  }

  /** Looking up the code of a name and then the name of the code keeps the code. */
  lemma CodeSurvives(table: CodeTable, name: string)
    requires DistinctNames(table) && FindCode(table, name).Some?
    ensures FindName(table, FindCode(table, name).value).Some?
    ensures FindCode(table, FindName(table, FindCode(table, name).value).value) == FindCode(table, name)
  {
    var i := FindCodeMember(table, name);
    FindMember(table, i);
    var j := FindNameMember(table, table[i].1);
    FindMember(table, j);
  }

  /** Where codes are not shared, the name itself comes back. */
  lemma NameSurvives(table: CodeTable, name: string)
    requires DistinctCodes(table) && FindCode(table, name).Some?
    ensures FindName(table, FindCode(table, name).value) == Some(name)
  {
    var i := FindCodeMember(table, name);
    FindMember(table, i);
    var j := FindNameMember(table, table[i].1);
  }

  /** Register codes are not shared. */
  lemma RegisterCodesDistinct()
    ensures DistinctCodes(RegisterTable())
  {}

  function Digit(c: char): int {
    c as int - '0' as int
  }

  /** The number at the end of a name, from position `i`. */
  function NumberAt(name: string, i: nat): int {
    if |name| == i + 1 then Digit(name[i])
    else if |name| == i + 2 then 10 * Digit(name[i]) + Digit(name[i + 1])
    else -1
  }

  /** The code of a register by the standard calling convention: the integer registers in order, from 32 on the
      floating-point registers, and 64 for the pc. */
  function StandardCode(name: string): int {
    if |name| < 2 then -1
    else if name[1] == 'Z' then 0
    else if name[1] == 'P' || (name[1] == 'A' && name[0] == 'R') || name[1] == 'C' then
      match name[0]
      case 'R' => 1
      case 'S' => 2
      case 'G' => 3
      case 'T' => 4
      case _ => 64
    else if name[0] == 'F' then
      var k := NumberAt(name, 2);
      match name[1]
      case 'A' => 42 + k
      case 'S' => if k < 2 then 40 + k else 48 + k
      case _ => if k < 8 then 32 + k else 52 + k
    else
      var k := NumberAt(name, 1);
      match name[0]
      case 'A' => 10 + k
      case 'S' => if k < 2 then 8 + k else 16 + k
      case _ => if k < 3 then 5 + k else 25 + k
  }

  lemma IntegersAreStandard()
    ensures forall k | 0 <= k < 8 :: StandardCode(INTEGERS_0[k]) == 0 + k
    ensures forall k | 0 <= k < 8 :: StandardCode(INTEGERS_8[k]) == 8 + k
    ensures forall k | 0 <= k < 8 :: StandardCode(INTEGERS_16[k]) == 16 + k
    ensures forall k | 0 <= k < 8 :: StandardCode(INTEGERS_24[k]) == 24 + k
  {}

  lemma FloatsAreStandard()
    ensures forall k | 0 <= k < 8 :: StandardCode(FLOATS_0[k]) == 32 + k
    ensures forall k | 0 <= k < 8 :: StandardCode(FLOATS_8[k]) == 40 + k
    ensures forall k | 0 <= k < 8 :: StandardCode(FLOATS_16[k]) == 48 + k
    ensures forall k | 0 <= k < 8 :: StandardCode(FLOATS_24[k]) == 56 + k
  {}

  /** Every name of the table stands for the register with its code. */
  lemma NamesAreStandard(i: nat)
    requires i < |REGISTER_NAMES|
    ensures StandardCode(REGISTER_NAMES[i]) == i
  {
    IntegersAreStandard();
    FloatsAreStandard();
    assert StandardCode("PC") == 64;
  }

  /** So no name stands for two registers, every code from 0 to 64 is found, and a name is found under its standard
      code or not at all. */
  lemma RegisterCodesAreStandard(name: string, code: nat)
    ensures DistinctNames(RegisterTable()) && |RegisterTable()| == 65
    ensures FindCode(RegisterTable(), name).Some? ==> FindCode(RegisterTable(), name).value == StandardCode(name)
    ensures code < 65 ==> FindName(RegisterTable(), code).Some?
                          && StandardCode(FindName(RegisterTable(), code).value) == code
  {
    forall i, j | 0 <= i < j < |REGISTER_NAMES| ensures REGISTER_NAMES[i] != REGISTER_NAMES[j] {
      NamesAreStandard(i);
      NamesAreStandard(j);
    }
    if FindCode(RegisterTable(), name).Some? {
      var i := FindCodeMember(RegisterTable(), name);
      NamesAreStandard(i);
    }
    if code < 65 {
      FindMember(RegisterTable(), code);
      var i := FindNameMember(RegisterTable(), code);
      NamesAreStandard(i);
    }
  }

  // ---- names with a prefix ----

  /** `name.substr(name.find_last_of(".") + 1)`, searching from position `i` backwards. */
  function AfterDot(name: string, i: nat): string
    requires i <= |name|
  {
    if i == 0 || name[i - 1] == '.' then name[i..] else AfterDot(name, i - 1)
  }

  function LastPart(name: string): string {
    AfterDot(name, |name|)
  }

  lemma {:induction false} AfterDotFinds(prefix: string, part: string, i: nat)
    requires '.' !in part && (prefix == "" || prefix[|prefix| - 1] == '.') && |prefix| <= i <= |prefix| + |part|
    ensures AfterDot(prefix + part, i) == part
    decreases i
  {
    var name := prefix + part;
    if i > |prefix| {
      assert name[i - 1] == part[i - 1 - |prefix|];
      AfterDotFinds(prefix, part, i - 1);
    }
  }

  /** Whatever dotted prefix a register has, its last part is its name. */
  lemma LastPartFinds(prefix: string, part: string)
    requires '.' !in part && (prefix == "" || prefix[|prefix| - 1] == '.')
    ensures LastPart(prefix + part) == part
  {
    AfterDotFinds(prefix, part, |prefix| + |part|);
  }
}
