/** Loading a firmware tag file gives back what was saved. */
module FirmwareTagTheorems {
  import opened Wrappers
  import opened Bits
  import opened MetadataMemoryMap
  import opened RegisterNames
  import opened TagRows
  import opened FirmwareTagFile
  import Uleb
  import MetadataIndexMap

  /** Everything `write_headers` and `save_tag_indexes` are given. */
  datatype Contents = Contents(
    is_64_bit: bool, code: seq<Range>, data: seq<DataRange>, values: seq<TagSet>,
    ranges: seq<Range>, memory: map<Range, nat>,
    names: seq<string>, registers: map<string, nat>,
    csr_names: seq<string>, csrs: map<string, nat>,
    register_default: nat, csr_default: nat, env_default: nat)

  /** The saver's call succeeds, and every number fits the type it is read back with. */
  predicate Savable(c: Contents, register_table: CodeTable, csr_table: CodeTable) {
    && Lists(c.ranges, c.memory) && Lists(c.names, c.registers) && Lists(c.csr_names, c.csrs)
    && Known(register_table, c.names) && Known(csr_table, c.csr_names)
    && RowsFit(CodeRows(c.code), PAIR_WIDTHS) && RowsFit(DataRows(c.data), TRIPLE_WIDTHS) && SetsFit(c.values)
    && RowsFit(MemoryRows(c.ranges, c.memory), MEMORY_WIDTHS)
    && RowsFit(NameRows(register_table, c.names, c.registers), INDEX_WIDTHS)
    && RowsFit(NameRows(csr_table, c.csr_names, c.csrs), INDEX_WIDTHS)
    && c.register_default < 0x8000_0000 && c.csr_default < 0x8000_0000 && c.env_default < 0x8000_0000
  }

  function Saved(c: Contents, register_table: CodeTable, csr_table: CodeTable): seq<Byte>
    requires Savable(c, register_table, csr_table)
  {
    HeaderBytes(c.is_64_bit, c.code, c.data)
    + IndexesBytes(c.values, NameRows(register_table, c.names, c.registers), NameRows(csr_table, c.csr_names, c.csrs),
                   MemoryRows(c.ranges, c.memory), c.register_default, c.csr_default, c.env_default)
  }

  // ---- the index maps ----

  predicate AllNamed(table: CodeTable, rows: seq<Row>) {
    forall i | 0 <= i < |rows| :: FindName(table, Column(rows[i], 0)).Some?
  }

  function NameOf(table: CodeTable, row: Row): string
    requires FindName(table, Column(row, 0)).Some?
  {
    FindName(table, Column(row, 0)).value
  }

  lemma {:induction false} NamedKeeps(m: map<string, nat>, table: CodeTable, rows: seq<Row>)
    requires AllNamed(table, rows)
    ensures Named(m, table, rows).Some?
    ensures forall k | k in m :: k in Named(m, table, rows).value && Named(m, table, rows).value[k] == m[k]
    decreases |rows|
  {
    if |rows| > 0 { NamedKeeps(InsertNew(m, NameOf(table, rows[0]), Column(rows[0], 1)), table, rows[1..]); }
  }

  /** The first row with a name decides its index. */
  lemma {:induction false} NamedFirst(m: map<string, nat>, table: CodeTable, rows: seq<Row>, i: nat)
    requires AllNamed(table, rows) && i < |rows| && NameOf(table, rows[i]) !in m
    requires forall j | 0 <= j < i :: NameOf(table, rows[j]) != NameOf(table, rows[i])
    ensures var index := Named(m, table, rows);
            index.Some? && NameOf(table, rows[i]) in index.value
            && index.value[NameOf(table, rows[i])] == Column(rows[i], 1)
    decreases |rows|
  {
    var m' := InsertNew(m, NameOf(table, rows[0]), Column(rows[0], 1));
    if i == 0 { NamedKeeps(m', table, rows[1..]); } else { NamedFirst(m', table, rows[1..], i - 1); }
  }

  lemma {:induction false} NamedOnly(m: map<string, nat>, table: CodeTable, rows: seq<Row>, k: string) returns (i: nat)
    requires AllNamed(table, rows) && Named(m, table, rows).Some? && k in Named(m, table, rows).value && k !in m
    ensures i < |rows| && NameOf(table, rows[i]) == k
    decreases |rows|
  {
    if k == NameOf(table, rows[0]) {
      i := 0;
    } else {
      i := NamedOnly(InsertNew(m, NameOf(table, rows[0]), Column(rows[0], 1)), table, rows[1..], k);
      i := i + 1;
    }
  }

  lemma {:induction false} PlacedPrefix(ranges: seq<Range>, memory: map<Range, nat>, i: nat)
    requires Lists(ranges, memory) && i <= |ranges|
    ensures var m := Placed(map[], MemoryRows(ranges, memory)[..i]);
            && (forall j | 0 <= j < i :: ranges[j] in m && m[ranges[j]] == memory[ranges[j]])
            && (forall r | r in m :: exists j :: 0 <= j < i && ranges[j] == r)
  {
    if i > 0 {
      PlacedPrefix(ranges, memory, i - 1);
      var rows := MemoryRows(ranges, memory);
      assert rows[..i] == rows[..i - 1] + [rows[i - 1]];
      PlacedSnoc(map[], rows[..i - 1], rows[i - 1]);
      assert RangeOf(rows[i - 1]) == ranges[i - 1];
    }
  }

  /** The memory index map comes back whole. */
  lemma PlacedIsMemory(ranges: seq<Range>, memory: map<Range, nat>)
    requires Lists(ranges, memory)
    ensures Placed(map[], MemoryRows(ranges, memory)) == memory
  {
    var rows := MemoryRows(ranges, memory);
    PlacedPrefix(ranges, memory, |ranges|);
    assert rows[..|ranges|] == rows;
    var m := Placed(map[], rows);
    forall r | r in memory ensures r in m && m[r] == memory[r] {
      var j :| 0 <= j < |ranges| && ranges[j] == r;
    }
    forall r | r in m ensures r in memory {}
  }

  /** What a loaded index map of registers or CSRs has to do with the saved one: a name is loaded as
      the table's first name for its code, and the first of several names with one code wins. */
  predicate SameIndexes(table: CodeTable, names: seq<string>, index: map<string, nat>, loaded: map<string, nat>) {
    && Known(table, names)
    && (forall i | 0 <= i < |names| :: FindName(table, CodeOf(table, names[i])).Some? && names[i] in index)
    && (forall i | 0 <= i < |names| :: Loaded(table, names, index, loaded, i))
    && (forall k | k in loaded :: exists i :: 0 <= i < |names| && FindName(table, CodeOf(table, names[i])) == Some(k))
  }

  function CodeOf(table: CodeTable, name: string): nat {
    var code := FindCode(table, LastPart(name));
    if code.Some? then code.value else 0
  }

  predicate Loaded(table: CodeTable, names: seq<string>, index: map<string, nat>, loaded: map<string, nat>, i: nat)
    requires i < |names| && names[i] in index
  {
    (forall j | 0 <= j < i :: CodeOf(table, names[j]) != CodeOf(table, names[i])) ==>
      var name := FindName(table, CodeOf(table, names[i]));
      name.Some? && name.value in loaded && loaded[name.value] == index[names[i]]
  }

  /** The keys of a `std::map` are distinct; the register table's codes are too. */
  predicate Unambiguous(table: CodeTable) {
    DistinctNames(table) || DistinctCodes(table)
  }

  lemma RowNames(table: CodeTable, names: seq<string>, index: map<string, nat>)
    requires Unambiguous(table) && Known(table, names) && forall i | 0 <= i < |names| :: names[i] in index
    ensures var rows := NameRows(table, names, index);
            && AllNamed(table, rows)
            && (forall i | 0 <= i < |rows| ::
                  Column(rows[i], 0) == CodeOf(table, names[i]) && Column(rows[i], 1) == index[names[i]])
            && (forall i, j | 0 <= i < |rows| && 0 <= j < |rows| ::
                  NameOf(table, rows[i]) == NameOf(table, rows[j])
                  ==> CodeOf(table, names[i]) == CodeOf(table, names[j]))
  {
    var rows := NameRows(table, names, index);
    forall i | 0 <= i < |rows| ensures FindName(table, Column(rows[i], 0)).Some?
                               ensures FindCode(table, NameOf(table, rows[i])) == FindCode(table, LastPart(names[i]))
    {
      if DistinctNames(table) {
        CodeSurvives(table, LastPart(names[i]));
      } else {
        NameSurvives(table, LastPart(names[i]));
      }
    }
  }

  lemma NamedIsSame(table: CodeTable, names: seq<string>, index: map<string, nat>)
    requires Unambiguous(table) && Known(table, names) && Lists(names, index)
    ensures var loaded := Named(map[], table, NameRows(table, names, index));
            loaded.Some? && SameIndexes(table, names, index, loaded.value)
  {
    var rows := NameRows(table, names, index);
    RowNames(table, names, index);
    NamedKeeps(map[], table, rows);
    var loaded := Named(map[], table, rows).value;
    forall i | 0 <= i < |names| ensures Loaded(table, names, index, loaded, i) {
      if forall j | 0 <= j < i :: CodeOf(table, names[j]) != CodeOf(table, names[i]) {
        forall j | 0 <= j < i ensures NameOf(table, rows[j]) != NameOf(table, rows[i]) {
          assert CodeOf(table, names[j]) != CodeOf(table, names[i]);
        }
        NamedFirst(map[], table, rows, i);
      }
    }
    forall k | k in loaded
      ensures exists i :: 0 <= i < |names| && FindName(table, CodeOf(table, names[i])) == Some(k)
    {
      var i := NamedOnly(map[], table, rows, k);
      assert FindName(table, CodeOf(table, names[i])) == Some(k);
    }
  }

  // ---- the sections ----

  /** Row `i` holds the range and the granularity, in this order. */
  predicate DataColumns(rows: seq<Row>, data: seq<DataRange>) {
    |rows| == |data| && forall i | 0 <= i < |data| ::
      |rows[i]| == 3 && rows[i][0] == data[i].range.start && rows[i][1] == data[i].range.end
      && rows[i][2] == data[i].granularity
  }

  predicate CodeColumns(rows: seq<Row>, code: seq<Range>) {
    |rows| == |code| && forall i | 0 <= i < |code| ::
      |rows[i]| == 2 && rows[i][0] == code[i].start && rows[i][1] == code[i].end
  }

  /** The number that tells the word size. */
  predicate IsFlag(flag: nat, is_64_bit: bool) {
    (flag == 1 && is_64_bit) || (flag == 0 && !is_64_bit)
  }

  lemma HeaderParts(is_64_bit: bool, code: seq<Range>, data: seq<DataRange>, rest: seq<Byte>, flag: nat)
    requires IsFlag(flag, is_64_bit)
    ensures HeaderBytes(is_64_bit, code, data) + rest
            == Uleb.Encode(flag) + (TableBytes(CodeRows(code)) + (TableBytes(DataRows(data)) + rest))
    ensures Uleb.Read(HeaderBytes(is_64_bit, code, data) + rest, 8)
            == Some((flag, TableBytes(CodeRows(code)) + (TableBytes(DataRows(data)) + rest)))
  {
    var all := TableBytes(CodeRows(code)) + (TableBytes(DataRows(data)) + rest);
    assert HeaderBytes(is_64_bit, code, data) + rest == Uleb.Encode(flag) + all;
    assert Pow2(8) == 256;
    Uleb.ReadEncode(flag, 8, all);
  }

  /** What a reader of the format finds in the headers, the parts included that the loader drops: first a number
      that is 1 for 64 bits and 0 for 32, then the code ranges, then the data ranges with their granularities. */
  lemma HeadersRead(is_64_bit: bool, code: seq<Range>, data: seq<DataRange>, rest: seq<Byte>)
    requires RowsFit(CodeRows(code), PAIR_WIDTHS) && RowsFit(DataRows(data), TRIPLE_WIDTHS)
    ensures var flag := Uleb.Read(HeaderBytes(is_64_bit, code, data) + rest, 8);
            && flag.Some? && IsFlag(flag.value.0, is_64_bit)
            && var codes := ParseTable(flag.value.1, PAIR_WIDTHS);
               && codes.Some? && CodeColumns(codes.value.0, code)
               && var datas := ParseTable(codes.value.1, TRIPLE_WIDTHS);
                  && datas.Some? && DataColumns(datas.value.0, data) && datas.value.1 == rest
  {
    var d := TableBytes(DataRows(data)) + rest;
    HeaderParts(is_64_bit, code, data, rest, if is_64_bit then 1 else 0);
    ParseTableInverts(CodeRows(code), PAIR_WIDTHS, d);
    ParseTableInverts(DataRows(data), TRIPLE_WIDTHS, rest);
  }

  lemma HeadersInvert(is_64_bit: bool, code: seq<Range>, data: seq<DataRange>, rest: seq<Byte>)
    requires RowsFit(CodeRows(code), PAIR_WIDTHS) && RowsFit(DataRows(data), TRIPLE_WIDTHS)
    ensures ParseHeaders(HeaderBytes(is_64_bit, code, data) + rest)
            == Some(((code, seq(|data|, i requires 0 <= i < |data| => data[i].range)), rest))
  {
    var d := TableBytes(DataRows(data)) + rest;
    HeaderParts(is_64_bit, code, data, rest, if is_64_bit then 1 else 0);
    ParseTableInverts(CodeRows(code), PAIR_WIDTHS, d);
    ParseTableInverts(DataRows(data), TRIPLE_WIDTHS, rest);
    assert RangesOf(CodeRows(code)) == code;
    assert RangesOf(DataRows(data)) == seq(|data|, i requires 0 <= i < |data| => data[i].range);
  }

  lemma NamesInvert(table: CodeTable, rows: seq<Row>, default_: nat, rest: seq<Byte>)
    requires AllNamed(table, rows) && RowsFit(rows, INDEX_WIDTHS) && default_ < 0x8000_0000
    ensures Named(map[], table, rows).Some?
    ensures ParseNames(IndexTableBytes(default_, rows) + rest, table)
            == Some(((default_, Named(map[], table, rows).value), rest))
  {
    NamedKeeps(map[], table, rows);
    ParseIndexTableInverts(default_, rows, rest);
  }

  /** Row `i` holds the range of run `i` and its index. */
  predicate MemoryColumns(rows: seq<Row>, ranges: seq<Range>, index: map<Range, nat>) {
    |rows| == |ranges| && forall i | 0 <= i < |ranges| ::
      |rows[i]| == 3 && rows[i][0] == ranges[i].start && rows[i][1] == ranges[i].end
      && ranges[i] in index && rows[i][2] == index[ranges[i]]
  }

  /** Row `i` holds the code of name `i`, told by its last part, and its index. */
  predicate NameColumns(rows: seq<Row>, table: CodeTable, names: seq<string>, index: map<string, nat>) {
    |rows| == |names| && forall i | 0 <= i < |names| ::
      |rows[i]| == 2 && FindCode(table, LastPart(names[i])) == Some(rows[i][0])
      && names[i] in index && rows[i][1] == index[names[i]]
  }

  lemma TailParts(env_default: nat, memory: seq<Row>)
    requires RowsFit(memory, MEMORY_WIDTHS) && env_default < 0x8000_0000
    ensures var env := Uleb.Read(TailBytes(env_default, memory), 32);
            env.Some? && env.value.0 == env_default && ParseTable(env.value.1, MEMORY_WIDTHS) == Some((memory, []))
  {
    Below32(env_default);
    Uleb.ReadEncode(env_default, 32, TableBytes(memory));
    ParseTableInverts(memory, MEMORY_WIDTHS, []);
    assert TableBytes(memory) + [] == TableBytes(memory);
  }

  /** What a reader of the format finds after the headers: the tag sets, the registers with their default, the CSRs
      with theirs, the default of the environment, and the memory ranges. */
  lemma IndexesRead(values: seq<TagSet>, registers: seq<Row>, csrs: seq<Row>, memory: seq<Row>,
                    register_default: nat, csr_default: nat, env_default: nat)
    requires SetsFit(values) && RowsFit(registers, INDEX_WIDTHS) && RowsFit(csrs, INDEX_WIDTHS)
    requires RowsFit(memory, MEMORY_WIDTHS)
    requires register_default < 0x8000_0000 && csr_default < 0x8000_0000 && env_default < 0x8000_0000
    ensures var file := IndexesBytes(values, registers, csrs, memory, register_default, csr_default, env_default);
            var sets := ParseSetTable(file);
            && sets.Some? && sets.value.0 == values
            && var first := ParseIndexTable(sets.value.1);
               && first.Some? && first.value.0 == (register_default, registers)
               && var second := ParseIndexTable(first.value.1);
                  && second.Some? && second.value.0 == (csr_default, csrs)
                  && var env := Uleb.Read(second.value.1, 32);
                     && env.Some? && env.value.0 == env_default
                     && ParseTable(env.value.1, MEMORY_WIDTHS) == Some((memory, []))
  {
    var b4 := TailBytes(env_default, memory);
    var b3 := IndexTableBytes(csr_default, csrs) + b4;
    ParseSetTableInverts(values, IndexTableBytes(register_default, registers) + b3);
    ParseIndexTableInverts(register_default, registers, b3);
    ParseIndexTableInverts(csr_default, csrs, b4);
    TailParts(env_default, memory);
  }

  /** Names are written by the code of their last part, in order, and memory ranges by their bounds, with their
      indexes. */
  lemma RowColumns(c: Contents, register_table: CodeTable, csr_table: CodeTable)
    requires Savable(c, register_table, csr_table)
    ensures NameColumns(NameRows(register_table, c.names, c.registers), register_table, c.names, c.registers)
    ensures NameColumns(NameRows(csr_table, c.csr_names, c.csrs), csr_table, c.csr_names, c.csrs)
    ensures MemoryColumns(MemoryRows(c.ranges, c.memory), c.ranges, c.memory)
  {}

  lemma TailInverts(env_default: nat, ranges: seq<Range>, memory: map<Range, nat>)
    requires Lists(ranges, memory) && RowsFit(MemoryRows(ranges, memory), MEMORY_WIDTHS) && env_default < 0x8000_0000
    ensures ParseTail(TailBytes(env_default, MemoryRows(ranges, memory))) == Some(((env_default, memory), []))
  {
    TailParts(env_default, MemoryRows(ranges, memory));
    PlacedIsMemory(ranges, memory);
  }

  /** What the loader returns and what was saved; only the granularities and the word size are lost. */
  ghost predicate Recovered(c: Contents, register_table: CodeTable, csr_table: CodeTable, t: Tags) {
    && t.code == c.code && t.data == seq(|c.data|, i requires 0 <= i < |c.data| => c.data[i].range)
    && t.values == c.values && t.memory == c.memory
    && SameIndexes(register_table, c.names, c.registers, t.registers)
    && SameIndexes(csr_table, c.csr_names, c.csrs, t.csrs)
    && t.register_default == c.register_default && t.csr_default == c.csr_default && t.env_default == c.env_default
  }

  /** The loader's result, section by section. */
  lemma Assemble(bytes: seq<Byte>, b1: seq<Byte>, b2: seq<Byte>, b3: seq<Byte>, b4: seq<Byte>,
                 register_table: CodeTable, csr_table: CodeTable, t: Tags)
    requires ParseHeaders(bytes) == Some(((t.code, t.data), b1))
    requires ParseSetTable(b1) == Some((t.values, b2))
    requires ParseNames(b2, register_table) == Some(((t.register_default, t.registers), b3))
    requires ParseNames(b3, csr_table) == Some(((t.csr_default, t.csrs), b4))
    requires ParseTail(b4) == Some(((t.env_default, t.memory), []))
    ensures ParseTags(bytes, register_table, csr_table) == Some((t, []))
  {}

  lemma SectionsParsed(is_64_bit: bool, data: seq<DataRange>, registers: seq<Row>, csrs: seq<Row>,
                       ranges: seq<Range>, register_table: CodeTable, csr_table: CodeTable, t: Tags)
    requires AllNamed(register_table, registers) && AllNamed(csr_table, csrs)
    requires RowsFit(registers, INDEX_WIDTHS) && RowsFit(csrs, INDEX_WIDTHS) && SetsFit(t.values)
    requires RowsFit(CodeRows(t.code), PAIR_WIDTHS) && RowsFit(DataRows(data), TRIPLE_WIDTHS)
    requires Lists(ranges, t.memory) && RowsFit(MemoryRows(ranges, t.memory), MEMORY_WIDTHS)
    requires 0 <= t.register_default < 0x8000_0000 && 0 <= t.csr_default < 0x8000_0000
             && 0 <= t.env_default < 0x8000_0000
    requires t.data == seq(|data|, i requires 0 <= i < |data| => data[i].range)
    requires Named(map[], register_table, registers) == Some(t.registers)
    requires Named(map[], csr_table, csrs) == Some(t.csrs)
    ensures ParseTags(HeaderBytes(is_64_bit, t.code, data)
                      + IndexesBytes(t.values, registers, csrs, MemoryRows(ranges, t.memory), t.register_default,
                                     t.csr_default, t.env_default),
                      register_table, csr_table) == Some((t, []))
  {
    var b4 := TailBytes(t.env_default, MemoryRows(ranges, t.memory));
    var b3 := IndexTableBytes(t.csr_default, csrs) + b4;
    var b2 := IndexTableBytes(t.register_default, registers) + b3;
    var b1 := SetTableBytes(t.values) + b2;
    HeadersInvert(is_64_bit, t.code, data, b1);
    ParseSetTableInverts(t.values, b2);
    NamesInvert(register_table, registers, t.register_default, b3);
    NamesInvert(csr_table, csrs, t.csr_default, b4);
    TailInverts(t.env_default, ranges, t.memory);
    Assemble(HeaderBytes(is_64_bit, t.code, data) + b1, b1, b2, b3, b4, register_table, csr_table, t);
  }

  /** The loader recovers what the saver was given and stops at the end of the file. */
  lemma LoadOfSave(c: Contents, register_table: CodeTable, csr_table: CodeTable)
    requires Unambiguous(register_table) && Unambiguous(csr_table) && Savable(c, register_table, csr_table)
    ensures var r := ParseTags(Saved(c, register_table, csr_table), register_table, csr_table);
            r.Some? && r.value.1 == [] && Recovered(c, register_table, csr_table, r.value.0)
  {
    var registers, csrs := NameRows(register_table, c.names, c.registers), NameRows(csr_table, c.csr_names, c.csrs);
    NamedIsSame(register_table, c.names, c.registers);
    NamedIsSame(csr_table, c.csr_names, c.csrs);
    RowNames(register_table, c.names, c.registers);
    RowNames(csr_table, c.csr_names, c.csrs);
    var t := Tags(c.code, seq(|c.data|, i requires 0 <= i < |c.data| => c.data[i].range), c.values, c.memory,
                  Named(map[], register_table, registers).value, Named(map[], csr_table, csrs).value,
                  c.register_default, c.csr_default, c.env_default);
    SectionsParsed(c.is_64_bit, c.data, registers, csrs, c.ranges, register_table, csr_table, t);
  }

  /** A register is loaded under its own name, without the prefix, with the index it was saved with,
      and nothing else is loaded. The register table has distinct codes (`RegisterCodesDistinct`). */
  lemma RegistersRecovered(c: Contents, register_table: CodeTable, csr_table: CodeTable)
    requires DistinctCodes(register_table) && Unambiguous(csr_table) && Savable(c, register_table, csr_table)
    requires forall i, j | 0 <= i < j < |c.names| :: LastPart(c.names[i]) != LastPart(c.names[j])
    ensures var r := ParseTags(Saved(c, register_table, csr_table), register_table, csr_table);
            && r.Some?
            && (forall i | 0 <= i < |c.names| ::
                  LastPart(c.names[i]) in r.value.0.registers
                  && r.value.0.registers[LastPart(c.names[i])] == c.registers[c.names[i]])
            && (forall k | k in r.value.0.registers :: exists i :: 0 <= i < |c.names| && LastPart(c.names[i]) == k)
  {
    LoadOfSave(c, register_table, csr_table);
    ByOwnName(register_table, c.names, c.registers,
              ParseTags(Saved(c, register_table, csr_table), register_table, csr_table).value.0.registers);
  }

  lemma ByOwnName(table: CodeTable, names: seq<string>, index: map<string, nat>, loaded: map<string, nat>)
    requires DistinctCodes(table) && SameIndexes(table, names, index, loaded)
    requires forall i, j | 0 <= i < j < |names| :: LastPart(names[i]) != LastPart(names[j])
    ensures forall i | 0 <= i < |names| :: LastPart(names[i]) in loaded && loaded[LastPart(names[i])] == index[names[i]]
    ensures forall k | k in loaded :: exists i :: 0 <= i < |names| && LastPart(names[i]) == k
  {
    forall i | 0 <= i < |names| ensures FindName(table, CodeOf(table, names[i])) == Some(LastPart(names[i])) {
      NameSurvives(table, LastPart(names[i]));
    }
    forall i | 0 <= i < |names| ensures LastPart(names[i]) in loaded && loaded[LastPart(names[i])] == index[names[i]] {
      assert Loaded(table, names, index, loaded, i);
    }
    forall k | k in loaded ensures exists i :: 0 <= i < |names| && LastPart(names[i]) == k {
      var i :| 0 <= i < |names| && FindName(table, CodeOf(table, names[i])) == Some(k);
    }
  }

  /** Every memory range and every register, under its last name part, finds its tag set in the loaded list. */
  ghost predicate AllResolve(t: Tags, memory: seq<MetadataIndexMap.Entry<Range>>,
                             registers: seq<MetadataIndexMap.Entry<string>>) {
    && MetadataIndexMap.Resolves(t.values, t.memory, memory)
    && forall i | 0 <= i < |registers| ::
         && LastPart(registers[i].key) in t.registers
         && t.registers[LastPart(registers[i].key)] < |t.values|
         && t.values[t.registers[LastPart(registers[i].key)]] == registers[i].tags
  }

  /** Indexes that resolved before the file was written still resolve after it is loaded. */
  lemma LoadedIndexesResolve(c: Contents, register_table: CodeTable, csr_table: CodeTable,
                             memory: seq<MetadataIndexMap.Entry<Range>>,
                             registers: seq<MetadataIndexMap.Entry<string>>, t: Tags)
    requires DistinctCodes(register_table) && Unambiguous(csr_table) && Savable(c, register_table, csr_table)
    requires forall i, j | 0 <= i < j < |c.names| :: LastPart(c.names[i]) != LastPart(c.names[j])
    requires MetadataIndexMap.Resolves(c.values, c.memory, memory)
             && MetadataIndexMap.Resolves(c.values, c.registers, registers)
    requires ParseTags(Saved(c, register_table, csr_table), register_table, csr_table) == Some((t, []))
    ensures AllResolve(t, memory, registers)
  {
    LoadOfSave(c, register_table, csr_table);
    RegistersRecovered(c, register_table, csr_table);
    RegistersResolve(c, t, memory, registers);
  }

  lemma RegistersResolve(c: Contents, t: Tags, memory: seq<MetadataIndexMap.Entry<Range>>,
                         registers: seq<MetadataIndexMap.Entry<string>>)
    requires Lists(c.names, c.registers) && t.values == c.values && t.memory == c.memory
    requires MetadataIndexMap.Resolves(c.values, c.memory, memory)
             && MetadataIndexMap.Resolves(c.values, c.registers, registers)
    requires forall i | 0 <= i < |c.names| ::
               LastPart(c.names[i]) in t.registers && t.registers[LastPart(c.names[i])] == c.registers[c.names[i]]
    ensures AllResolve(t, memory, registers)
  {
    forall i | 0 <= i < |registers|
      ensures LastPart(registers[i].key) in t.registers && t.registers[LastPart(registers[i].key)] < |t.values|
      ensures t.values[t.registers[LastPart(registers[i].key)]] == registers[i].tags
    {
      var j :| 0 <= j < |c.names| && c.names[j] == registers[i].key;
    }
  }
}
