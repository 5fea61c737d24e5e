/** The firmware tag file: address ranges, tag sets and the indexes of registers, CSRs and memory
    into them (tagging_tools/tag_file.cc: `write_headers`, `save_tag_indexes`, `load_firmware_tag_file`). */
module FirmwareTagFile {
  import opened Wrappers
  import opened SetOrder
  import opened MetadataMemoryMap
  import opened RegisterNames
  import opened TagRows
  import TagInfo
  import Uleb

  // ---- what is written, as rows ----

  /** `std::pair<range_t, uint8_t>` */
  datatype DataRange = DataRange(range: Range, granularity: nat)

  function CodeRow(r: Range): Row { [r.start, r.end] }
  function DataRow(d: DataRange): Row { [d.range.start, d.range.end, d.granularity] }

  function CodeRows(rs: seq<Range>): (rows: seq<Row>)
    ensures |rows| == |rs| && forall i | 0 <= i < |rs| :: rows[i] == CodeRow(rs[i])
  {
    seq(|rs|, i requires 0 <= i < |rs| => CodeRow(rs[i]))
  }

  function DataRows(ds: seq<DataRange>): (rows: seq<Row>)
    ensures |rows| == |ds| && forall i | 0 <= i < |ds| :: rows[i] == DataRow(ds[i])
  {
    seq(|ds|, i requires 0 <= i < |ds| => DataRow(ds[i]))
  }

  /** `names` lists the keys of `index` in iteration order. */
  predicate Lists<K(==)>(keys: seq<K>, index: map<K, nat>) {
    && (forall i, j | 0 <= i < j < |keys| :: keys[i] != keys[j])
    && (forall i | 0 <= i < |keys| :: keys[i] in index)
    && (forall k | k in index :: k in keys)
  }

  predicate Known(table: CodeTable, names: seq<string>) {
    forall i | 0 <= i < |names| :: FindCode(table, LastPart(names[i])).Some?
  }

  function NameRow(table: CodeTable, name: string, index: map<string, nat>): Row
    requires FindCode(table, LastPart(name)).Some? && name in index
  {
    [FindCode(table, LastPart(name)).value, index[name]]
  }

  function NameRows(table: CodeTable, names: seq<string>, index: map<string, nat>): (rows: seq<Row>)
    requires Known(table, names) && forall i | 0 <= i < |names| :: names[i] in index
    ensures |rows| == |names| && forall i | 0 <= i < |rows| :: rows[i] == NameRow(table, names[i], index)
  {
    seq(|names|, i requires 0 <= i < |names| => NameRow(table, names[i], index))
  }

  function MemoryRow(r: Range, index: map<Range, nat>): Row
    requires r in index
  {
    [r.start, r.end, index[r]]
  }

  function MemoryRows(ranges: seq<Range>, index: map<Range, nat>): (rows: seq<Row>)
    requires forall i | 0 <= i < |ranges| :: ranges[i] in index
    ensures |rows| == |ranges| && forall i | 0 <= i < |rows| :: rows[i] == MemoryRow(ranges[i], index)
  {
    seq(|ranges|, i requires 0 <= i < |ranges| => MemoryRow(ranges[i], index))
  }

  // ---- writing ----

  lemma RowsSnoc(rows: seq<Row>, i: nat)
    requires i < |rows|
    ensures RowsBytes(rows[..i + 1]) == RowsBytes(rows[..i]) + Uleb.EncodeAll(rows[i])
  {
    RowsValuesSnoc(rows[..i], rows[i]);
    assert rows[..i + 1] == rows[..i] + [rows[i]];
    Uleb.EncodeAllConcat(RowsValues(rows[..i]), rows[i]);
  }

  lemma {:induction false} RowsValuesSnoc(rows: seq<Row>, row: Row)
    ensures RowsValues(rows + [row]) == RowsValues(rows) + row
  {
    var s := rows + [row];
    if |rows| == 0 {
      assert s[1..] == [] && RowsValues(s[1..]) == [];
    } else {
      assert s[1..] == rows[1..] + [row];
      RowsValuesSnoc(rows[1..], row);
    }
  }

  lemma SetsSnoc(sets: seq<TagSet>, i: nat)
    requires i < |sets|
    ensures SetsBytes(sets[..i + 1]) == SetsBytes(sets[..i]) + Uleb.EncodeAll(SetValues(sets[i]))
  {
    SetsValuesSnoc(sets[..i], sets[i]);
    assert sets[..i + 1] == sets[..i] + [sets[i]];
    Uleb.EncodeAllConcat(SetsValues(sets[..i]), SetValues(sets[i]));
  }

  lemma {:induction false} SetsValuesSnoc(sets: seq<TagSet>, tags: TagSet)
    ensures SetsValues(sets + [tags]) == SetsValues(sets) + SetValues(tags)
  {
    var s := sets + [tags];
    if |sets| == 0 {
      assert s[1..] == [] && SetsValues(s[1..]) == [];
    } else {
      assert s[1..] == sets[1..] + [tags];
      SetsValuesSnoc(sets[1..], tags);
    }
  }

  method WritePair(writer: Uleb.UlebWriter, a: nat, b: nat)
    modifies writer
    ensures writer.bytes == old(writer.bytes) + Uleb.EncodeAll([a, b])
  {
    TagInfo.AppendOne([], a);
    TagInfo.AppendOne([a], b);
    writer.WriteUleb(a);
    writer.WriteUleb(b);
  }

  method WriteTriple(writer: Uleb.UlebWriter, a: nat, b: nat, c: nat)
    modifies writer
    ensures writer.bytes == old(writer.bytes) + Uleb.EncodeAll([a, b, c])
  {
    TagInfo.AppendOne([a, b], c);
    WritePair(writer, a, b);
    writer.WriteUleb(c);
  }

  method WriteCodeRanges(writer: Uleb.UlebWriter, code_ranges: seq<Range>)
    modifies writer
    ensures writer.bytes == old(writer.bytes) + TableBytes(CodeRows(code_ranges))
  {
    ghost var rows := CodeRows(code_ranges);
    writer.WriteUleb(|code_ranges|);
    for i := 0 to |code_ranges|
      invariant writer.bytes == old(writer.bytes) + (Uleb.Encode(|rows|) + RowsBytes(rows[..i]))
    {
      RowsSnoc(rows, i);
      WritePair(writer, code_ranges[i].start, code_ranges[i].end);
    }
    assert rows[..|rows|] == rows;
  }

  method WriteDataRanges(writer: Uleb.UlebWriter, data_ranges: seq<DataRange>)
    modifies writer
    ensures writer.bytes == old(writer.bytes) + TableBytes(DataRows(data_ranges))
  {
    ghost var rows := DataRows(data_ranges);
    writer.WriteUleb(|data_ranges|);
    for i := 0 to |data_ranges|
      invariant writer.bytes == old(writer.bytes) + (Uleb.Encode(|rows|) + RowsBytes(rows[..i]))
    {
      RowsSnoc(rows, i);
      WriteTriple(writer, data_ranges[i].range.start, data_ranges[i].range.end, data_ranges[i].granularity);
    }
    assert rows[..|rows|] == rows;
  }

  function HeaderBytes(is_64_bit: bool, code: seq<Range>, data: seq<DataRange>): seq<Byte> {
    Uleb.Encode(if is_64_bit then 1 else 0) + (TableBytes(CodeRows(code)) + TableBytes(DataRows(data)))
  }

  method WriteHeaders(writer: Uleb.UlebWriter, code_ranges: seq<Range>, data_ranges: seq<DataRange>, is_64_bit: bool)
    modifies writer
    ensures writer.bytes == old(writer.bytes) + HeaderBytes(is_64_bit, code_ranges, data_ranges)
  {
    writer.WriteUleb(if is_64_bit then 1 else 0);
    WriteCodeRanges(writer, code_ranges);
    WriteDataRanges(writer, data_ranges);
  }

  method WriteSet(writer: Uleb.UlebWriter, tags: TagSet)
    modifies writer
    ensures writer.bytes == old(writer.bytes) + Uleb.EncodeAll(SetValues(tags))
  {
    TagInfo.AppendOne([], |tags|);
    Uleb.EncodeAllConcat([|tags|], Elements(tags));
    writer.WriteUleb(|tags|);
    TagInfo.WriteElements(writer, tags);
  }

  method WriteValues(writer: Uleb.UlebWriter, metadata_values: seq<TagSet>)
    modifies writer
    ensures writer.bytes == old(writer.bytes) + SetTableBytes(metadata_values)
  {
    ghost var sets := metadata_values;
    writer.WriteUleb(|metadata_values|);
    for i := 0 to |metadata_values|
      invariant writer.bytes == old(writer.bytes) + (Uleb.Encode(|sets|) + SetsBytes(sets[..i]))
    {
      SetsSnoc(sets, i);
      WriteSet(writer, metadata_values[i]);
    }
    assert sets[..|sets|] == sets;
  }

  /** What `save_tag_indexes` ends with; the exception names the unknown register. */
  datatype Outcome = Done | OutOfRange(name: string)

  /** The register loop and the CSR loop, which differ only in their table. */
  method WriteNames(writer: Uleb.UlebWriter, table: CodeTable, names: seq<string>, index: map<string, nat>,
                    default_: nat)
    returns (outcome: Outcome)
    requires Lists(names, index)
    modifies writer
    ensures outcome.Done? <==> Known(table, names)
    ensures outcome.Done?
            ==> writer.bytes == old(writer.bytes) + IndexTableBytes(default_, NameRows(table, names, index))
    ensures outcome.OutOfRange? ==>
              && FindCode(table, outcome.name) == None
              && exists i :: 0 <= i < |names| && LastPart(names[i]) == outcome.name
  {
    ghost var before := writer.bytes + Uleb.Encode(|names|) + Uleb.Encode(default_);
    writer.WriteUleb(|names|);
    writer.WriteUleb(default_);
    for i := 0 to |names|
      invariant Known(table, names[..i])
      invariant writer.bytes == before + RowsBytes(NameRows(table, names[..i], index))
    {
      var register_name := LastPart(names[i]);
      if FindCode(table, register_name).None? {
        return OutOfRange(register_name);
      }
      NamesSnoc(table, names, index, i);
      WritePair(writer, FindCode(table, register_name).value, index[names[i]]);
    }
    assert names[..|names|] == names;
    outcome := Done;
  }

  lemma NamesSnoc(table: CodeTable, names: seq<string>, index: map<string, nat>, i: nat)
    requires i < |names| && Known(table, names[..i]) && FindCode(table, LastPart(names[i])).Some?
    requires forall j | 0 <= j < |names| :: names[j] in index
    ensures Known(table, names[..i + 1])
    ensures RowsBytes(NameRows(table, names[..i + 1], index))
            == RowsBytes(NameRows(table, names[..i], index)) + Uleb.EncodeAll(NameRow(table, names[i], index))
  {
    assert names[..i + 1] == names[..i] + [names[i]];
    var rows := NameRows(table, names[..i + 1], index);
    assert rows[..i] == NameRows(table, names[..i], index);
    RowsSnoc(rows, i);
    assert rows[..i + 1] == rows;
  }

  method WriteMemory(writer: Uleb.UlebWriter, ranges: seq<Range>, index: map<Range, nat>)
    requires Lists(ranges, index)
    modifies writer
    ensures writer.bytes == old(writer.bytes) + TableBytes(MemoryRows(ranges, index))
  {
    ghost var rows := MemoryRows(ranges, index);
    writer.WriteUleb(|ranges|);
    for i := 0 to |ranges|
      invariant writer.bytes == old(writer.bytes) + (Uleb.Encode(|rows|) + RowsBytes(rows[..i]))
    {
      RowsSnoc(rows, i);
      WriteTriple(writer, ranges[i].start, ranges[i].end, index[ranges[i]]);
    }
    assert rows[..|rows|] == rows;
  }

  /** The signed values that `save_tag_indexes` writes before it returns or throws: the CSR default follows the
      register names, and the environment's the CSR names. */
  function SignedWrites(names: seq<string>, csr_names: seq<string>, csr_table: CodeTable,
                        register_default: int, csr_default: int, env_default: int): seq<int>
  {
    if !Known(RegisterTable(), names) then [register_default]
    else if !Known(csr_table, csr_names) then [register_default, csr_default]
    else [register_default, csr_default, env_default]
  }

  /** All its calls of the writer end. */
  ghost predicate SaveEnds(names: seq<string>, csr_names: seq<string>, csr_table: CodeTable,
                           register_default: int, csr_default: int, env_default: int)
  {
    forall v | v in SignedWrites(names, csr_names, csr_table, register_default, csr_default, env_default) ::
      Uleb.WriterEnds(v)
  }

  /** Saving ends exactly when no default it reaches is negative. A map without a default entry has the default
      -1, so saving its indexes does not end, unless an unknown register name throws before. */
  lemma SaveEndsIff(names: seq<string>, csr_names: seq<string>, csr_table: CodeTable,
                    register_default: int, csr_default: int, env_default: int)
    ensures SaveEnds(names, csr_names, csr_table, register_default, csr_default, env_default)
            <==> && register_default >= 0
                 && (Known(RegisterTable(), names) ==> csr_default >= 0)
                 && (Known(RegisterTable(), names) && Known(csr_table, csr_names) ==> env_default >= 0)
    ensures !SaveEnds(names, csr_names, csr_table, -1, csr_default, env_default)
    ensures Known(RegisterTable(), names) ==> !SaveEnds(names, csr_names, csr_table, register_default, -1, env_default)
  {
    var writes := SignedWrites(names, csr_names, csr_table, register_default, csr_default, env_default);
    Uleb.WriterEndsIff(register_default);
    Uleb.WriterEndsIff(csr_default);
    Uleb.WriterEndsIff(env_default);
    Uleb.WriterEndsIff(-1);
    assert register_default in writes;
    assert -1 in SignedWrites(names, csr_names, csr_table, -1, csr_default, env_default);
    if Known(RegisterTable(), names) {
      assert csr_default in writes;
      assert -1 in SignedWrites(names, csr_names, csr_table, register_default, -1, env_default);
      if Known(csr_table, csr_names) { assert env_default in writes; }
    }
  }

  /** `save_tag_indexes`, for defaults that are indexes. With negative ones it may not end: `SaveEndsIff`. */
  method SaveTagIndexes(
    writer: Uleb.UlebWriter, metadata_values: seq<TagSet>,
    ranges: seq<Range>, memory: map<Range, nat>,
    names: seq<string>, registers: map<string, nat>,
    csr_names: seq<string>, csrs: map<string, nat>, csr_table: CodeTable,
    register_default: nat, csr_default: nat, env_default: nat
  ) returns (outcome: Outcome)
    requires Lists(ranges, memory) && Lists(names, registers) && Lists(csr_names, csrs)
    modifies writer
    ensures outcome.Done? <==> Known(RegisterTable(), names) && Known(csr_table, csr_names)
    ensures outcome.Done? ==>
      writer.bytes == old(writer.bytes) +
        IndexesBytes(metadata_values, NameRows(RegisterTable(), names, registers), NameRows(csr_table, csr_names, csrs),
                     MemoryRows(ranges, memory), register_default, csr_default, env_default)
  {
    WriteValues(writer, metadata_values);
    ghost var before := writer.bytes;
    outcome := WriteNames(writer, RegisterTable(), names, registers, register_default);
    if outcome.OutOfRange? { return; }
    ghost var after1 := writer.bytes;
    outcome := WriteNames(writer, csr_table, csr_names, csrs, csr_default);
    if outcome.OutOfRange? { return; }
    ghost var after2 := writer.bytes;
    WriteTail(writer, env_default, ranges, memory);
    Join(old(writer.bytes), before, after1, after2, writer.bytes,
         SetTableBytes(metadata_values), IndexTableBytes(register_default, NameRows(RegisterTable(), names, registers)),
         IndexTableBytes(csr_default, NameRows(csr_table, csr_names, csrs)),
         TailBytes(env_default, MemoryRows(ranges, memory)));
  }

  lemma Join(s0: seq<Byte>, s1: seq<Byte>, s2: seq<Byte>, s3: seq<Byte>, s4: seq<Byte>,
             a: seq<Byte>, b: seq<Byte>, c: seq<Byte>, d: seq<Byte>)
    requires s1 == s0 + a && s2 == s1 + b && s3 == s2 + c && s4 == s3 + d
    ensures s4 == s0 + (a + (b + (c + d)))
  {}

  function TailBytes(env_default: nat, memory: seq<Row>): seq<Byte> {
    Uleb.Encode(env_default) + TableBytes(memory)
  }

  method WriteTail(writer: Uleb.UlebWriter, env_default: nat, ranges: seq<Range>, memory: map<Range, nat>)
    requires Lists(ranges, memory)
    modifies writer
    ensures writer.bytes == old(writer.bytes) + TailBytes(env_default, MemoryRows(ranges, memory))
  {
    writer.WriteUleb(env_default);
    WriteMemory(writer, ranges, memory);
  }

  function IndexesBytes(values: seq<TagSet>, registers: seq<Row>, csrs: seq<Row>, memory: seq<Row>,
                        register_default: nat, csr_default: nat, env_default: nat): seq<Byte>
  {
    SetTableBytes(values) + (IndexTableBytes(register_default, registers)
                             + (IndexTableBytes(csr_default, csrs) + TailBytes(env_default, memory)))
  }

  // ---- what is read ----

  datatype Tags = Tags(
    code: seq<Range>, data: seq<Range>, values: seq<TagSet>,
    memory: map<Range, nat>, registers: map<string, nat>, csrs: map<string, nat>,
    register_default: int, csr_default: int, env_default: int)

  const PAIR_WIDTHS: seq<nat> := [64, 64]
  const TRIPLE_WIDTHS: seq<nat> := [64, 64, 64]
  const MEMORY_WIDTHS: seq<nat> := [64, 64, 32]

  function Column(row: Row, i: nat): nat {
    if i < |row| then row[i] else 0
  }

  function RangeOf(row: Row): Range {
    Range(Column(row, 0), Column(row, 1))
  }

  function RangesOf(rows: seq<Row>): (rs: seq<Range>)
    ensures |rs| == |rows| && forall i | 0 <= i < |rs| :: rs[i] == RangeOf(rows[i])
  {
    seq(|rows|, i requires 0 <= i < |rows| => RangeOf(rows[i]))
  }

  /** `std::map::insert`, which keeps an existing value. */
  function InsertNew<K>(m: map<K, nat>, k: K, v: nat): map<K, nat> {
    if k in m then m else m[k := v]
  }

  /** Name each row's code and insert its index; fails on an unknown code. */
  function Named(m: map<string, nat>, table: CodeTable, rows: seq<Row>): Option<map<string, nat>>
    decreases |rows|
  {
    if |rows| == 0 then Some(m)
    else
      var name := FindName(table, Column(rows[0], 0));
      if name.None? then None
      else Named(InsertNew(m, name.value, Column(rows[0], 1)), table, rows[1..])
  }

  function Placed(m: map<Range, nat>, rows: seq<Row>): map<Range, nat>
    decreases |rows|
  {
    if |rows| == 0 then m else Placed(InsertNew(m, RangeOf(rows[0]), Column(rows[0], 2)), rows[1..])
  }

  function FinishNames(m: map<string, nat>, table: CodeTable, rows: Parse<seq<Row>>): Parse<map<string, nat>> {
    if rows.None? then None
    else
      var index := Named(m, table, rows.value.0);
      if index.None? then None else Some((index.value, rows.value.1))
  }

  /** One register or CSR section. */
  function ParseNames(bytes: seq<Byte>, table: CodeTable): Parse<(int, map<string, nat>)> {
    var t := ParseIndexTable(bytes);
    if t.None? then None
    else
      var index := Named(map[], table, t.value.0.1);
      if index.None? then None else Some(((t.value.0.0, index.value), t.value.1))
  }

  function ParseHeaders(bytes: seq<Byte>): Parse<(seq<Range>, seq<Range>)> {
    var is64 := Uleb.Read(bytes, 8);
    if is64.None? then None
    else
      var code := ParseTable(is64.value.1, PAIR_WIDTHS);
      if code.None? then None
      else
        var data := ParseTable(code.value.1, TRIPLE_WIDTHS);
        if data.None? then None
        else Some(((RangesOf(code.value.0), RangesOf(data.value.0)), data.value.1))
  }

  /** The environment default and the memory indexes. */
  function ParseTail(bytes: seq<Byte>): Parse<(int, map<Range, nat>)> {
    var env := Uleb.Read(bytes, 32);
    if env.None? then None
    else
      var memory := ParseTable(env.value.1, MEMORY_WIDTHS);
      if memory.None? then None
      else Some(((ToInt32(env.value.0), Placed(map[], memory.value.0)), memory.value.1))
  }

  function ParseTags(bytes: seq<Byte>, register_table: CodeTable, csr_table: CodeTable): Parse<Tags> {
    var head := ParseHeaders(bytes);
    if head.None? then None
    else
      var values := ParseSetTable(head.value.1);
      if values.None? then None
      else
        var registers := ParseNames(values.value.1, register_table);
        if registers.None? then None
        else
          var csrs := ParseNames(registers.value.1, csr_table);
          if csrs.None? then None
          else
            var tail := ParseTail(csrs.value.1);
            if tail.None? then None
            else
              Some((Tags(head.value.0.0, head.value.0.1, values.value.0, tail.value.0.1, registers.value.0.1,
                              csrs.value.0.1, registers.value.0.0, csrs.value.0.0, tail.value.0.0), tail.value.1))
  }

  // ---- reading ----

  method ReadPair(reader: Uleb.UlebReader, w0: nat, w1: nat) returns (ok: bool, a: nat, b: nat)
    requires reader.Valid()
    modifies reader
    ensures reader.Valid()
    ensures var r := ParseRow(old(reader.Remaining()), [w0, w1]);
            && (ok <==> r.Some?)
            && (ok ==> r.value.0 == [a, b] && reader.Remaining() == r.value.1)
  {
    RowOfTwo(reader.Remaining(), w0, w1);
    a, b, ok := 0, 0, false;
    var n;
    n, a := reader.ReadUleb(w0);
    if n <= 0 { return; }
    n, b := reader.ReadUleb(w1);
    ok := n > 0;
  }

  lemma RowOfTwo(bytes: seq<Byte>, w0: nat, w1: nat)
    ensures var a := Uleb.Read(bytes, w0);
            ParseRow(bytes, [w0, w1]) ==
              if a.None? then None
              else
                var b := Uleb.Read(a.value.1, w1);
                if b.None? then None else Some(([a.value.0, b.value.0], b.value.1))
  {
    var ws: seq<nat> := [w0, w1];
    assert ws[1..] == [w1] && ws[1..][1..] == [];
    var a := Uleb.Read(bytes, w0);
    if a.Some? {
      var b := Uleb.Read(a.value.1, w1);
      if b.Some? {
        assert ParseRow(b.value.1, ws[1..][1..]) == Some(([], b.value.1));
        assert [b.value.0] + [] == [b.value.0];
        assert [a.value.0] + [b.value.0] == [a.value.0, b.value.0];
      }
    }
  }

  method ReadTriple(reader: Uleb.UlebReader, w0: nat, w1: nat, w2: nat) returns (ok: bool, a: nat, b: nat, c: nat)
    requires reader.Valid()
    modifies reader
    ensures reader.Valid()
    ensures var r := ParseRow(old(reader.Remaining()), [w0, w1, w2]);
            && (ok <==> r.Some?)
            && (ok ==> r.value.0 == [a, b, c] && reader.Remaining() == r.value.1)
  {
    RowOfThree(reader.Remaining(), w0, w1, w2);
    a, b, c, ok := 0, 0, 0, false;
    var n;
    n, a := reader.ReadUleb(w0);
    if n <= 0 { return; }
    ok, b, c := ReadPair(reader, w1, w2);
  }

  lemma RowOfThree(bytes: seq<Byte>, w0: nat, w1: nat, w2: nat)
    ensures var a := Uleb.Read(bytes, w0);
            ParseRow(bytes, [w0, w1, w2]) ==
              if a.None? then None
              else
                var rest := ParseRow(a.value.1, [w1, w2]);
                if rest.None? then None else Some(([a.value.0] + rest.value.0, rest.value.1))
  {
    var ws: seq<nat> := [w0, w1, w2];
    assert ws[1..] == [w1, w2];
  }

  /** Rows still to be read, behind those read already. */
  function WithRows(done: seq<Row>, rest: Parse<seq<Row>>): Parse<seq<Row>> {
    if rest.None? then None else Some((done + rest.value.0, rest.value.1))
  }

  lemma NextRow(done: seq<Row>, bytes: seq<Byte>, n: nat, widths: seq<nat>)
    ensures n == 0 ==> WithRows(done, ParseRows(bytes, n, widths)) == Some((done, bytes))
    ensures n > 0 ==>
      var row := ParseRow(bytes, widths);
      WithRows(done, ParseRows(bytes, n, widths))
      == if row.None? then None else WithRows(done + [row.value.0], ParseRows(row.value.1, n - 1, widths))
  {
    assert done + [] == done;
    if n > 0 {
      var row := ParseRow(bytes, widths);
      if row.Some? {
        var rest := ParseRows(row.value.1, n - 1, widths);
        if rest.Some? {
          assert done + ([row.value.0] + rest.value.0) == done + [row.value.0] + rest.value.0;
        }
      }
    }
  }

  lemma NoRows(r: Parse<seq<Row>>)
    ensures WithRows([], r) == r
  {
    if r.Some? { assert [] + r.value.0 == r.value.0; }
  }

  lemma RangesSnoc(rows: seq<Row>, row: Row)
    ensures RangesOf(rows + [row]) == RangesOf(rows) + [RangeOf(row)]
  {}

  method ReadCodeRanges(reader: Uleb.UlebReader) returns (ok: bool, ranges: seq<Range>)
    requires reader.Valid()
    modifies reader
    ensures reader.Valid()
    ensures var r := ParseTable(old(reader.Remaining()), PAIR_WIDTHS);
            && (ok <==> r.Some?)
            && (ok ==> ranges == RangesOf(r.value.0) && reader.Remaining() == r.value.1)
  {
    ranges := [];
    var n, count := reader.ReadUleb(32);
    if n <= 0 { return false, ranges; }
    ghost var rows, all := [], ParseRows(reader.Remaining(), count, PAIR_WIDTHS);
    NoRows(all);
    for i := 0 to count
      invariant reader.Valid() && ranges == RangesOf(rows)
      invariant all == WithRows(rows, ParseRows(reader.Remaining(), count - i, PAIR_WIDTHS))
    {
      NextRow(rows, reader.Remaining(), count - i, PAIR_WIDTHS);
      var read, start, end := ReadPair(reader, 64, 64);
      if !read { return false, ranges; }
      RangesSnoc(rows, [start, end]);
      ranges := ranges + [Range(start, end)];
      rows := rows + [[start, end]];
    }
    NextRow(rows, reader.Remaining(), 0, PAIR_WIDTHS);
    ok := true;
  }

  /** The granularity of each data range is read and dropped. */
  method ReadDataRanges(reader: Uleb.UlebReader) returns (ok: bool, ranges: seq<Range>)
    requires reader.Valid()
    modifies reader
    ensures reader.Valid()
    ensures var r := ParseTable(old(reader.Remaining()), TRIPLE_WIDTHS);
            && (ok <==> r.Some?)
            && (ok ==> ranges == RangesOf(r.value.0) && reader.Remaining() == r.value.1)
  {
    ranges := [];
    var n, count := reader.ReadUleb(32);
    if n <= 0 { return false, ranges; }
    ghost var rows, all := [], ParseRows(reader.Remaining(), count, TRIPLE_WIDTHS);
    NoRows(all);
    for i := 0 to count
      invariant reader.Valid() && ranges == RangesOf(rows)
      invariant all == WithRows(rows, ParseRows(reader.Remaining(), count - i, TRIPLE_WIDTHS))
    {
      NextRow(rows, reader.Remaining(), count - i, TRIPLE_WIDTHS);
      var read, start, end, granularity := ReadTriple(reader, 64, 64, 64);
      if !read { return false, ranges; }
      RangesSnoc(rows, [start, end, granularity]);
      ranges := ranges + [Range(start, end)];
      rows := rows + [[start, end, granularity]];
    }
    NextRow(rows, reader.Remaining(), 0, TRIPLE_WIDTHS);
    ok := true;
  }

  method ReadMemory(reader: Uleb.UlebReader) returns (ok: bool, index: map<Range, nat>)
    requires reader.Valid()
    modifies reader
    ensures reader.Valid()
    ensures var r := ParseTable(old(reader.Remaining()), MEMORY_WIDTHS);
            && (ok <==> r.Some?)
            && (ok ==> index == Placed(map[], r.value.0) && reader.Remaining() == r.value.1)
  {
    index := map[];
    var n, count := reader.ReadUleb(32);
    if n <= 0 { return false, index; }
    ghost var rows, all := [], ParseRows(reader.Remaining(), count, MEMORY_WIDTHS);
    NoRows(all);
    for i := 0 to count
      invariant reader.Valid() && index == Placed(map[], rows)
      invariant all == WithRows(rows, ParseRows(reader.Remaining(), count - i, MEMORY_WIDTHS))
    {
      NextRow(rows, reader.Remaining(), count - i, MEMORY_WIDTHS);
      var read, start, end, metadata_index := ReadTriple(reader, 64, 64, 32);
      if !read { return false, index; }
      ghost var row: Row := [start, end, metadata_index];
      PlacedSnoc(map[], rows, row);
      index := InsertNew(index, Range(start, end), metadata_index);
      rows := rows + [row];
    }
    NextRow(rows, reader.Remaining(), 0, MEMORY_WIDTHS);
    ok := true;
  }

  lemma {:induction false} PlacedSnoc(m: map<Range, nat>, rows: seq<Row>, row: Row)
    ensures Placed(m, rows + [row]) == InsertNew(Placed(m, rows), RangeOf(row), Column(row, 2))
    decreases |rows|
  {
    var s := rows + [row];
    if |rows| == 0 {
      assert Placed(InsertNew(m, RangeOf(s[0]), Column(s[0], 2)), s[1..]) == InsertNew(m, RangeOf(row), Column(row, 2));
    } else {
      assert s[1..] == rows[1..] + [row];
      PlacedSnoc(InsertNew(m, RangeOf(rows[0]), Column(rows[0], 2)), rows[1..], row);
    }
  }

  lemma NextName(m: map<string, nat>, table: CodeTable, bytes: seq<Byte>, n: nat)
    requires n > 0
    ensures var row := ParseRow(bytes, INDEX_WIDTHS);
            FinishNames(m, table, ParseRows(bytes, n, INDEX_WIDTHS))
            == if row.None? || FindName(table, Column(row.value.0, 0)).None? then None
               else FinishNames(InsertNew(m, FindName(table, Column(row.value.0, 0)).value, Column(row.value.0, 1)),
                                table, ParseRows(row.value.1, n - 1, INDEX_WIDTHS))
  {
    var row := ParseRow(bytes, INDEX_WIDTHS);
    if row.Some? {
      var rest := ParseRows(row.value.1, n - 1, INDEX_WIDTHS);
      if rest.Some? {
        assert ([row.value.0] + rest.value.0)[1..] == rest.value.0;
      }
    }
  }

  /** The register loop and the CSR loop. An unknown code fails at once. */
  method ReadNames(reader: Uleb.UlebReader, table: CodeTable) returns (ok: bool, default_: int, index: map<string, nat>)
    requires reader.Valid()
    modifies reader
    ensures reader.Valid()
    ensures var r := ParseNames(old(reader.Remaining()), table);
            && (ok <==> r.Some?)
            && (ok ==> (default_, index) == r.value.0 && reader.Remaining() == r.value.1)
  {
    default_, index, ok := 0, map[], false;
    var n, count := reader.ReadUleb(32);
    if n <= 0 { return; }
    var bits;
    n, bits := reader.ReadUleb(32);
    if n <= 0 { return; }
    default_ := ToInt32(bits);
    ok, index := ReadNameRows(reader, table, count);
  }

  method ReadNameRows(reader: Uleb.UlebReader, table: CodeTable, count: nat) returns (ok: bool, index: map<string, nat>)
    requires reader.Valid()
    modifies reader
    ensures reader.Valid()
    ensures var r := FinishNames(map[], table, ParseRows(old(reader.Remaining()), count, INDEX_WIDTHS));
            && (ok <==> r.Some?)
            && (ok ==> index == r.value.0 && reader.Remaining() == r.value.1)
  {
    index, ok := map[], false;
    ghost var all := FinishNames(map[], table, ParseRows(reader.Remaining(), count, INDEX_WIDTHS));
    for i := 0 to count
      invariant reader.Valid()
      invariant all == FinishNames(index, table, ParseRows(reader.Remaining(), count - i, INDEX_WIDTHS))
    {
      NextName(index, table, reader.Remaining(), count - i);
      var read, code, meta := ReadPair(reader, 32, 32);
      if !read { return; }
      var name := FindName(table, code);
      if name.None? { return; }
      index := InsertNew(index, name.value, meta);
    }
    ok := true;
  }

  method ReadSet(reader: Uleb.UlebReader) returns (ok: bool, metadata: TagSet)
    requires reader.Valid()
    modifies reader
    ensures reader.Valid()
    ensures var r := ParseOneSet(old(reader.Remaining()));
            && (ok <==> r.Some?)
            && (ok ==> metadata == r.value.0 && reader.Remaining() == r.value.1)
  {
    var n, metadata_count := reader.ReadUleb(32);
    if n <= 0 { return false, {}; }
    ok, metadata := TagInfo.ReadElements(reader, metadata_count);
  }

  method ReadValues(reader: Uleb.UlebReader) returns (ok: bool, values: seq<TagSet>)
    requires reader.Valid()
    modifies reader
    ensures reader.Valid()
    ensures var r := ParseSetTable(old(reader.Remaining()));
            && (ok <==> r.Some?)
            && (ok ==> values == r.value.0 && reader.Remaining() == r.value.1)
  {
    var n, count := reader.ReadUleb(32);
    if n <= 0 { return false, []; }
    ok, values := ReadSets(reader, count);
  }

  method ReadSets(reader: Uleb.UlebReader, count: nat) returns (ok: bool, values: seq<TagSet>)
    requires reader.Valid()
    modifies reader
    ensures reader.Valid()
    ensures var r := ParseSets(old(reader.Remaining()), count);
            && (ok <==> r.Some?)
            && (ok ==> values == r.value.0 && reader.Remaining() == r.value.1)
  {
    values := [];
    ghost var all := ParseSets(reader.Remaining(), count);
    NoSets(all);
    for i := 0 to count
      invariant reader.Valid()
      invariant all == WithSets(values, ParseSets(reader.Remaining(), count - i))
    {
      NextSet(values, reader.Remaining(), count - i);
      var read, metadata := ReadSet(reader);
      if !read { return false, values; }
      values := values + [metadata];
    }
    NextSet(values, reader.Remaining(), 0);
    ok := true;
  }

  function WithSets(done: seq<TagSet>, rest: Parse<seq<TagSet>>): Parse<seq<TagSet>> {
    if rest.None? then None else Some((done + rest.value.0, rest.value.1))
  }

  lemma NoSets(r: Parse<seq<TagSet>>)
    ensures WithSets([], r) == r
  {
    if r.Some? { assert [] + r.value.0 == r.value.0; }
  }

  lemma NextSet(done: seq<TagSet>, bytes: seq<Byte>, n: nat)
    ensures n == 0 ==> WithSets(done, ParseSets(bytes, n)) == Some((done, bytes))
    ensures n > 0 ==>
      var tags := ParseOneSet(bytes);
      WithSets(done, ParseSets(bytes, n))
      == if tags.None? then None else WithSets(done + [tags.value.0], ParseSets(tags.value.1, n - 1))
  {
    assert done + [] == done;
    if n > 0 {
      var tags := ParseOneSet(bytes);
      if tags.Some? {
        var rest := ParseSets(tags.value.1, n - 1);
        if rest.Some? {
          assert done + ([tags.value.0] + rest.value.0) == done + [tags.value.0] + rest.value.0;
        }
      }
    }
  }

  /** `load_firmware_tag_file` into empty lists and maps. */
  method LoadFirmwareTagFile(reader: Uleb.UlebReader, csr_table: CodeTable) returns (ok: bool, tags: Tags)
    requires reader.Valid()
    modifies reader
    ensures reader.Valid()
    ensures var r := ParseTags(old(reader.Remaining()), RegisterTable(), csr_table);
            && (ok <==> r.Some?)
            && (ok ==> tags == r.value.0 && reader.Remaining() == r.value.1)
  {
    ok, tags := false, Tags([], [], [], map[], map[], map[], 0, 0, 0);
    var read, code, data := ReadHeaders(reader);
    if !read { return; }
    var values;
    read, values := ReadValues(reader);
    if !read { return; }
    var register_default, registers;
    read, register_default, registers := ReadNames(reader, RegisterTable());
    if !read { return; }
    var csr_default, csrs;
    read, csr_default, csrs := ReadNames(reader, csr_table);
    if !read { return; }
    var env_default, memory;
    read, env_default, memory := ReadTail(reader);
    if !read { return; }
    ok, tags := true, Tags(code, data, values, memory, registers, csrs, register_default, csr_default, env_default);
  }

  method ReadHeaders(reader: Uleb.UlebReader) returns (ok: bool, code: seq<Range>, data: seq<Range>)
    requires reader.Valid()
    modifies reader
    ensures reader.Valid()
    ensures var r := ParseHeaders(old(reader.Remaining()));
            && (ok <==> r.Some?)
            && (ok ==> (code, data) == r.value.0 && reader.Remaining() == r.value.1)
  {
    ok, code, data := false, [], [];
    var n, is_64_bit := reader.ReadUleb(8);
    if n <= 0 { return; }
    ok, code := ReadCodeRanges(reader);
    if !ok { return; }
    ok, data := ReadDataRanges(reader);
  }

  method ReadTail(reader: Uleb.UlebReader) returns (ok: bool, env_default: int, memory: map<Range, nat>)
    requires reader.Valid()
    modifies reader
    ensures reader.Valid()
    ensures var r := ParseTail(old(reader.Remaining()));
            && (ok <==> r.Some?)
            && (ok ==> (env_default, memory) == r.value.0 && reader.Remaining() == r.value.1)
  {
    ok, env_default, memory := false, 0, map[];
    var n, bits := reader.ReadUleb(32);
    if n <= 0 { return; }
    env_default := ToInt32(bits);
    ok, memory := ReadMemory(reader);
  }
}
