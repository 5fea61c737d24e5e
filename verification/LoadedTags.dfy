/** Whatever bytes a firmware tag file holds, what is loaded from it fits the types it is kept in. */
module LoadedTags {
  import opened Wrappers
  import opened Bits
  import opened MetadataMemoryMap
  import opened TagInfo
  import opened TagRows
  import opened FirmwareTagFile
  import opened RegisterNames
  import Uleb

  lemma {:induction false} ParsedRowFits(bytes: seq<Byte>, widths: seq<nat>)
    ensures var row := ParseRow(bytes, widths); row.Some? ==> RowFits(row.value.0, widths)
    decreases |widths|
  {
    if |widths| > 0 && ParseRow(bytes, widths).Some? {
      ParsedRowFits(Uleb.Read(bytes, widths[0]).value.1, widths[1..]);
    }
  }

  predicate EachFits(rows: seq<Row>, widths: seq<nat>) {
    forall i | 0 <= i < |rows| :: RowFits(rows[i], widths)
  }

  lemma {:induction false} ParsedRowsFit(bytes: seq<Byte>, n: nat, widths: seq<nat>)
    ensures var rows := ParseRows(bytes, n, widths);
            rows.Some? ==> |rows.value.0| == n && EachFits(rows.value.0, widths)
    decreases n
  {
    if n > 0 && ParseRows(bytes, n, widths).Some? {
      ParsedRowFits(bytes, widths);
      ParsedRowsFit(ParseRow(bytes, widths).value.1, n - 1, widths);
    }
  }

  /** 64-bit tag numbers. */
  predicate TagsFit(tags: TagSet) {
    forall x | x in tags :: x < Pow2(64)
  }

  lemma {:induction false} ParsedSetFits(bytes: seq<Byte>, n: nat)
    ensures var tags := ParseSet(bytes, n); tags.Some? ==> TagsFit(tags.value.0)
    decreases n
  {
    if n > 0 && ParseSet(bytes, n).Some? {
      ParsedSetFits(Uleb.Read(bytes, 64).value.1, n - 1);
    }
  }

  lemma {:induction false} ParsedSetsFit(bytes: seq<Byte>, n: nat)
    ensures var sets := ParseSets(bytes, n);
            sets.Some? ==> ValuesFit(sets.value.0)
    decreases n
  {
    if n > 0 && ParseSets(bytes, n).Some? {
      var count := Uleb.Read(bytes, 32).value;
      ParsedSetFits(count.1, count.0);
      ParsedSetsFit(ParseOneSet(bytes).value.1, n - 1);
    }
  }

  predicate RangeFits(r: Range) {
    r.start < Pow2(64) && r.end < Pow2(64)
  }

  predicate IsInt32(v: int) {
    -0x8000_0000 <= v < 0x8000_0000
  }

  predicate IndexesFit<K(!new)>(index: map<K, nat>) {
    forall k | k in index :: index[k] < Pow2(32)
  }

  lemma {:induction false} PlacedFits(m: map<Range, nat>, rows: seq<Row>)
    requires EachFits(rows, MEMORY_WIDTHS) && MemoryFits(m)
    ensures MemoryFits(Placed(m, rows))
    decreases |rows|
  {
    if |rows| > 0 {
      assert RowFits(rows[0], MEMORY_WIDTHS);
      PlacedFits(InsertNew(m, RangeOf(rows[0]), Column(rows[0], 2)), rows[1..]);
    }
  }

  lemma {:induction false} NamedFits(m: map<string, nat>, table: CodeTable, rows: seq<Row>)
    requires EachFits(rows, INDEX_WIDTHS) && IndexesFit(m)
    ensures var index := Named(m, table, rows); index.Some? ==> IndexesFit(index.value)
    decreases |rows|
  {
    if |rows| > 0 && Named(m, table, rows).Some? {
      assert RowFits(rows[0], INDEX_WIDTHS);
      NamedFits(InsertNew(m, FindName(table, Column(rows[0], 0)).value, Column(rows[0], 1)), table, rows[1..]);
    }
  }

  lemma ParsedNamesFit(bytes: seq<Byte>, table: CodeTable)
    ensures var names := ParseNames(bytes, table);
            names.Some? ==> IsInt32(names.value.0.0) && IndexesFit(names.value.0.1)
  {
    if ParseNames(bytes, table).Some? {
      var n := Uleb.Read(bytes, 32).value;
      var d := Uleb.Read(n.1, 32).value;
      Int32Is(d.0);
      ParsedRowsFit(d.1, n.0, INDEX_WIDTHS);
      NamedFits(map[], table, ParseRows(d.1, n.0, INDEX_WIDTHS).value.0);
    }
  }

  lemma ParsedRangesFit(bytes: seq<Byte>, widths: seq<nat>)
    requires widths == PAIR_WIDTHS || widths == TRIPLE_WIDTHS
    ensures var rows := ParseTable(bytes, widths);
            rows.Some? ==> RangesFit(RangesOf(rows.value.0))
  {
    if ParseTable(bytes, widths).Some? {
      var n := Uleb.Read(bytes, 32).value;
      ParsedRowsFit(n.1, n.0, widths);
      var rows := ParseTable(bytes, widths).value.0;
      forall i | 0 <= i < |rows| ensures RangeFits(RangesOf(rows)[i]) {
        assert RowFits(rows[i], widths);
      }
    }
  }

  lemma ParsedTailFits(bytes: seq<Byte>)
    ensures var tail := ParseTail(bytes);
            tail.Some? ==> IsInt32(tail.value.0.0) && MemoryFits(tail.value.0.1)
  {
    if ParseTail(bytes).Some? {
      var d := Uleb.Read(bytes, 32).value;
      Int32Is(d.0);
      var n := Uleb.Read(d.1, 32).value;
      ParsedRowsFit(n.1, n.0, MEMORY_WIDTHS);
      PlacedFits(map[], ParseRows(n.1, n.0, MEMORY_WIDTHS).value.0);
    }
  }

  predicate RangesFit(rs: seq<Range>) {
    forall i | 0 <= i < |rs| :: RangeFits(rs[i])
  }

  predicate ValuesFit(sets: seq<TagSet>) {
    forall i | 0 <= i < |sets| :: TagsFit(sets[i])
  }

  predicate MemoryFits(index: map<Range, nat>) {
    IndexesFit(index) && forall r | r in index :: RangeFits(r)
  }

  lemma HeadersFit(bytes: seq<Byte>)
    ensures var head := ParseHeaders(bytes);
            head.Some? ==> RangesFit(head.value.0.0) && RangesFit(head.value.0.1)
  {
    if ParseHeaders(bytes).Some? {
      var code := Uleb.Read(bytes, 8).value.1;
      ParsedRangesFit(code, PAIR_WIDTHS);
      ParsedRangesFit(ParseTable(code, PAIR_WIDTHS).value.1, TRIPLE_WIDTHS);
    }
  }

  lemma ParsedSetTableFits(bytes: seq<Byte>)
    ensures var values := ParseSetTable(bytes); values.Some? ==> ValuesFit(values.value.0)
  {
    if ParseSetTable(bytes).Some? {
      var n := Uleb.Read(bytes, 32).value;
      ParsedSetsFit(n.1, n.0);
    }
  }

  /** Bounds and tag numbers have 64 bits, indexes 32, and defaults are 32-bit signed numbers. */
  predicate Fits(t: Tags) {
    && RangesFit(t.code) && RangesFit(t.data) && ValuesFit(t.values)
    && MemoryFits(t.memory) && IndexesFit(t.registers) && IndexesFit(t.csrs)
    && IsInt32(t.register_default) && IsInt32(t.csr_default) && IsInt32(t.env_default)
  }

  lemma LoadedFits(bytes: seq<Byte>, register_table: CodeTable, csr_table: CodeTable)
    ensures var t := ParseTags(bytes, register_table, csr_table); t.Some? ==> Fits(t.value.0)
  {
    if ParseTags(bytes, register_table, csr_table).Some? {
      var b1 := ParseHeaders(bytes).value.1;
      var b2 := ParseSetTable(b1).value.1;
      var b3 := ParseNames(b2, register_table).value.1;
      var b4 := ParseNames(b3, csr_table).value.1;
      HeadersFit(bytes);
      ParsedSetTableFits(b1);
      ParsedNamesFit(b2, register_table);
      ParsedNamesFit(b3, csr_table);
      ParsedTailFits(b4);
    }
  }
}
