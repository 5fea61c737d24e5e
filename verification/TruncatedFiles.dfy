/** What the loaders do with a file that ends too early. */
module TruncatedFiles {
  import opened Wrappers
  import opened RegisterNames
  import opened TagRows
  import opened TagInfo
  import opened FirmwareTagFile
  import opened FirmwareTagTheorems
  import Uleb

  // ---- a successful read does not look beyond what it consumes ----

  /** The same value, with `more` behind the bytes that were left. */
  function Extended<T>(r: Parse<T>, more: seq<Byte>): Parse<T> {
    if r.None? then None else Some((r.value.0, r.value.1 + more))
  }

  lemma {:induction false} DecodeExtends(bytes: seq<Byte>, more: seq<Byte>)
    requires Uleb.Decode(bytes).Some?
    ensures Uleb.Decode(bytes + more) == Extended(Uleb.Decode(bytes), more)
    decreases |bytes|
  {
    assert (bytes + more)[1..] == bytes[1..] + more;
    if bytes[0] >= 128 { DecodeExtends(bytes[1..], more); }
  }

  lemma ReadExtends(bytes: seq<Byte>, width: nat, more: seq<Byte>)
    requires Uleb.Read(bytes, width).Some?
    ensures Uleb.Read(bytes + more, width) == Extended(Uleb.Read(bytes, width), more)
  {
    DecodeExtends(bytes, more);
  }

  lemma {:induction false} SetExtends(bytes: seq<Byte>, n: nat, more: seq<Byte>)
    requires ParseSet(bytes, n).Some?
    ensures ParseSet(bytes + more, n) == Extended(ParseSet(bytes, n), more)
    decreases n
  {
    if n > 0 {
      ReadExtends(bytes, 64, more);
      SetExtends(Uleb.Read(bytes, 64).value.1, n - 1, more);
    }
  }

  lemma RecordExtends(bytes: seq<Byte>, more: seq<Byte>)
    requires ParseRecord(bytes).Some?
    ensures ParseRecord(bytes + more) == Extended(ParseRecord(bytes), more)
  {
    var start := Uleb.Read(bytes, 64);
    var end := Uleb.Read(start.value.1, 64);
    var count := Uleb.Read(end.value.1, 32);
    ReadExtends(bytes, 64, more);
    ReadExtends(start.value.1, 64, more);
    ReadExtends(end.value.1, 32, more);
    SetExtends(count.value.1, count.value.0, more);
  }

  lemma {:induction false} RowExtends(bytes: seq<Byte>, widths: seq<nat>, more: seq<Byte>)
    requires ParseRow(bytes, widths).Some?
    ensures ParseRow(bytes + more, widths) == Extended(ParseRow(bytes, widths), more)
    decreases |widths|
  {
    if |widths| > 0 {
      ReadExtends(bytes, widths[0], more);
      RowExtends(Uleb.Read(bytes, widths[0]).value.1, widths[1..], more);
    }
  }

  lemma {:induction false} RowsExtend(bytes: seq<Byte>, n: nat, widths: seq<nat>, more: seq<Byte>)
    requires ParseRows(bytes, n, widths).Some?
    ensures ParseRows(bytes + more, n, widths) == Extended(ParseRows(bytes, n, widths), more)
    decreases n
  {
    if n > 0 {
      RowExtends(bytes, widths, more);
      RowsExtend(ParseRow(bytes, widths).value.1, n - 1, widths, more);
    }
  }

  lemma OneSetExtends(bytes: seq<Byte>, more: seq<Byte>)
    requires ParseOneSet(bytes).Some?
    ensures ParseOneSet(bytes + more) == Extended(ParseOneSet(bytes), more)
  {
    var n := Uleb.Read(bytes, 32);
    ReadExtends(bytes, 32, more);
    SetExtends(n.value.1, n.value.0, more);
  }

  lemma {:induction false} SetsExtend(bytes: seq<Byte>, n: nat, more: seq<Byte>)
    requires ParseSets(bytes, n).Some?
    ensures ParseSets(bytes + more, n) == Extended(ParseSets(bytes, n), more)
    decreases n
  {
    if n > 0 {
      OneSetExtends(bytes, more);
      SetsExtend(ParseOneSet(bytes).value.1, n - 1, more);
    }
  }

  lemma TableExtends(bytes: seq<Byte>, widths: seq<nat>, more: seq<Byte>)
    requires ParseTable(bytes, widths).Some?
    ensures ParseTable(bytes + more, widths) == Extended(ParseTable(bytes, widths), more)
  {
    var n := Uleb.Read(bytes, 32);
    ReadExtends(bytes, 32, more);
    RowsExtend(n.value.1, n.value.0, widths, more);
  }

  lemma SetTableExtends(bytes: seq<Byte>, more: seq<Byte>)
    requires ParseSetTable(bytes).Some?
    ensures ParseSetTable(bytes + more) == Extended(ParseSetTable(bytes), more)
  {
    var n := Uleb.Read(bytes, 32);
    ReadExtends(bytes, 32, more);
    SetsExtend(n.value.1, n.value.0, more);
  }

  lemma NamesExtend(bytes: seq<Byte>, table: CodeTable, more: seq<Byte>)
    requires ParseNames(bytes, table).Some?
    ensures ParseNames(bytes + more, table) == Extended(ParseNames(bytes, table), more)
  {
    var n := Uleb.Read(bytes, 32);
    var d := Uleb.Read(n.value.1, 32);
    ReadExtends(bytes, 32, more);
    ReadExtends(n.value.1, 32, more);
    RowsExtend(d.value.1, n.value.0, INDEX_WIDTHS, more);
  }

  lemma HeadersExtend(bytes: seq<Byte>, more: seq<Byte>)
    requires ParseHeaders(bytes).Some?
    ensures ParseHeaders(bytes + more) == Extended(ParseHeaders(bytes), more)
  {
    var is64 := Uleb.Read(bytes, 8);
    var code := ParseTable(is64.value.1, PAIR_WIDTHS);
    ReadExtends(bytes, 8, more);
    TableExtends(is64.value.1, PAIR_WIDTHS, more);
    TableExtends(code.value.1, TRIPLE_WIDTHS, more);
  }

  lemma TailExtends(bytes: seq<Byte>, more: seq<Byte>)
    requires ParseTail(bytes).Some?
    ensures ParseTail(bytes + more) == Extended(ParseTail(bytes), more)
  {
    ReadExtends(bytes, 32, more);
    TableExtends(Uleb.Read(bytes, 32).value.1, MEMORY_WIDTHS, more);
  }

  lemma TagsExtend(bytes: seq<Byte>, register_table: CodeTable, csr_table: CodeTable, more: seq<Byte>)
    requires ParseTags(bytes, register_table, csr_table).Some?
    ensures ParseTags(bytes + more, register_table, csr_table)
            == Extended(ParseTags(bytes, register_table, csr_table), more)
  {
    var b1 := ParseHeaders(bytes).value.1;
    var b2 := ParseSetTable(b1).value.1;
    var b3 := ParseNames(b2, register_table).value.1;
    var b4 := ParseNames(b3, csr_table).value.1;
    HeadersExtend(bytes, more);
    SetTableExtends(b1, more);
    NamesExtend(b2, register_table, more);
    NamesExtend(b3, csr_table, more);
    TailExtends(b4, more);
  }

  // ---- the firmware tag file ----

  /** A firmware tag file that is cut short anywhere is rejected. */
  lemma TruncatedTagsRejected(c: Contents, register_table: CodeTable, csr_table: CodeTable, n: nat)
    requires Unambiguous(register_table) && Unambiguous(csr_table)
    requires FirmwareTagTheorems.Savable(c, register_table, csr_table)
    requires n < |FirmwareTagTheorems.Saved(c, register_table, csr_table)|
    ensures ParseTags(FirmwareTagTheorems.Saved(c, register_table, csr_table)[..n], register_table, csr_table).None?
  {
    FirmwareTagTheorems.LoadOfSave(c, register_table, csr_table);
    ShortRejected(FirmwareTagTheorems.Saved(c, register_table, csr_table), n, register_table, csr_table);
  }

  lemma ShortRejected(bytes: seq<Byte>, n: nat, register_table: CodeTable, csr_table: CodeTable)
    requires n < |bytes|
    requires ParseTags(bytes, register_table, csr_table).Some?
             && ParseTags(bytes, register_table, csr_table).value.1 == []
    ensures ParseTags(bytes[..n], register_table, csr_table).None?
  {
    assert bytes == bytes[..n] + bytes[n..];
    if ParseTags(bytes[..n], register_table, csr_table).Some? {
      TagsExtend(bytes[..n], register_table, csr_table, bytes[n..]);
    }
  }

  // ---- the map file ----

  function RecordsBytes(rs: seq<Record>): seq<Byte> {
    Uleb.EncodeAll(RecordsValues(rs))
  }

  lemma RecordsSplit(rs: seq<Record>)
    requires |rs| > 0
    ensures RecordsBytes(rs) == Uleb.EncodeAll(RecordValues(rs[0])) + RecordsBytes(rs[1..])
  {
    Uleb.EncodeAllConcat(RecordValues(rs[0]), RecordsValues(rs[1..]));
  }

  /** A record that is cut short is not read. */
  lemma TruncatedRecord(r: Record, part: seq<Byte>, more: seq<Byte>)
    requires FitsFile(r) && part + more == Uleb.EncodeAll(RecordValues(r)) && more != []
    ensures ParseRecord(part).None?
  {
    ParseRecordInverts(r, []);
    assert Uleb.EncodeAll(RecordValues(r)) + [] == part + more;
    if ParseRecord(part).Some? { RecordExtends(part, more); }
  }

  lemma Cut(a: seq<Byte>, b: seq<Byte>, c: seq<Byte>, d: seq<Byte>)
    requires a + b == c + d && |a| >= |c|
    ensures a == c + a[|c|..] && a[|c|..] + b == d
  {
    assert (a + b)[..|c|] == c && (a + b)[..|c|] == a[..|c|];
    assert (c + d)[|c|..] == d && (a + b)[|c|..] == a[|c|..] + b;
  }

  /** `bytes` is the beginning of the records' bytes and stops between two records. */
  ghost predicate AtBoundary(rs: seq<Record>, bytes: seq<Byte>) {
    exists n: nat :: n <= |rs| && bytes == RecordsBytes(rs[..n])
  }

  /** Records cut short anywhere load as some of the first records; the loader reports success exactly
      when the cut is between two records, so a cut there goes unnoticed. */
  lemma {:induction false} TruncatedRecords(rs: seq<Record>, bytes: seq<Byte>, more: seq<Byte>)
    requires AllFit(rs) && bytes + more == RecordsBytes(rs)
    ensures ParseRecords(bytes).1 <= rs
    ensures ParseRecords(bytes).0 <==> AtBoundary(rs, bytes)
    decreases |rs|
  {
    if bytes == [] {
      assert rs[..0] == [] && bytes == RecordsBytes(rs[..0]);
    } else {
      var first := Uleb.EncodeAll(RecordValues(rs[0]));
      RecordsSplit(rs);
      if |bytes| < |first| {
        ShortOfFirst(rs, bytes, more);
      } else {
        var tail := bytes[|first|..];
        Cut(bytes, more, first, RecordsBytes(rs[1..]));
        TruncatedRecords(rs[1..], tail, more);
        FirstComplete(rs, bytes, tail);
      }
    }
  }

  lemma FirstComplete(rs: seq<Record>, bytes: seq<Byte>, tail: seq<Byte>)
    requires |rs| > 0 && AllFit(rs) && bytes == Uleb.EncodeAll(RecordValues(rs[0])) + tail
    requires ParseRecords(tail).1 <= rs[1..] && (ParseRecords(tail).0 <==> AtBoundary(rs[1..], tail))
    ensures ParseRecords(bytes).1 <= rs && (ParseRecords(bytes).0 <==> AtBoundary(rs, bytes))
  {
    ParseRecordInverts(rs[0], tail);
    assert ParseRecords(bytes) == (ParseRecords(tail).0, [rs[0]] + ParseRecords(tail).1);
    assert rs == [rs[0]] + rs[1..];
    BoundaryAfterFirst(rs, bytes, tail);
  }

  lemma ShortOfFirst(rs: seq<Record>, bytes: seq<Byte>, more: seq<Byte>)
    requires |rs| > 0 && AllFit(rs) && bytes != [] && |bytes| < |Uleb.EncodeAll(RecordValues(rs[0]))|
    requires bytes + more == Uleb.EncodeAll(RecordValues(rs[0])) + RecordsBytes(rs[1..])
    ensures ParseRecord(bytes).None? && !AtBoundary(rs, bytes)
  {
    var first := Uleb.EncodeAll(RecordValues(rs[0]));
    assert bytes == first[..|bytes|] by {
      assert bytes == (bytes + more)[..|bytes|];
    }
    TruncatedRecord(rs[0], bytes, first[|bytes|..]);
    if n: nat :| n <= |rs| && bytes == RecordsBytes(rs[..n]) {
      if n > 0 { RecordsSplit(rs[..n]); }
    }
  }

  lemma BoundaryAfterFirst(rs: seq<Record>, bytes: seq<Byte>, tail: seq<Byte>)
    requires |rs| > 0 && bytes == Uleb.EncodeAll(RecordValues(rs[0])) + tail
    ensures AtBoundary(rs, bytes) <==> AtBoundary(rs[1..], tail)
  {
    if n: nat :| n <= |rs| && bytes == RecordsBytes(rs[..n]) {
      if n > 0 {
        RecordsSplit(rs[..n]);
        assert rs[..n][1..] == rs[1..][..n - 1];
        Cut(bytes, [], Uleb.EncodeAll(RecordValues(rs[0])), RecordsBytes(rs[1..][..n - 1]));
        assert tail == RecordsBytes(rs[1..][..n - 1]);
      }
    }
    if n: nat :| n <= |rs[1..]| && tail == RecordsBytes(rs[1..][..n]) {
      RecordsSplit(rs[..n + 1]);
      assert rs[..n + 1][1..] == rs[1..][..n];
      assert bytes == RecordsBytes(rs[..n + 1]);
    }
  }
}
