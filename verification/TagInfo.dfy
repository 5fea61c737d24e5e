/** The tag file that carries a memory map from the tagging tools to the validator
    (tagging_tools/tag_file.cc, `save_metadata` and `load_metadata`). */
module TagInfo {
  import opened Wrappers
  import opened Bits
  import opened SetOrder
  import opened MetadataMemoryMap
  import opened MemoryMapTheorems
  import opened RunIterator
  import Uleb

  type Byte = Uleb.Byte

  /** One entry of the file: a range that is added to the map when the file is read. */
  type Record = Added

  // ---- the format ----

  function RecordValues(r: Record): seq<nat> {
    [r.start, r.end, |r.tags|] + Elements(r.tags)
  }

  function RecordsValues(rs: seq<Record>): seq<nat> {
    if |rs| == 0 then [] else RecordValues(rs[0]) + RecordsValues(rs[1..])
  }

  function FileBytes(xlen: nat, rs: seq<Record>): seq<Byte> {
    Uleb.EncodeAll([xlen] + RecordsValues(rs))
  }

  /** `n` values of a set, each inserted as it is read. */
  function ParseSet(bytes: seq<Byte>, n: nat): (r: Option<(TagSet, seq<Byte>)>)
    ensures r.Some? ==> |r.value.1| <= |bytes|
    decreases n
  {
    if n == 0 then Some(({}, bytes))
    else
      var v := Uleb.Read(bytes, 64);
      if v.None? then None
      else
        var rest := ParseSet(v.value.1, n - 1);
        if rest.None? then None else Some((rest.value.0 + {v.value.0}, rest.value.1))
  }

  function ParseRecord(bytes: seq<Byte>): (r: Option<(Record, seq<Byte>)>)
    ensures r.Some? ==> |r.value.1| < |bytes|
  {
    var start := Uleb.Read(bytes, 64);
    if start.None? then None
    else
      var end := Uleb.Read(start.value.1, 64);
      if end.None? then None
      else
        var count := Uleb.Read(end.value.1, 32);
        if count.None? then None
        else
          var tags := ParseSet(count.value.1, count.value.0);
          if tags.None? then None
          else Some((Added(start.value.0, end.value.0, tags.value.0), tags.value.1))
  }

  /** All records up to the end of the input, or up to the first malformed one. */
  function ParseRecords(bytes: seq<Byte>): (bool, seq<Record>)
    decreases |bytes|
  {
    if bytes == [] then (true, [])
    else
      var r := ParseRecord(bytes);
      if r.None? then (false, [])
      else
        var rest := ParseRecords(r.value.1);
        (rest.0, [r.value.0] + rest.1)
  }

  // ---- the file decodes to what was encoded ----

  predicate AllBelow(es: seq<nat>, bound: nat) {
    forall i | 0 <= i < |es| :: es[i] < bound
  }

  /** Field values that fit the types they are read back with. */
  predicate FitsFile(r: Record) {
    r.start < Pow2(64) && r.end < Pow2(64) && |r.tags| < Pow2(32) && AllBelow(Elements(r.tags), Pow2(64))
  }

  lemma {:induction false} ParseSetInverts(es: seq<nat>, rest: seq<Byte>)
    requires AllBelow(es, Pow2(64))
    ensures ParseSet(Uleb.EncodeAll(es) + rest, |es|) == Some((ToSet(es), rest))
  {
    if |es| == 0 {
      assert Uleb.EncodeAll(es) + rest == rest;
    } else {
      Uleb.ReadFirst(es, 64, rest);
      ParseSetInverts(es[1..], rest);
      assert ToSet(es[1..]) + {es[0]} == ToSet(es);
    }
  }

  lemma ParseRecordInverts(r: Record, rest: seq<Byte>)
    requires FitsFile(r)
    ensures ParseRecord(Uleb.EncodeAll(RecordValues(r)) + rest) == Some((r, rest))
  {
    var vs, es := RecordValues(r), Elements(r.tags);
    assert vs[1..][0] == r.end && vs[1..][1..] == vs[2..] && vs[2..][0] == |r.tags| && vs[2..][1..] == es;
    Uleb.ReadFirst(vs, 64, rest);
    Uleb.ReadFirst(vs[1..], 64, rest);
    Uleb.ReadFirst(vs[2..], 32, rest);
    ElementsAreAll(r.tags);
    ParseSetInverts(es, rest);
  }

  lemma ParseRecordsStep(bytes: seq<Byte>, r: Record, tail: seq<Byte>, rest: seq<Record>)
    requires ParseRecord(bytes) == Some((r, tail)) && ParseRecords(tail) == (true, rest)
    ensures ParseRecords(bytes) == (true, [r] + rest)
  {}

  lemma {:induction false} ParseRecordsInverts(rs: seq<Record>)
    requires forall i | 0 <= i < |rs| :: FitsFile(rs[i])
    ensures ParseRecords(Uleb.EncodeAll(RecordsValues(rs))) == (true, rs)
  {
    if |rs| > 0 {
      var first, rest := RecordValues(rs[0]), RecordsValues(rs[1..]);
      ParseRecordsInverts(rs[1..]);
      Uleb.EncodeAllConcat(first, rest);
      ParseRecordInverts(rs[0], Uleb.EncodeAll(rest));
      ParseRecordsStep(Uleb.EncodeAll(RecordsValues(rs)), rs[0], Uleb.EncodeAll(rest), rs[1..]);
      assert rs == [rs[0]] + rs[1..];
    }
  }

  predicate AllFit(rs: seq<Record>) {
    forall i | 0 <= i < |rs| :: FitsFile(rs[i])
  }

  /** Reading a whole file: the word size and the records, or `None` if even the word size is missing. */
  function ParseFile(bytes: seq<Byte>): Option<(nat, (bool, seq<Record>))> {
    var xlen := Uleb.Read(bytes, 32);
    if xlen.None? then None else Some((xlen.value.0, ParseRecords(xlen.value.1)))
  }

  lemma ParseFileInverts(xlen: nat, rs: seq<Record>)
    requires xlen < Pow2(32) && AllFit(rs)
    ensures ParseFile(FileBytes(xlen, rs)) == Some((xlen, (true, rs)))
  {
    var vs := [xlen] + RecordsValues(rs);
    assert vs[1..] == RecordsValues(rs);
    Uleb.ReadFirst(vs, 32, []);
    assert Uleb.EncodeAll(vs) + [] == Uleb.EncodeAll(vs);
    assert Uleb.EncodeAll(vs[1..]) + [] == Uleb.EncodeAll(vs[1..]);
    ParseRecordsInverts(rs);
  }

  // ---- saving ----

  /** Every run points to a tag set; the saver dereferences the pointer without a check. */
  predicate Pointed(canon: seq<TagSet>, runs: seq<Run>) {
    forall k | 0 <= k < |runs| :: runs[k].md.Some? && runs[k].md.value < |canon|
  }

  function RunRecords(canon: seq<TagSet>, runs: seq<Run>): (rs: seq<Record>)
    requires Pointed(canon, runs)
    ensures |rs| == |runs|
    ensures forall k | 0 <= k < |rs| :: rs[k] == Added(runs[k].range.start, runs[k].range.end, canon[runs[k].md.value])
  {
    if |runs| == 0 then []
    else [Added(runs[0].range.start, runs[0].range.end, canon[runs[0].md.value])] + RunRecords(canon, runs[1..])
  }

  method WriteElements(writer: Uleb.UlebWriter, tags: TagSet)
    modifies writer
    ensures writer.bytes == old(writer.bytes) + Uleb.EncodeAll(Elements(tags))
  {
    var es := Elements(tags);
    assert es[..0] == [];
    for i := 0 to |es|
      invariant writer.bytes == old(writer.bytes) + Uleb.EncodeAll(es[..i])
    {
      AppendOne(es[..i], es[i]);
      assert es[..i + 1] == es[..i] + [es[i]];
      writer.WriteUleb(es[i]);
    }
    assert es[..|es|] == es;
  }

  lemma AppendOne(vs: seq<nat>, v: nat)
    ensures Uleb.EncodeAll(vs + [v]) == Uleb.EncodeAll(vs) + Uleb.Encode(v)
  {
    Uleb.EncodeAllConcat(vs, [v]);
    assert [v][1..] == [];
    assert Uleb.EncodeAll([v]) == Uleb.Encode(v) + [];
  }

  method WriteRecord(writer: Uleb.UlebWriter, range: Range, tags: TagSet)
    modifies writer
    ensures writer.bytes == old(writer.bytes) + Uleb.EncodeAll(RecordValues(Added(range.start, range.end, tags)))
  {
    RecordBytes(writer.bytes, Added(range.start, range.end, tags));
    writer.WriteUleb(range.start);
    writer.WriteUleb(range.end);
    writer.WriteUleb(|tags|);
    WriteElements(writer, tags);
  }

  lemma RecordBytes(before: seq<Byte>, r: Record)
    ensures before + Uleb.EncodeAll(RecordValues(r))
            == before + Uleb.Encode(r.start) + Uleb.Encode(r.end) + Uleb.Encode(|r.tags|)
               + Uleb.EncodeAll(Elements(r.tags))
  {
    var vs, es := RecordValues(r), Elements(r.tags);
    var vs1, vs2 := vs[1..], vs[2..];
    assert vs1 == [r.end] + vs2 && vs1[1..] == vs2;
    assert vs2 == [|r.tags|] + es && vs2[1..] == es;
    var b2 := Uleb.Encode(|r.tags|) + Uleb.EncodeAll(es);
    assert Uleb.EncodeAll(vs2) == b2;
    assert Uleb.EncodeAll(vs1) == Uleb.Encode(r.end) + b2;
    assert Uleb.EncodeAll(vs) == Uleb.Encode(r.start) + (Uleb.Encode(r.end) + b2);
  }

  /** `save_metadata`, once the file is open. */
  method SaveMetadata(map_: MemoryMap, xlen: nat, writer: Uleb.UlebWriter)
    requires forall i | 0 <= i < |map_.mrs| :: |map_.mrs[i].mem| > 0
    requires Pointed(map_.canon, MapRuns(map_.mrs))
    requires writer.bytes == []
    modifies writer
    ensures writer.bytes == FileBytes(xlen, RunRecords(map_.canon, MapRuns(map_.mrs)))
  {
    var canon := map_.canon;
    ghost var pending := MapRuns(map_.mrs);
    ghost var file := FileBytes(xlen, RunRecords(canon, pending));
    writer.WriteUleb(xlen);
    FileSplit(xlen, RunRecords(canon, pending));
    var runs := CollectRuns(map_.mrs);
    for i := 0 to |runs|
      invariant pending == runs[i..] && Pointed(canon, pending)
      invariant writer.bytes + SavedRuns(canon, pending) == file
    {
      SaveRun(canon, runs[i], writer, pending);
      pending := pending[1..];
    }
  }

  method SaveRun(canon: seq<TagSet>, run: Run, writer: Uleb.UlebWriter, ghost pending: seq<Run>)
    requires |pending| > 0 && pending[0] == run && Pointed(canon, pending)
    modifies writer
    ensures Pointed(canon, pending[1..])
    ensures writer.bytes + SavedRuns(canon, pending[1..]) == old(writer.bytes) + SavedRuns(canon, pending)
  {
    SavedFirst(writer.bytes, canon, pending);
    WriteRecord(writer, run.range, canon[run.md.value]);
  }

  function SavedRuns(canon: seq<TagSet>, runs: seq<Run>): seq<Byte>
    requires Pointed(canon, runs)
  {
    Uleb.EncodeAll(RecordsValues(RunRecords(canon, runs)))
  }

  lemma FileSplit(xlen: nat, rs: seq<Record>)
    ensures FileBytes(xlen, rs) == Uleb.Encode(xlen) + Uleb.EncodeAll(RecordsValues(rs))
  {
    Uleb.EncodeAllConcat([xlen], RecordsValues(rs));
    AppendOne([], xlen);
  }

  lemma SavedFirst(before: seq<Byte>, canon: seq<TagSet>, runs: seq<Run>)
    requires |runs| > 0 && Pointed(canon, runs)
    ensures var first := Added(runs[0].range.start, runs[0].range.end, canon[runs[0].md.value]);
            before + SavedRuns(canon, runs)
            == before + Uleb.EncodeAll(RecordValues(first)) + SavedRuns(canon, runs[1..])
  {
    var rs := RunRecords(canon, runs);
    assert rs[1..] == RunRecords(canon, runs[1..]);
    Uleb.EncodeAllConcat(RecordValues(rs[0]), RecordsValues(rs[1..]));
  }

  // ---- loading ----

  /** Adding the records in order. */
  function AddAll(m: Map, rs: seq<Record>): (m': Map)
    requires WellFormed(m)
    ensures WellFormed(m')
    decreases |rs|
  {
    if |rs| == 0 then m else AddAll(WithRange(m, rs[0].start, rs[0].end, rs[0].tags), rs[1..])
  }

  method ReadElements(reader: Uleb.UlebReader, count: nat) returns (ok: bool, tags: TagSet)
    requires reader.Valid()
    modifies reader
    ensures reader.Valid()
    ensures var r := ParseSet(old(reader.Remaining()), count);
            && (ok <==> r.Some?)
            && (ok ==> tags == r.value.0 && reader.Remaining() == r.value.1)
  {
    tags := {};
    ghost var all := ParseSet(reader.Remaining(), count);
    WithNone(all);
    for i := 0 to count
      invariant reader.Valid()
      invariant all == WithElements(tags, ParseSet(reader.Remaining(), count - i))
    {
      WithFirst(tags, reader.Remaining(), count - i);
      var n, meta := reader.ReadUleb(64);
      if n <= 0 { return false, {}; }
      tags := tags + {meta};
    }
    ok := true;
  }

  function WithElements(tags: TagSet, rest: Option<(TagSet, seq<Byte>)>): Option<(TagSet, seq<Byte>)> {
    if rest.None? then None else Some((rest.value.0 + tags, rest.value.1))
  }

  lemma WithNone(r: Option<(TagSet, seq<Byte>)>)
    ensures WithElements({}, r) == r
  {
    if r.Some? { assert r.value.0 + {} == r.value.0; }
  }

  lemma WithFirst(tags: TagSet, bytes: seq<Byte>, n: nat)
    requires n > 0
    ensures var v := Uleb.Read(bytes, 64);
            WithElements(tags, ParseSet(bytes, n))
            == if v.None? then None else WithElements(tags + {v.value.0}, ParseSet(v.value.1, n - 1))
  {
    var v := Uleb.Read(bytes, 64);
    if v.Some? {
      var rest := ParseSet(v.value.1, n - 1);
      if rest.Some? {
        assert rest.value.0 + {v.value.0} + tags == rest.value.0 + (tags + {v.value.0});
      }
    }
  }

  method ReadRecord(reader: Uleb.UlebReader) returns (ok: bool, record: Record)
    requires reader.Valid()
    modifies reader
    ensures reader.Valid()
    ensures var r := ParseRecord(old(reader.Remaining()));
            && (ok <==> r.Some?)
            && (ok ==> record == r.value.0 && reader.Remaining() == r.value.1)
  {
    record := Added(0, 0, {});
    ok := false;
    var n, start := reader.ReadUleb(64);
    if n <= 0 { return; }
    var end;
    n, end := reader.ReadUleb(64);
    if n <= 0 { return; }
    var metadata_count;
    n, metadata_count := reader.ReadUleb(32);
    if n <= 0 { return; }
    var read, metadata := ReadElements(reader, metadata_count);
    if !read { return; }
    return true, Added(start, end, metadata);
  }

  /** `load_metadata`, once the file is open. On failure the records before the malformed one stay added. */
  method LoadMetadata(map_: MemoryMap, reader: Uleb.UlebReader) returns (ok: bool, xlen: nat)
    requires reader.Valid() && WellFormed(map_.Model())
    modifies map_, reader
    ensures WellFormed(old(map_.Model()))
    ensures var file := ParseFile(old(reader.Remaining()));
            && (file.None? ==> !ok && map_.Model() == old(map_.Model()))
            && (file.Some? ==> xlen == file.value.0 && ok == file.value.1.0
                               && map_.Model() == AddAll(old(map_.Model()), file.value.1.1))
  {
    var n;
    n, xlen := reader.ReadUleb(32);
    if n <= 0 { return false, xlen; }
    ok := LoadRecords(map_, reader);
  }

  method LoadRecords(map_: MemoryMap, reader: Uleb.UlebReader) returns (ok: bool)
    requires reader.Valid() && WellFormed(map_.Model())
    modifies map_, reader
    ensures reader.Valid() && WellFormed(old(map_.Model()))
    ensures ok == ParseRecords(old(reader.Remaining())).0
    ensures map_.Model() == AddAll(old(map_.Model()), ParseRecords(old(reader.Remaining())).1)
  {
    ghost var file, before := ParseRecords(reader.Remaining()), map_.Model();
    var eof := reader.Eof();
    while !eof
      invariant reader.Valid() && WellFormed(map_.Model())
      invariant eof == (reader.Remaining() == [])
      invariant file.0 == ParseRecords(reader.Remaining()).0
      invariant AddAll(map_.Model(), ParseRecords(reader.Remaining()).1) == AddAll(before, file.1)
      decreases |reader.Remaining()|
    {
      ghost var rest := ParseRecords(reader.Remaining());
      var read, r := ReadRecord(reader);
      if !read { return false; }
      assert rest.1[0] == r && rest.1[1..] == ParseRecords(reader.Remaining()).1;
      map_.AddRange(r.start, r.end, r.tags);
      eof := reader.Eof();
    }
    ok := true;
  }
}
