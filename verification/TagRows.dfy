/** Tables of numbers in a tag file: rows of a fixed shape behind a count. */
module TagRows {
  import opened Wrappers
  import opened Bits
  import opened SetOrder
  import Uleb
  import TagInfo

  type Byte = Uleb.Byte
  type Row = seq<nat>
  type TagSet = set<nat>

  /** A value read and the bytes after it. */
  type Parse<T> = Option<(T, seq<Byte>)>

  function RowsValues(rows: seq<Row>): seq<nat> {
    if |rows| == 0 then [] else rows[0] + RowsValues(rows[1..])
  }

  function SetValues(tags: TagSet): seq<nat> {
    [|tags|] + Elements(tags)
  }

  function SetsValues(sets: seq<TagSet>): seq<nat> {
    if |sets| == 0 then [] else SetValues(sets[0]) + SetsValues(sets[1..])
  }

  function RowsBytes(rows: seq<Row>): seq<Byte> { Uleb.EncodeAll(RowsValues(rows)) }
  function SetsBytes(sets: seq<TagSet>): seq<Byte> { Uleb.EncodeAll(SetsValues(sets)) }

  // ---- reading ----

  /** One number for each width. */
  function ParseRow(bytes: seq<Byte>, widths: seq<nat>): (r: Parse<Row>)
    decreases |widths|
  {
    if |widths| == 0 then Some(([], bytes))
    else
      var v := Uleb.Read(bytes, widths[0]);
      if v.None? then None
      else
        var rest := ParseRow(v.value.1, widths[1..]);
        if rest.None? then None else Some(([v.value.0] + rest.value.0, rest.value.1))
  }

  function ParseRows(bytes: seq<Byte>, n: nat, widths: seq<nat>): (r: Parse<seq<Row>>)
    decreases n
  {
    if n == 0 then Some(([], bytes))
    else
      var row := ParseRow(bytes, widths);
      if row.None? then None
      else
        var rest := ParseRows(row.value.1, n - 1, widths);
        if rest.None? then None else Some(([row.value.0] + rest.value.0, rest.value.1))
  }

  function ParseOneSet(bytes: seq<Byte>): Parse<TagSet> {
    var n := Uleb.Read(bytes, 32);
    if n.None? then None else TagInfo.ParseSet(n.value.1, n.value.0)
  }

  function ParseSets(bytes: seq<Byte>, n: nat): (r: Parse<seq<TagSet>>)
    decreases n
  {
    if n == 0 then Some(([], bytes))
    else
      var tags := ParseOneSet(bytes);
      if tags.None? then None
      else
        var rest := ParseSets(tags.value.1, n - 1);
        if rest.None? then None else Some(([tags.value.0] + rest.value.0, rest.value.1))
  }

  // ---- reading inverts writing ----

  predicate RowFits(row: Row, widths: seq<nat>) {
    |row| == |widths| && forall i | 0 <= i < |row| :: row[i] < Pow2(widths[i])
  }

  predicate RowsFit(rows: seq<Row>, widths: seq<nat>) {
    |rows| < Pow2(32) && forall i | 0 <= i < |rows| :: RowFits(rows[i], widths)
  }

  predicate SetFits(tags: TagSet) {
    |tags| < Pow2(32) && TagInfo.AllBelow(Elements(tags), Pow2(64))
  }

  predicate SetsFit(sets: seq<TagSet>) {
    |sets| < Pow2(32) && forall i | 0 <= i < |sets| :: SetFits(sets[i])
  }

  lemma {:induction false} ParseRowInverts(row: Row, widths: seq<nat>, rest: seq<Byte>)
    requires RowFits(row, widths)
    ensures ParseRow(Uleb.EncodeAll(row) + rest, widths) == Some((row, rest))
    decreases |row|
  {
    if |row| == 0 {
      assert Uleb.EncodeAll(row) + rest == rest;
    } else {
      Uleb.ReadFirst(row, widths[0], rest);
      ParseRowInverts(row[1..], widths[1..], rest);
      assert row == [row[0]] + row[1..];
    }
  }

  lemma RowsFirst(rows: seq<Row>, rest: seq<Byte>)
    requires |rows| > 0
    ensures RowsBytes(rows) + rest == Uleb.EncodeAll(rows[0]) + (RowsBytes(rows[1..]) + rest)
  {
    Uleb.EncodeAllConcat(rows[0], RowsValues(rows[1..]));
  }

  lemma {:induction false} ParseRowsInverts(rows: seq<Row>, widths: seq<nat>, rest: seq<Byte>)
    requires forall i | 0 <= i < |rows| :: RowFits(rows[i], widths)
    ensures ParseRows(RowsBytes(rows) + rest, |rows|, widths) == Some((rows, rest))
  {
    if |rows| == 0 {
      assert RowsBytes(rows) + rest == rest;
    } else {
      RowsFirst(rows, rest);
      ParseRowInverts(rows[0], widths, RowsBytes(rows[1..]) + rest);
      ParseRowsInverts(rows[1..], widths, rest);
      assert rows == [rows[0]] + rows[1..];
    }
  }

  lemma SetsFirst(sets: seq<TagSet>, rest: seq<Byte>)
    requires |sets| > 0
    ensures SetsBytes(sets) + rest == Uleb.EncodeAll(SetValues(sets[0])) + (SetsBytes(sets[1..]) + rest)
  {
    Uleb.EncodeAllConcat(SetValues(sets[0]), SetsValues(sets[1..]));
  }

  lemma ParseOneSetInverts(tags: TagSet, rest: seq<Byte>)
    requires SetFits(tags)
    ensures ParseOneSet(Uleb.EncodeAll(SetValues(tags)) + rest) == Some((tags, rest))
  {
    assert SetValues(tags)[1..] == Elements(tags);
    Uleb.ReadFirst(SetValues(tags), 32, rest);
    TagInfo.ParseSetInverts(Elements(tags), rest);
    ElementsAreAll(tags);
  }

  lemma ParseSetsStep(bytes: seq<Byte>, tags: TagSet, tail: seq<Byte>, sets: seq<TagSet>, rest: seq<Byte>)
    requires ParseOneSet(bytes) == Some((tags, tail)) && ParseSets(tail, |sets|) == Some((sets, rest))
    ensures ParseSets(bytes, |sets| + 1) == Some(([tags] + sets, rest))
  {}

  lemma {:induction false} ParseSetsInverts(sets: seq<TagSet>, rest: seq<Byte>)
    requires forall i | 0 <= i < |sets| :: SetFits(sets[i])
    ensures ParseSets(SetsBytes(sets) + rest, |sets|) == Some((sets, rest))
  {
    if |sets| == 0 {
      assert SetsBytes(sets) + rest == rest;
    } else {
      var tail := SetsBytes(sets[1..]) + rest;
      SetsFirst(sets, rest);
      ParseSetsInverts(sets[1..], rest);
      ParseOneSetInverts(sets[0], tail);
      ParseSetsStep(SetsBytes(sets) + rest, sets[0], tail, sets[1..], rest);
      assert sets == [sets[0]] + sets[1..];
    }
  }

  // ---- sections of a file ----

  /** A count and its rows. */
  function TableBytes(rows: seq<Row>): seq<Byte> {
    Uleb.Encode(|rows|) + RowsBytes(rows)
  }

  function ParseTable(bytes: seq<Byte>, widths: seq<nat>): Parse<seq<Row>> {
    var n := Uleb.Read(bytes, 32);
    if n.None? then None else ParseRows(n.value.1, n.value.0, widths)
  }

  lemma ParseTableInverts(rows: seq<Row>, widths: seq<nat>, rest: seq<Byte>)
    requires RowsFit(rows, widths)
    ensures ParseTable(TableBytes(rows) + rest, widths) == Some((rows, rest))
  {
    assert TableBytes(rows) + rest == Uleb.Encode(|rows|) + (RowsBytes(rows) + rest);
    Uleb.ReadEncode(|rows|, 32, RowsBytes(rows) + rest);
    ParseRowsInverts(rows, widths, rest);
  }

  function SetTableBytes(sets: seq<TagSet>): seq<Byte> {
    Uleb.Encode(|sets|) + SetsBytes(sets)
  }

  function ParseSetTable(bytes: seq<Byte>): Parse<seq<TagSet>> {
    var n := Uleb.Read(bytes, 32);
    if n.None? then None else ParseSets(n.value.1, n.value.0)
  }

  lemma ParseSetTableInverts(sets: seq<TagSet>, rest: seq<Byte>)
    requires SetsFit(sets)
    ensures ParseSetTable(SetTableBytes(sets) + rest) == Some((sets, rest))
  {
    assert SetTableBytes(sets) + rest == Uleb.Encode(|sets|) + (SetsBytes(sets) + rest);
    Uleb.ReadEncode(|sets|, 32, SetsBytes(sets) + rest);
    ParseSetsInverts(sets, rest);
  }

  /** `read_uleb<int32_t>`: the low 32 bits as a signed number. */
  function ToInt32(v: nat): int {
    if v < 0x8000_0000 then v else v - 0x1_0000_0000
  }

  /** A count, a default index and rows of a code and an index. */
  function IndexTableBytes(default_: nat, rows: seq<Row>): seq<Byte> {
    Uleb.Encode(|rows|) + (Uleb.Encode(default_) + RowsBytes(rows))
  }

  const INDEX_WIDTHS: seq<nat> := [32, 32]

  function ParseIndexTable(bytes: seq<Byte>): Parse<(int, seq<Row>)> {
    var n := Uleb.Read(bytes, 32);
    if n.None? then None
    else
      var d := Uleb.Read(n.value.1, 32);
      if d.None? then None
      else
        var rows := ParseRows(d.value.1, n.value.0, INDEX_WIDTHS);
        if rows.None? then None else Some(((ToInt32(d.value.0), rows.value.0), rows.value.1))
  }

  lemma ParseIndexTableInverts(default_: nat, rows: seq<Row>, rest: seq<Byte>)
    requires RowsFit(rows, INDEX_WIDTHS) && default_ < 0x8000_0000
    ensures ParseIndexTable(IndexTableBytes(default_, rows) + rest) == Some(((default_, rows), rest))
  {
    var tail := RowsBytes(rows) + rest;
    assert IndexTableBytes(default_, rows) + rest == Uleb.Encode(|rows|) + (Uleb.Encode(default_) + tail);
    Uleb.ReadEncode(|rows|, 32, Uleb.Encode(default_) + tail);
    Below32(default_);
    Uleb.ReadEncode(default_, 32, tail);
    ParseRowsInverts(rows, INDEX_WIDTHS, rest);
  }

  /** Reading as `int` keeps the bits. */
  lemma Int32Is(v: nat)
    requires v < Pow2(32)
    ensures -0x8000_0000 <= ToInt32(v) < 0x8000_0000 && ToInt32(v) % 0x1_0000_0000 == v
  {
    Pow32();
  }

  lemma Below32(v: nat)
    requires v < 0x8000_0000
    ensures v < Pow2(32)
  {
    Pow32();
  }

  lemma Pow32()
    ensures Pow2(32) == 0x1_0000_0000
  {
    assert Pow2(32) == 0x1_0000_0000 by {
      assert Pow2(8) == 256;
      assert Pow2(16) == 65536 by {
        assert Pow2(12) == 16 * Pow2(8) && Pow2(16) == 16 * Pow2(12);
      }
      assert Pow2(20) == 16 * Pow2(16) && Pow2(24) == 16 * Pow2(20);
      assert Pow2(28) == 16 * Pow2(24) && Pow2(32) == 16 * Pow2(28);
    }
  }
}
