/** Unsigned LEB128 numbers and the byte streams they are written to and read from
    (tagging_tools/uleb.h; section 7.6 of DWARF Version 5). */
module Uleb {
  import opened Wrappers
  import opened Bits

  type Byte = b: nat | b < 256

  // ---- the coding ----

  function Encode(v: nat): (bytes: seq<Byte>)
    ensures |bytes| > 0
  {
    if v < 128 then [v] else [v % 128 + 128] + Encode(v / 128)
  }

  /** A value and the bytes left after it, `None` if the bytes end inside the value. */
  function Decode(bytes: seq<Byte>): (r: Option<(nat, seq<Byte>)>)
    ensures r.Some? ==> |r.value.1| < |bytes|
  {
    if |bytes| == 0 then None
    else if bytes[0] < 128 then Some((bytes[0], bytes[1..]))
    else
      var rest := Decode(bytes[1..]);
      if rest.None? then None else Some((bytes[0] - 128 + 128 * rest.value.0, rest.value.1))
  }

  /** The reader inverts the writer, whatever bytes follow, and consumes exactly what was written. */
  lemma {:induction false} DecodeEncode(v: nat, rest: seq<Byte>)
    ensures Decode(Encode(v) + rest) == Some((v, rest))
  {
    var bytes := Encode(v) + rest;
    if v < 128 {
      assert bytes[1..] == rest;
    } else {
      DecodeEncode(v / 128, rest);
      assert bytes[1..] == Encode(v / 128) + rest;
    }
  }

  /** The writer's encoding is the shortest of all encodings of its value. */
  lemma {:induction false} EncodeIsShortest(bytes: seq<Byte>, v: nat)
    requires Decode(bytes) == Some((v, []))
    ensures |Encode(v)| <= |bytes|
  {
    if bytes[0] >= 128 {
      var rest := Decode(bytes[1..]);
      EncodeIsShortest(bytes[1..], rest.value.0);
      if v >= 128 { assert v / 128 == rest.value.0; }
    }
  }

  /** A value fits in `n` bytes exactly when it has at most `7 n` bits. */
  lemma {:induction false} EncodeLength(v: nat, n: nat)
    requires n > 0
    ensures |Encode(v)| <= n <==> v < Pow2(7 * n)
    decreases n
  {
    assert Pow2(7 * n) == 128 * Pow2(7 * (n - 1)) by {
      var m := 7 * (n - 1);
      assert Pow2(m + 7) == 2 * Pow2(m + 6) == 4 * Pow2(m + 5) == 8 * Pow2(m + 4);
      assert Pow2(m + 4) == 2 * Pow2(m + 3) == 4 * Pow2(m + 2) == 8 * Pow2(m + 1) == 16 * Pow2(m);
    }
    if v >= 128 {
      if n > 1 { EncodeLength(v / 128, n - 1); }
    }
  }

  /** Byte `i` of an encoding holds bits 7 i to 7 i + 6 of the value, and its high bit tells that more bytes follow. */
  lemma {:induction false} EncodedByte(v: nat, i: nat)
    requires i < |Encode(v)|
    ensures Encode(v)[i] % 128 == Low(Shr(v, 7 * i), 7)
    ensures Encode(v)[i] >= 128 <==> i < |Encode(v)| - 1
  {
    if i > 0 {
      EncodedByte(v / 128, i - 1);
      ShrSeven(v, 7 * (i - 1));
      assert 7 * i == 7 * (i - 1) + 7;
    } else {
      LowSeven(v);
    }
  }

  lemma ShrSeven(v: nat, m: nat)
    ensures Shr(v, 7) == v / 128 && Shr(v, m + 7) == Shr(v / 128, m)
  {
    assert Shr(v, 7) == v / 128 by {
      assert Shr(v, 7) == Shr(v / 2, 6) == Shr(v / 2 / 2, 5) == Shr(v / 4 / 2, 4) == Shr(v / 8 / 2, 3);
      assert Shr(v / 16, 3) == Shr(v / 16 / 2, 2) == Shr(v / 32 / 2, 1) == Shr(v / 64 / 2, 0);
    }
    ShrAdd(v, 7, m);
  }

  lemma LowSeven(v: nat)
    ensures Low(v, 7) == v % 128
  {
    ShrSeven(v, 0);
    LowAndHigh(v, 7);
    ShlSeven(v / 128);
  }

  /** Values written one after another. */
  function EncodeAll(values: seq<nat>): seq<Byte> {
    if |values| == 0 then [] else Encode(values[0]) + EncodeAll(values[1..])
  }

  lemma {:induction false} EncodeAllConcat(a: seq<nat>, b: seq<nat>)
    ensures EncodeAll(a + b) == EncodeAll(a) + EncodeAll(b)
  {
    if |a| == 0 {
      assert a + b == b;
    } else {
      assert (a + b)[1..] == a[1..] + b;
      EncodeAllConcat(a[1..], b);
    }
  }

  /** Concatenated values decode uniquely: equal byte strings come from equal value lists. */
  lemma {:induction false} EncodeAllInjective(a: seq<nat>, b: seq<nat>)
    requires EncodeAll(a) == EncodeAll(b)
    ensures a == b
  {
    if |a| > 0 && |b| > 0 {
      DecodeEncode(a[0], EncodeAll(a[1..]));
      DecodeEncode(b[0], EncodeAll(b[1..]));
      EncodeAllInjective(a[1..], b[1..]);
      assert a == [a[0]] + a[1..] && b == [b[0]] + b[1..];
    }
  }

  // ---- typed reads ----

  /** `read_uleb<T>` for an unsigned `T` of `width` bits: bits that do not fit are dropped. */
  function Read(bytes: seq<Byte>, width: nat): (r: Option<(nat, seq<Byte>)>)
    ensures r.Some? ==> |r.value.1| < |bytes| && r.value.0 < Pow2(width)
  {
    var d := Decode(bytes);
    if d.None? then None else Some((Low(d.value.0, width), d.value.1))
  }

  lemma ReadEncode(v: nat, width: nat, rest: seq<Byte>)
    requires v < Pow2(width)
    ensures Read(Encode(v) + rest, width) == Some((v, rest))
  {
    DecodeEncode(v, rest);
    LowOfSmall(v, width);
  }

  /** Reading the first of several values written one after another. */
  lemma ReadFirst(values: seq<nat>, width: nat, rest: seq<Byte>)
    requires |values| > 0 && values[0] < Pow2(width)
    ensures Read(EncodeAll(values) + rest, width) == Some((values[0], EncodeAll(values[1..]) + rest))
  {
    assert EncodeAll(values) + rest == Encode(values[0]) + (EncodeAll(values[1..]) + rest);
    ReadEncode(values[0], width, EncodeAll(values[1..]) + rest);
  }

  // ---- signed values ----

  /** A signed value after `n` rounds of the writer's loop: `value >>= 7` rounds down. */
  function Shifted(v: int, n: nat): int
    decreases n
  {
    if n == 0 then v else Shifted(v / 128, n - 1)
  }

  /** The writer's loop ends, in the round after which the value is zero. */
  ghost predicate WriterEnds(v: int) {
    exists n: nat :: n > 0 && Shifted(v, n) == 0
  }

  lemma {:induction false} NegativeStays(v: int, n: nat)
    requires v < 0
    ensures Shifted(v, n) < 0
    decreases n
  {
    if n > 0 { NegativeStays(v / 128, n - 1); }
  }

  lemma {:induction false} UnsignedEnds(v: nat) returns (n: nat)
    ensures n == |Encode(v)| && Shifted(v, n) == 0
  {
    if v < 128 {
      n := 1;
      assert Shifted(v, 1) == Shifted(v / 128, 0);
    } else {
      var m := UnsignedEnds(v / 128);
      n := m + 1;
    }
  }

  /** Writing a signed value ends exactly when it is not negative. */
  lemma WriterEndsIff(v: int)
    ensures WriterEnds(v) <==> v >= 0
  {
    if v >= 0 {
      var n := UnsignedEnds(v);
    } else {
      forall n: nat ensures Shifted(v, n) < 0 { NegativeStays(v, n); }
    }
  }

  // ---- streams ----

  /** `uleb_writer_t`, without I/O errors. */
  class UlebWriter {
    var bytes: seq<Byte>

    constructor ()
      ensures bytes == []
    {
      bytes := [];
    }

    method WriteUleb(v: nat)
      modifies this
      ensures bytes == old(bytes) + Encode(v)
    {
      var value := v;
      var more := true;
      ghost var left := Encode(v);
      while more
        invariant left == if more then Encode(value) else []
        invariant old(bytes) + Encode(v) == bytes + left
        decreases more, value
      {
        var b := value % 128;
        ghost var after := if value < 128 then [] else Encode(value / 128);
        value := value / 128;
        if value != 0 {
          b := b + 128;
        }
        assert left == [b] + after;
        Appended(bytes, b, after);
        bytes := bytes + [b];
        left := after;
        more := value != 0;
      }
    }
  }

  /** `uleb_reader_t` on a stream holding `data`. */
  class UlebReader {
    const data: seq<Byte>
    var pos: nat

    constructor (data: seq<Byte>)
      ensures this.data == data && pos == 0 && Remaining() == data
    {
      this.data := data;
      pos := 0;
    }

    ghost predicate Valid()
      reads this
    {
      pos <= |data|
    }

    function Remaining(): seq<Byte>
      reads this
    {
      if pos <= |data| then data[pos..] else []
    }

    method Eof() returns (eof: bool)
      requires Valid()
      ensures eof <==> Remaining() == []
    {
      eof := pos >= |data|;
    }

    /** Returns the number of bytes read, 0 on failure. */
    method ReadUleb(width: nat) returns (count: nat, value: nat)
      requires Valid()
      modifies this
      ensures Valid()
      ensures var r := Read(old(Remaining()), width);
              && (r.None? ==> count == 0)
              && (r.Some? ==> count > 0 && value == r.value.0 && Remaining() == r.value.1)
    {
      var all: nat, shift: nat := 0, 0;
      count := 0;
      ghost var start := Remaining();
      NothingRead(Decode(start));
      var more := true;
      while more
        invariant Valid() && shift == 7 * count
        invariant more ==> Decode(start) == Prepend(all, shift, Decode(Remaining()))
        invariant !more ==> count > 0 && Decode(start) == Some((all, Remaining()))
        decreases |data| - pos, more
      {
        if pos >= |data| { return 0, 0; }
        var b := data[pos];
        assert Remaining()[0] == b && Remaining()[1..] == data[pos + 1..];
        ByteRead(start, all, shift, Remaining());
        pos := pos + 1;
        all := all + Shl(b % 128, shift);
        shift := shift + 7;
        count := count + 1;
        more := b >= 128;
      }
      value := Low(all, width);
    }
  }

  lemma Appended(bytes: seq<Byte>, b: Byte, after: seq<Byte>)
    ensures bytes + ([b] + after) == bytes + [b] + after
  {}

  /** A decoded value whose low `shift` bits have been read already. */
  function Prepend(low: nat, shift: nat, rest: Option<(nat, seq<Byte>)>): Option<(nat, seq<Byte>)> {
    if rest.None? then None else Some((low + Shl(rest.value.0, shift), rest.value.1))
  }

  lemma NothingRead(d: Option<(nat, seq<Byte>)>)
    ensures Prepend(0, 0, d) == d
  {}

  /** Reading one more byte of the encoding at `start`. */
  lemma ByteRead(start: seq<Byte>, low: nat, shift: nat, bytes: seq<Byte>)
    requires |bytes| > 0 && Decode(start) == Prepend(low, shift, Decode(bytes))
    ensures var all := low + Shl(bytes[0] % 128, shift);
            Decode(start)
            == if bytes[0] >= 128 then Prepend(all, shift + 7, Decode(bytes[1..])) else Some((all, bytes[1..]))
  {
    if bytes[0] >= 128 { PrependStep(low, shift, bytes); }
  }

  lemma PrependStep(low: nat, shift: nat, bytes: seq<Byte>)
    requires |bytes| > 0 && bytes[0] >= 128
    ensures Prepend(low, shift, Decode(bytes))
            == Prepend(low + Shl(bytes[0] % 128, shift), shift + 7, Decode(bytes[1..]))
  {
    var rest := Decode(bytes[1..]);
    if rest.Some? {
      var v := rest.value.0;
      ShlSum(bytes[0] - 128, 128 * v, shift);
      ShlSeven(v);
      ShlAdd(v, 7, shift);
    }
  }

  lemma ShlSeven(v: nat)
    ensures Shl(v, 7) == 128 * v
  {
    assert Shl(v, 4) == 2 * Shl(v, 3) == 4 * Shl(v, 2) == 8 * Shl(v, 1) == 16 * v;
    assert Shl(v, 7) == 2 * Shl(v, 6) == 4 * Shl(v, 5) == 8 * Shl(v, 4);
  }
}
