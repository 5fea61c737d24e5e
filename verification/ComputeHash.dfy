/** `compute_hash_t`: the loops that turn operands into `k` table indexes
    (validator/rule_cache/dmhc_rule_cache/compute_hash.cc). */
module ComputeHash {
  import opened Bits
  import opened RiscvIsa
  import opened CycleWalk
  import opened FoldHash
  import opened DmhcSpec

  /** The operand fields in hashing order. */
  function Fields(ops: Operands): (fields: seq<nat>)
    ensures |fields| == OPS_LEN
  {
    [ops.pc, ops.ci, ops.op1, ops.op2, ops.op3, ops.mem]
  }

  method Log2Loop(a: nat) returns (res: nat)
    ensures res == Log2(a)
  {
    res := 0;
    while Pow2(res) < a
      invariant res > 0 ==> Pow2(res - 1) < a
      decreases a - Pow2(res)
    {
      res := res + 1;
    }
    LogUnique(a, res);
  }

  lemma {:induction false} AllBitsAppend(widths: seq<nat>, fields: seq<nat>, n: nat)
    requires |widths| == |fields| && n < |widths|
    ensures AllBits(widths[..n + 1], fields[..n + 1])
            == AllBits(widths[..n], fields[..n]) + BitsOf(fields[n], 0, widths[n])
  {
    assert widths[..n + 1][..n] == widths[..n] && fields[..n + 1][..n] == fields[..n];
  }

  /** Where the bits of field `f` begin. */
  function StartOf(widths: seq<nat>, f: nat): nat
    requires f <= |widths|
  {
    if f == 0 then 0 else StartOf(widths, f - 1) + widths[f - 1]
  }

  lemma {:induction false} StartOfPrefix(widths: seq<nat>, f: nat)
    requires f < |widths|
    ensures StartOf(widths[..|widths| - 1], f) == StartOf(widths, f)
  {
    if f > 0 { StartOfPrefix(widths, f - 1); }
  }

  lemma {:induction false} AllBitsLength(widths: seq<nat>, fields: seq<nat>)
    requires |widths| == |fields|
    ensures |AllBits(widths, fields)| == StartOf(widths, |widths|)
  {
    if |widths| > 0 {
      var n := |widths| - 1;
      AllBitsLength(widths[..n], fields[..n]);
      StartOfPrefix(widths, n);
    }
  }

  /** Bit `b` of field `f` is the one at `StartOf(widths, f) + b`. */
  lemma {:induction false} BitPosition(widths: seq<nat>, fields: seq<nat>, f: nat, b: nat)
    requires |widths| == |fields| && f < |widths| && b < widths[f]
    ensures StartOf(widths, f) + b < |AllBits(widths, fields)|
    ensures AllBits(widths, fields)[StartOf(widths, f) + b] == Bit(fields[f], b)
  {
    var n := |widths| - 1;
    if f < n {
      BitPosition(widths[..n], fields[..n], f, b);
      StartOfPrefix(widths, f);
    } else {
      AllBitsLength(widths[..n], fields[..n]);
      StartOfPrefix(widths, n);
    }
  }

  /** `bits` holds the `width` low bits of `v` from position `start` up. */
  predicate HoldsBits(bits: seq<nat>, start: nat, width: nat, v: nat) {
    forall b: nat | b < width :: start + b < |bits| && bits[start + b] == Bit(v, b)
  }

  lemma FieldBits(widths: seq<nat>, fields: seq<nat>, f: nat)
    requires |widths| == |fields| && f < |widths|
    ensures HoldsBits(AllBits(widths, fields), StartOf(widths, f), widths[f], fields[f])
  {
    forall b: nat | b < widths[f]
      ensures StartOf(widths, f) + b < |AllBits(widths, fields)|
      ensures AllBits(widths, fields)[StartOf(widths, f) + b] == Bit(fields[f], b)
    {
      BitPosition(widths, fields, f, b);
    }
  }

  /** The operands are hashed in the order pc, ci, op1, op2, op3, mem, each from its lowest bit up. */
  lemma OperandBits(widths: seq<nat>, ops: Operands, bits: seq<nat>)
    requires |widths| == OPS_LEN && bits == AllBits(widths, Fields(ops))
    ensures HoldsBits(bits, 0, widths[0], ops.pc)
    ensures HoldsBits(bits, StartOf(widths, 1), widths[1], ops.ci)
    ensures HoldsBits(bits, StartOf(widths, 2), widths[2], ops.op1)
    ensures HoldsBits(bits, StartOf(widths, 3), widths[3], ops.op2)
    ensures HoldsBits(bits, StartOf(widths, 4), widths[4], ops.op3)
    ensures HoldsBits(bits, StartOf(widths, 5), widths[5], ops.mem)
    ensures |bits| == StartOf(widths, 6)
  {
    FieldBits(widths, Fields(ops), 0);
    FieldBits(widths, Fields(ops), 1);
    FieldBits(widths, Fields(ops), 2);
    FieldBits(widths, Fields(ops), 3);
    FieldBits(widths, Fields(ops), 4);
    FieldBits(widths, Fields(ops), 5);
    AllBitsLength(widths, Fields(ops));
  }

  lemma BitsOfAppend(v: nat, n: nat, more: nat)
    ensures BitsOf(v, 0, n) + BitsOf(v, n, more) == BitsOf(v, 0, n + more)
  {}

  /** The locals of `fold` after the bits `done`: `result ^ chunk` is their fold so far. */
  predicate Folded(done: seq<nat>, result: nat, chunk: nat, finalPos: nat, width: nat)
    requires width > 0
  {
    && Xor(result, chunk) == FoldBits(done, width)
    && finalPos == Wrap(|done|, width)
    && (finalPos == 0 ==> chunk == 0)
  }

  lemma {:induction false} WrapFull(m: nat, n: nat, width: nat)
    requires width > 0 && n > 0 && Wrap(m, width) + n == width
    ensures Wrap(m + n, width) == 0
  {
    WrapWithin(m, n - 1, width);
  }

  /** XOR-ing the next chunk into the locals accounts for its bits. */
  lemma ChunkFolded(done: seq<nat>, value: nat, from: nat, bits: nat, width: nat, result: nat, chunk: nat)
    requires width > 0 && Wrap(|done|, width) + bits <= width
    requires Xor(result, chunk) == FoldBits(done, width)
    ensures Xor(result, Xor(chunk, Shl(Chunk(value, from, bits), Wrap(|done|, width))))
            == FoldBits(done + BitsOf(value, from, bits), width)
  {
    FoldChunk(done, value, from, bits, width);
    XorAssoc(result, chunk, Shl(Chunk(value, from, bits), Wrap(|done|, width)));
  }

  /** One round of the inner loop: take the bits of a field that fit before the next wrap. */
  method FoldRound(value: nat, from: nat, bits: nat, width: nat, resultIn: nat, chunkIn: nat, finalPosIn: nat,
                   ghost done: seq<nat>)
    returns (result: nat, chunk: nat, finalPos: nat)
    requires width > 0 && bits > 0 && Wrap(|done|, width) + bits <= width
    requires Folded(done, resultIn, chunkIn, finalPosIn, width)
    ensures Folded(done + BitsOf(value, from, bits), result, chunk, finalPos, width)
  {
    result := resultIn;
    var tmp := Shl(Low(Shr(value, from), bits), finalPosIn);
    chunk := Xor(chunkIn, tmp);
    finalPos := finalPosIn + bits;
    ChunkFolded(done, value, from, bits, width, resultIn, chunkIn);
    assert |done + BitsOf(value, from, bits)| == |done| + bits;
    if finalPos >= width {
      WrapFull(|done|, bits, width);
      result := Xor(result, chunk);
      XorZero(result);
      finalPos := 0;
      chunk := 0;
    } else {
      WrapWithin(|done|, bits, width);
    }
  }

  method FoldField(value: nat, fieldWidth: nat, width: nat, resultIn: nat, chunkIn: nat, finalPosIn: nat,
                   ghost done: seq<nat>)
    returns (result: nat, chunk: nat, finalPos: nat)
    requires width > 0 && Folded(done, resultIn, chunkIn, finalPosIn, width)
    ensures Folded(done + BitsOf(value, 0, fieldWidth), result, chunk, finalPos, width)
  {
    result, chunk, finalPos := resultIn, chunkIn, finalPosIn;
    var fieldPos := 0;
    assert done + BitsOf(value, 0, 0) == done;
    while fieldPos < fieldWidth
      invariant fieldPos <= fieldWidth
      invariant Folded(done + BitsOf(value, 0, fieldPos), result, chunk, finalPos, width)
    {
      var bits := if fieldWidth - fieldPos < width - finalPos then fieldWidth - fieldPos else width - finalPos;
      result, chunk, finalPos := FoldRound(value, fieldPos, bits, width, result, chunk, finalPos,
                                           done + BitsOf(value, 0, fieldPos));
      BitsOfAppend(value, fieldPos, bits);
      assert done + BitsOf(value, 0, fieldPos) + BitsOf(value, fieldPos, bits)
             == done + BitsOf(value, 0, fieldPos + bits);
      fieldPos := fieldPos + bits;
    }
  }

  /** XOR-fold the low bits of all fields to the width of the table index. However the bits are
      split into fields, the result depends only on the whole bit vector. */
  method Fold(fieldWidths: array<nat>, fields: array<nat>, hashTableSize: nat) returns (result: nat)
    requires fieldWidths.Length == fields.Length && hashTableSize >= 2
    ensures result == FoldBits(AllBits(fieldWidths[..], fields[..]), Log2(hashTableSize))
  {
    var width := Log2Loop(hashTableSize);
    ghost var ws, fs := fieldWidths[..], fields[..];
    var finalPos, chunk := 0, 0;
    result := 0;
    XorZero(0);
    for field := 0 to fields.Length
      invariant Folded(AllBits(ws[..field], fs[..field]), result, chunk, finalPos, width)
    {
      result, chunk, finalPos :=
        FoldField(fields[field], fieldWidths[field], width, result, chunk, finalPos, AllBits(ws[..field], fs[..field]));
      AllBitsAppend(ws, fs, field);
    }
    assert ws[..fields.Length] == ws && fs[..fields.Length] == fs;
    if finalPos > 0 {
      result := Xor(result, chunk);
    } else {
      XorZero(result);
    }
  }

  /** Spread all fields into one-bit fields. */
  method ConvertToBitFields(origWidths: array<nat>, origFields: array<nat>, fieldWidths: array<nat>, fields: array<nat>)
    requires origWidths.Length == origFields.Length
    requires fieldWidths.Length == fields.Length == |AllBits(origWidths[..], origFields[..])|
    requires {fieldWidths, fields} !! {origWidths, origFields} && fieldWidths != fields
    modifies fieldWidths, fields
    ensures fields[..] == AllBits(origWidths[..], origFields[..])
    ensures forall i | 0 <= i < fieldWidths.Length :: fieldWidths[i] == 1
  {
    ghost var ws, fs := origWidths[..], origFields[..];
    var current := 0;
    assert ws[..|ws|] == ws && fs[..|fs|] == fs;
    for i := 0 to origFields.Length
      invariant ws == origWidths[..] && fs == origFields[..]
      invariant current == |AllBits(ws[..i], fs[..i])| <= fields.Length
      invariant fields[..current] == AllBits(ws[..i], fs[..i])
      invariant forall k | 0 <= k < current :: fieldWidths[k] == 1
    {
      ghost var before := AllBits(ws[..i], fs[..i]);
      AllBitsAppend(ws, fs, i);
      AllBitsGrow(ws, fs, i + 1);
      for j := 0 to origWidths[i]
        invariant ws == origWidths[..] && fs == origFields[..]
        invariant current == |before| + j
        invariant fields[..current] == before + BitsOf(fs[i], 0, j)
        invariant forall k | 0 <= k < current :: fieldWidths[k] == 1
      {
        fieldWidths[current] := 1;
        fields[current] := Bit(origFields[i], j);
        current := current + 1;
      }
    }
  }

  lemma {:induction false} AllBitsGrow(widths: seq<nat>, fields: seq<nat>, n: nat)
    requires |widths| == |fields| && n <= |widths|
    ensures |AllBits(widths[..n], fields[..n])| <= |AllBits(widths, fields)|
    decreases |widths| - n
  {
    if n < |widths| {
      AllBitsAppend(widths, fields, n);
      AllBitsGrow(widths, fields, n + 1);
    } else {
      assert widths[..n] == widths && fields[..n] == fields;
    }
  }

  lemma {:induction false} AllBitsOfBits(widths: seq<nat>, bits: seq<nat>)
    requires |widths| == |bits| && AreBits(bits) && forall i | 0 <= i < |widths| :: widths[i] == 1
    ensures AllBits(widths, bits) == bits
  {
    if |bits| != 0 {
      var n := |bits| - 1;
      AllBitsOfBits(widths[..n], bits[..n]);
      assert BitsOf(bits[n], 0, 1) == [bits[n]] by { assert Bit(bits[n], 0) == bits[n]; }
    }
  }

  /** Hash number 4 to 7: permute the bits by cycle walking, then fold. */
  method ComputeHash(p: seq<nat>, fieldWidths: array<nat>, fields: array<nat>, permuteFields: array<nat>,
                     hashTableSize: nat)
    returns (result: nat)
    requires IsPermutation(p) && fields.Length <= |p| && hashTableSize >= 2
    requires fieldWidths.Length == fields.Length == permuteFields.Length
    requires permuteFields != fields && permuteFields != fieldWidths
    requires AreBits(fields[..]) && forall i | 0 <= i < fieldWidths.Length :: fieldWidths[i] == 1
    modifies permuteFields
    ensures result == Hash(p, fields[..], hashTableSize)
  {
    ghost var bits := fields[..];
    for i := 0 to fields.Length
      invariant fields[..] == bits && permuteFields[..i] == Permuted(p, bits)[..i]
      invariant forall k | 0 <= k < fieldWidths.Length :: fieldWidths[k] == 1
    {
      var tmp := WalkLoop(p, fields.Length, i);
      permuteFields[i] := fields[tmp];
    }
    assert permuteFields[..] == Permuted(p, bits);
    AllBitsOfBits(fieldWidths[..], permuteFields[..]);
    result := Fold(fieldWidths, permuteFields, hashTableSize);
  }

  /** The permutation tables are permutations large enough for all operand bits. */
  ghost predicate ValidTables(perms: seq<seq<nat>>, k: nat, widths: seq<nat>) {
    && |widths| == OPS_LEN && k <= |perms|
    && forall i | 0 <= i < k :: IsPermutation(perms[i]) && forall ops :: |AllBits(widths, Fields(ops))| <= |perms[i]|
  }

  /** All hashes of one operand record. */
  method ComputeHashSet(k: nat, ops: Operands, hashes: array<nat>, fieldWidths: array<nat>, perms: seq<seq<nat>>,
                        capacity: nat)
    requires ValidTables(perms, k, fieldWidths[..]) && capacity >= 2
    requires hashes.Length == k && hashes != fieldWidths
    modifies hashes
    ensures forall i | 0 <= i < k :: hashes[i] == Hash(perms[i], AllBits(fieldWidths[..], Fields(ops)), capacity)
  {
    ghost var all := AllBits(fieldWidths[..], Fields(ops));
    var bits := 0;
    ghost var ws := fieldWidths[..];
    for i := 0 to fieldWidths.Length
      invariant bits == StartOf(ws, i)
    {
      bits := bits + fieldWidths[i];
    }
    AllBitsLength(ws, Fields(ops));
    var bitFieldWidths := new nat[bits];
    var bitFields := new nat[bits];
    var origFields := new nat[] [ops.pc, ops.ci, ops.op1, ops.op2, ops.op3, ops.mem];
    assert origFields[..] == Fields(ops);
    ConvertToBitFields(fieldWidths, origFields, bitFieldWidths, bitFields);
    var permuteBitFields := new nat[bits];
    AllBitsAreBits(ws, Fields(ops));
    for i := 0 to k
      modifies hashes, permuteBitFields
      invariant bitFields[..] == all && forall j | 0 <= j < bits :: bitFieldWidths[j] == 1
      invariant forall j | 0 <= j < i :: hashes[j] == Hash(perms[j], all, capacity)
    {
      hashes[i] := ComputeHash(perms[i], bitFieldWidths, bitFields, permuteBitFields, capacity);
    }
  }

  lemma {:induction false} AllBitsAreBits(widths: seq<nat>, fields: seq<nat>)
    requires |widths| == |fields|
    ensures AreBits(AllBits(widths, fields))
  {
    if |fields| != 0 { AllBitsAreBits(widths[..|widths| - 1], fields[..|fields| - 1]); }
  }

  ghost function TableIndex(perms: seq<seq<nat>>, k: nat, widths: seq<nat>, size: nat, i: nat,
                            ops: Operands): (index: nat)
    requires ValidTables(perms, k, widths) && size >= 2
    ensures AlwaysInTable(size) ==> index < size
  {
    if i < k then
      var permuted := Permuted(perms[i], AllBits(widths, Fields(ops)));
      AllBitsAreBits(widths, Fields(ops));
      assert AreBits(permuted);
      FoldBits(permuted, Log2(size))
    else 0
  }

  /** The configuration `dmhc_rule_cache_t` builds: `c` is 2, hashes come from the tables. */
  ghost function HasherConfig(perms: seq<seq<nat>>, k: nat, widths: seq<nat>, capacity: nat): Config
    requires ValidTables(perms, k, widths) && capacity >= 2
  {
    Config(k, 2 * capacity, capacity,
           (i: nat, ops: Operands) => TableIndex(perms, k, widths, 2 * capacity, i, ops))
  }

  /** With a power-of-two capacity the real hashes stay inside the G-tables, so every result about
      an arbitrary configuration holds for the real one. */
  lemma HasherConfigIsValid(perms: seq<seq<nat>>, k: nat, widths: seq<nat>, capacity: nat)
    requires ValidTables(perms, k, widths) && 1 <= k <= 4 && capacity >= 2 && IsPow2(capacity)
    ensures ValidConfig(HasherConfig(perms, k, widths, capacity))
  {
    var cfg := HasherConfig(perms, k, widths, capacity);
    var e: nat :| capacity == Pow2(e);
    assert 2 * capacity == Pow2(e + 1);
    InTableIffPowerOfTwo(2 * capacity);
  }

  /** Operand records that differ in exactly one hashed bit never collide, in any table. */
  lemma OneBitApartNeverCollides(perms: seq<seq<nat>>, k: nat, widths: seq<nat>, capacity: nat, a: Operands,
                                 b: Operands, at: nat, i: nat)
    requires ValidTables(perms, k, widths) && capacity >= 2 && i < k
    requires DifferOnlyAt(AllBits(widths, Fields(a)), AllBits(widths, Fields(b)), at)
    ensures var cfg := HasherConfig(perms, k, widths, capacity); cfg.hash(i, a) != cfg.hash(i, b)
  {
    AllBitsAreBits(widths, Fields(a));
    AllBitsAreBits(widths, Fields(b));
    HashSeparatesOneBit(perms[i], AllBits(widths, Fields(a)), AllBits(widths, Fields(b)), at, 2 * capacity);
  }
}
