/** The hash functions of the multi-hash cache as functions on bit vectors, and their laws
    (validator/rule_cache/dmhc_rule_cache/compute_hash.cc). */
module FoldHash {
  import opened Bits
  import opened CycleWalk

  /** The `n` bits of `v` from position `from` up. */
  function BitsOf(v: nat, from: nat, n: nat): (bits: seq<nat>)
    ensures |bits| == n && AreBits(bits)
  {
    var bits := seq<nat>(n, j requires 0 <= j < n => Bit(v, from + j));
    assert forall i | 0 <= i < n :: bits[i] == Bit(v, from + i);
    bits
  }

  /** The low `widths[i]` bits of every field, one field after another. */
  function AllBits(widths: seq<nat>, fields: seq<nat>): seq<nat>
    requires |widths| == |fields|
  {
    if |fields| == 0 then []
    else AllBits(widths[..|widths| - 1], fields[..|fields| - 1]) + BitsOf(fields[|fields| - 1], 0, widths[|widths| - 1])
  }

  predicate AreBits(s: seq<nat>) {
    forall i | 0 <= i < |s| :: s[i] < 2
  }

  /** `j mod width`, as a counter that wraps to 0 when it reaches `width`. */
  function Wrap(j: nat, width: nat): (r: nat)
    requires width > 0
    ensures r < width
  {
    if j == 0 then 0
    else if Wrap(j - 1, width) + 1 == width then 0
    else Wrap(j - 1, width) + 1
  }

  lemma {:induction false} WrapIsMod(j: nat, width: nat)
    requires width > 0
    ensures Wrap(j, width) == j % width
  {
    if j != 0 {
      WrapIsMod(j - 1, width);
      var q, r := (j - 1) / width, (j - 1) % width;
      if r + 1 == width {
        DivModIs(j, width, q + 1, 0);
      } else {
        DivModIs(j, width, q, r + 1);
      }
    }
  }

  lemma DivModIs(u: nat, d: nat, q: nat, r: nat)
    requires d > 0 && u == q * d + r && r < d
    ensures u / d == q && u % d == r
  {
    TimesMonotonic(u / d + 1, q, d);
    TimesMonotonic(q + 1, u / d, d);
  }

  lemma TimesMonotonic(a: nat, b: nat, d: nat)
    ensures a <= b ==> a * d <= b * d
  {}

  lemma {:induction false} WrapWithin(m: nat, n: nat, width: nat)
    requires width > 0 && Wrap(m, width) + n < width
    ensures Wrap(m + n, width) == Wrap(m, width) + n
  {
    if n != 0 { WrapWithin(m, n - 1, width); }
  }

  /** XOR of all bits, bit `j` shifted left by `j mod width`. */
  function FoldBits(bits: seq<nat>, width: nat): nat
    requires width > 0
  {
    if |bits| == 0 then 0
    else
      var j := |bits| - 1;
      Xor(FoldBits(bits[..j], width), Shl(bits[j], Wrap(j, width)))
  }

  /** The smallest `r` with `a <= 2^r`. */
  function Log2(a: nat): (r: nat)
    ensures a <= Pow2(r) && (r > 0 ==> Pow2(r - 1) < a)
  {
    if a <= 1 then 0
    else
      var r := Log2((a + 1) / 2);
      r + 1
  }

  lemma {:induction false} LogUnique(a: nat, r: nat)
    requires a <= Pow2(r) && (r > 0 ==> Pow2(r - 1) < a)
    ensures r == Log2(a)
  {
    if r < Log2(a) { PowMonotonic(r, Log2(a) - 1); }
    if Log2(a) < r { PowMonotonic(Log2(a), r - 1); }
  }

  // ---- folding a chunk of bits at once ----

  /** XOR of `low`, of fewer than `n` bits, with the next bit `b`, all shifted by `f`. */
  lemma NextBit(folded: nat, low: nat, b: nat, n: nat, f: nat)
    requires low < Pow2(n)
    ensures Xor(Xor(folded, Shl(low, f)), Shl(b, n + f)) == Xor(folded, Shl(low + Shl(b, n), f))
  {
    XorAssoc(folded, Shl(low, f), Shl(b, n + f));
    ShlAdd(b, n, f);
    XorShift(low, Shl(b, n), f);
    XorHigh(low, b, n);
  }

  /** Bits `from .. from + n` of `v`, as a number. */
  function Chunk(v: nat, from: nat, n: nat): nat {
    Low(Shr(v, from), n)
  }

  lemma {:induction false} FoldSnoc(bits: seq<nat>, b: nat, width: nat)
    requires width > 0
    ensures FoldBits(bits + [b], width) == Xor(FoldBits(bits, width), Shl(b, Wrap(|bits|, width)))
  {
    assert (bits + [b])[..|bits|] == bits;
  }

  lemma FoldNothing(bits: seq<nat>, v: nat, from: nat, width: nat)
    requires width > 0
    ensures FoldBits(bits + BitsOf(v, from, 0), width) == Xor(FoldBits(bits, width), Shl(0, Wrap(|bits|, width)))
  {
    assert bits + BitsOf(v, from, 0) == bits;
    XorZero(FoldBits(bits, width));
    ShlBit(0, Wrap(|bits|, width));
  }

  /** One more bit `b` after the bits `init`, whose fold is `folded` XOR the bits `low` at position `f`. */
  lemma FoldNextBit(init: seq<nat>, folded: nat, low: nat, b: nat, n: nat, f: nat, width: nat)
    requires width > 0 && low < Pow2(n) && Wrap(|init|, width) == n + f
    requires FoldBits(init, width) == Xor(folded, Shl(low, f))
    ensures FoldBits(init + [b], width) == Xor(folded, Shl(low + Shl(b, n), f))
  {
    FoldSnoc(init, b, width);
    NextBit(folded, low, b, n, f);
  }

  /** Folding `n` bits that fit before the next wrap is XOR with one shifted word. */
  lemma {:induction false} FoldChunk(bits: seq<nat>, v: nat, from: nat, n: nat, width: nat)
    requires width > 0 && Wrap(|bits|, width) + n <= width
    ensures FoldBits(bits + BitsOf(v, from, n), width)
            == Xor(FoldBits(bits, width), Shl(Chunk(v, from, n), Wrap(|bits|, width)))
  {
    if n == 0 {
      FoldNothing(bits, v, from, width);
    } else {
      var init, b := bits + BitsOf(v, from, n - 1), Bit(v, from + n - 1);
      assert bits + BitsOf(v, from, n) == init + [b];
      FoldChunk(bits, v, from, n - 1, width);
      WrapWithin(|bits|, n - 1, width);
      ChunkNext(v, from, n);
      FoldNextBit(init, FoldBits(bits, width), Chunk(v, from, n - 1), b, n - 1, Wrap(|bits|, width), width);
    }
  }

  lemma ChunkNext(v: nat, from: nat, n: nat)
    requires n > 0
    ensures Chunk(v, from, n) == Chunk(v, from, n - 1) + Shl(Bit(v, from + n - 1), n - 1)
  {
    ShrAdd(v, from, n - 1);
    LowNext(Shr(v, from), n - 1);
  }

  // ---- laws of the fold ----

  lemma {:induction false} FoldBelow(bits: seq<nat>, width: nat)
    requires width > 0 && AreBits(bits)
    ensures FoldBits(bits, width) < Pow2(width)
  {
    if |bits| != 0 {
      var j := |bits| - 1;
      FoldBelow(bits[..j], width);
      PowMonotonic(Wrap(j, width) + 1, width);
      ShlBit(bits[j], Wrap(j, width));
      XorBound(FoldBits(bits[..j], width), Shl(bits[j], Wrap(j, width)), width);
    }
  }

  /** Bitwise exclusive or of two bit vectors of the same length. */
  function XorBits(a: seq<nat>, b: seq<nat>): (c: seq<nat>)
    requires |a| == |b|
    ensures |c| == |a| && AreBits(c)
  {
    seq(|a|, i requires 0 <= i < |a| => if a[i] == b[i] then 0 else 1)
  }

  lemma XorOfBits(a: nat, b: nat)
    requires a < 2 && b < 2
    ensures Xor(a, b) == if a == b then 0 else 1
  {}

  lemma {:induction false} FoldLinear(a: seq<nat>, b: seq<nat>, width: nat)
    requires width > 0 && |a| == |b| && AreBits(a) && AreBits(b)
    ensures FoldBits(XorBits(a, b), width) == Xor(FoldBits(a, width), FoldBits(b, width))
  {
    if |a| == 0 {
      XorZero(0);
    } else {
      var j := |a| - 1;
      var f := Wrap(j, width);
      FoldLinear(a[..j], b[..j], width);
      assert a == a[..j] + [a[j]] && b == b[..j] + [b[j]];
      assert XorBits(a, b) == XorBits(a[..j], b[..j]) + [if a[j] == b[j] then 0 else 1];
      FoldSnoc(a[..j], a[j], width);
      FoldSnoc(b[..j], b[j], width);
      FoldSnoc(XorBits(a[..j], b[..j]), if a[j] == b[j] then 0 else 1, width);
      XorShift(a[j], b[j], f);
      XorOfBits(a[j], b[j]);
      XorInterchange(FoldBits(a[..j], width), FoldBits(b[..j], width), Shl(a[j], f), Shl(b[j], f));
    }
  }

  /** A bit vector with a single one, at `at`, folds to a single one. */
  lemma {:induction false} FoldUnit(bits: seq<nat>, at: nat, width: nat)
    requires width > 0 && (forall i | 0 <= i < |bits| :: bits[i] == if i == at then 1 else 0)
    ensures FoldBits(bits, width) == if at < |bits| then Pow2(Wrap(at, width)) else 0
  {
    if |bits| != 0 {
      FoldUnit(bits[..|bits| - 1], at, width);
      ShlBit(bits[|bits| - 1], Wrap(|bits| - 1, width));
      XorZero(Pow2(Wrap(at, width)));
      XorZero(0);
    }
  }

  predicate DifferOnlyAt(a: seq<nat>, b: seq<nat>, at: nat) {
    && |a| == |b| && at < |a| && a[at] != b[at]
    && forall i | 0 <= i < |a| && i != at :: a[i] == b[i]
  }

  /** Flipping one input bit flips exactly the output bit it is folded onto. */
  lemma FoldFlip(a: seq<nat>, b: seq<nat>, at: nat, width: nat)
    requires width > 0 && AreBits(a) && AreBits(b) && DifferOnlyAt(a, b, at)
    ensures Xor(FoldBits(a, width), FoldBits(b, width)) == Pow2(Wrap(at, width))
    ensures FoldBits(a, width) != FoldBits(b, width)
  {
    FoldLinear(a, b, width);
    var d := XorBits(a, b);
    assert forall i | 0 <= i < |d| :: d[i] == if i == at then 1 else 0;
    FoldUnit(d, at, width);
    XorSelf(FoldBits(a, width));
  }

  // ---- one hash: permute, then fold ----

  /** `permute_fields[i] = fields[walk(i)]` */
  function Permuted(p: seq<nat>, bits: seq<nat>): (r: seq<nat>)
    requires IsPermutation(p) && |bits| <= |p|
    ensures |r| == |bits|
  {
    seq(|bits|, i requires 0 <= i < |bits| => bits[Walk(p, |bits|, i)])
  }

  /** One hash of a bit vector, for a table of `size` slots. */
  function Hash(p: seq<nat>, bits: seq<nat>, size: nat): nat
    requires IsPermutation(p) && |bits| <= |p| && size >= 2
  {
    FoldBits(Permuted(p, bits), Log2(size))
  }

  /** Two operand records that differ in exactly one hashed bit differ under every hash. */
  lemma HashSeparatesOneBit(p: seq<nat>, a: seq<nat>, b: seq<nat>, at: nat, size: nat)
    requires IsPermutation(p) && |a| <= |p| && size >= 2
    requires AreBits(a) && AreBits(b) && DifferOnlyAt(a, b, at)
    ensures Hash(p, a, size) != Hash(p, b, size)
  {
    WalkIsBijection(p, |a|);
    assert IsWalkOf(p, |a|, at);
    var i: nat :| i < |a| && Walk(p, |a|, i) == at;
    forall j | 0 <= j < |a| && j != i ensures Walk(p, |a|, j) != at {
      assert i < j ==> Walk(p, |a|, i) != Walk(p, |a|, j);
      assert j < i ==> Walk(p, |a|, j) != Walk(p, |a|, i);
    }
    assert DifferOnlyAt(Permuted(p, a), Permuted(p, b), i);
    FoldFlip(Permuted(p, a), Permuted(p, b), i, Log2(size));
  }

  /** The bit at the end of the walk from `i` is folded onto index bit `i` modulo the width. */
  lemma HashOfUnit(p: seq<nat>, bits: seq<nat>, i: nat, size: nat)
    requires IsPermutation(p) && i < |bits| <= |p| && size >= 2
    requires forall j | 0 <= j < |bits| :: bits[j] == if j == Walk(p, |bits|, i) then 1 else 0
    ensures Hash(p, bits, size) == Pow2(i % Log2(size))
  {
    var permuted := Permuted(p, bits);
    WalkIsBijection(p, |bits|);
    forall j | 0 <= j < |bits| ensures permuted[j] == if j == i then 1 else 0 {
      assert i < j ==> Walk(p, |bits|, i) != Walk(p, |bits|, j);
      assert j < i ==> Walk(p, |bits|, j) != Walk(p, |bits|, i);
    }
    FoldUnit(permuted, i, Log2(size));
    WrapIsMod(i, Log2(size));
  }

  ghost predicate IsPow2(n: nat) {
    exists e: nat :: n == Pow2(e)
  }

  ghost predicate AlwaysInTable(size: nat)
    requires size >= 2
  {
    forall bits | AreBits(bits) :: FoldBits(bits, Log2(size)) < size
  }

  /** The hashes always index a table of `size` slots exactly when `size` is a power of two. */
  lemma InTableIffPowerOfTwo(size: nat)
    requires size >= 2
    ensures AlwaysInTable(size) <==> IsPow2(size)
  {
    var w := Log2(size);
    if IsPow2(size) {
      var e: nat :| size == Pow2(e);
      LogUnique(size, e);
      forall bits | AreBits(bits) ensures FoldBits(bits, w) < size { FoldBelow(bits, w); }
    } else {
      var v: nat := Pow2(w) - 1;
      FoldOfWord(v, w);
      assert FoldBits(BitsOf(v, 0, w), w) >= size;
    }
  }

  lemma FoldOfWord(v: nat, w: nat)
    requires w > 0 && v < Pow2(w)
    ensures FoldBits(BitsOf(v, 0, w), w) == v
  {
    FoldChunk([], v, 0, w, w);
    assert [] + BitsOf(v, 0, w) == BitsOf(v, 0, w);
    LowOfSmall(v, w);
    XorZero(v);
  }
}
