/** Binary arithmetic on natural numbers: powers of two and bitwise exclusive or.
    The modelled C++ code applies `^`, `<<`, `>>` and `&` to non-negative words only, so a word
    is a `nat`, a shift is a multiplication or division by `Pow2`, and `^` is `Xor`. */
module Bits {

  function Pow2(n: nat): (p: nat)
    ensures p > 0
  {
    if n == 0 then 1 else 2 * Pow2(n - 1)
  }

  /** Bitwise exclusive or, one binary digit at a time. */
  function Xor(x: nat, y: nat): nat
    decreases x + y
  {
    if x == 0 && y == 0 then 0 else (x + y) % 2 + 2 * Xor(x / 2, y / 2)
  }

  lemma LowDigit(d: nat, rest: nat)
    requires d < 2
    ensures (d + 2 * rest) % 2 == d && (d + 2 * rest) / 2 == rest
  {}

  lemma {:induction false} XorUnfold(x: nat, y: nat)
    ensures Xor(x, y) % 2 == (x + y) % 2
    ensures Xor(x, y) / 2 == Xor(x / 2, y / 2)
  {
    if x != 0 || y != 0 { LowDigit((x + y) % 2, Xor(x / 2, y / 2)); }
  }

  lemma {:induction false} SameDigits(a: nat, b: nat)
    requires a % 2 == b % 2 && a / 2 == b / 2
    ensures a == b
  {}

  lemma ParityAssoc(x: nat, y: nat, z: nat, xy: nat, yz: nat, left: nat, right: nat)
    requires xy % 2 == (x + y) % 2 && yz % 2 == (y + z) % 2
    requires left % 2 == (xy + z) % 2 && right % 2 == (x + yz) % 2
    ensures left % 2 == right % 2
  {}

  lemma {:induction false} XorComm(x: nat, y: nat)
    ensures Xor(x, y) == Xor(y, x)
    decreases x + y
  {
    if x != 0 || y != 0 { XorComm(x / 2, y / 2); }
  }

  lemma {:induction false} XorZero(x: nat)
    ensures Xor(x, 0) == x && Xor(0, x) == x
  {
    if x != 0 { XorZero(x / 2); }
  }

  lemma {:induction false} XorSelf(x: nat)
    ensures Xor(x, x) == 0
  {
    if x != 0 { XorSelf(x / 2); }
  }

  lemma {:induction false} XorParity(x: nat, y: nat, z: nat)
    ensures Xor(Xor(x, y), z) % 2 == Xor(x, Xor(y, z)) % 2
  {
    XorUnfold(x, y);
    XorUnfold(y, z);
    XorUnfold(Xor(x, y), z);
    XorUnfold(x, Xor(y, z));
    ParityAssoc(x, y, z, Xor(x, y), Xor(y, z), Xor(Xor(x, y), z), Xor(x, Xor(y, z)));
  }

  lemma {:induction false} XorAssoc(x: nat, y: nat, z: nat)
    ensures Xor(Xor(x, y), z) == Xor(x, Xor(y, z))
    decreases x + y + z
  {
    if x != 0 || y != 0 || z != 0 {
      XorParity(x, y, z);
      XorAssoc(x / 2, y / 2, z / 2);
      XorUnfold(x, y);
      XorUnfold(y, z);
      XorUnfold(Xor(x, y), z);
      XorUnfold(x, Xor(y, z));
      SameDigits(Xor(Xor(x, y), z), Xor(x, Xor(y, z)));
    }
  }

  /** A power-of-two range is closed under exclusive or. */
  lemma {:induction false} XorBound(x: nat, y: nat, n: nat)
    requires x < Pow2(n) && y < Pow2(n)
    ensures Xor(x, y) < Pow2(n)
    decreases n
  {
    if n != 0 { XorBound(x / 2, y / 2, n - 1); }
  }

  /** (a ^ b) ^ c == (a ^ c) ^ b */
  lemma XorSwapRight(a: nat, b: nat, c: nat)
    ensures Xor(Xor(a, b), c) == Xor(Xor(a, c), b)
  {
    XorAssoc(a, b, c);
    XorComm(b, c);
    XorAssoc(a, c, b);
  }

  lemma {:induction false} PowMonotonic(m: nat, n: nat)
    requires m <= n
    ensures Pow2(m) <= Pow2(n)
    decreases n
  {
    if m < n { PowMonotonic(m, n - 1); }
  }

  /** `x << m` */
  function Shl(x: nat, m: nat): nat {
    if m == 0 then x else 2 * Shl(x, m - 1)
  }

  /** `x >> m` */
  function Shr(x: nat, m: nat): nat {
    if m == 0 then x else Shr(x / 2, m - 1)
  }

  /** `x & ((1 << n) - 1)` */
  function Low(x: nat, n: nat): (r: nat)
    ensures r < Pow2(n)
  {
    if n == 0 then 0 else x % 2 + 2 * Low(x / 2, n - 1)
  }

  /** `(x >> j) & 1` */
  function Bit(x: nat, j: nat): (b: nat)
    ensures b < 2
  {
    Shr(x, j) % 2
  }

  /** A word is its low `n` digits plus the rest shifted back. */
  lemma {:induction false} LowAndHigh(x: nat, n: nat)
    ensures x == Low(x, n) + Shl(Shr(x, n), n)
  {
    if n != 0 { LowAndHigh(x / 2, n - 1); }
  }

  lemma {:induction false} LowOfSmall(x: nat, n: nat)
    requires x < Pow2(n)
    ensures Low(x, n) == x
  {
    if n != 0 { LowOfSmall(x / 2, n - 1); }
  }

  lemma {:induction false} ShrAdd(x: nat, m: nat, n: nat)
    ensures Shr(Shr(x, m), n) == Shr(x, m + n)
  {
    if m != 0 { ShrAdd(x / 2, m - 1, n); }
  }

  /** `n + 1` low digits are `n` low digits and the next one. */
  lemma {:induction false} LowNext(x: nat, n: nat)
    ensures Low(x, n + 1) == Low(x, n) + Shl(Bit(x, n), n)
  {
    if n != 0 { LowNext(x / 2, n - 1); }
  }

  lemma {:induction false} ShlBit(b: nat, n: nat)
    requires b < 2
    ensures Shl(b, n) == if b == 0 then 0 else Pow2(n)
  {
    if n != 0 { ShlBit(b, n - 1); }
  }

  lemma {:induction false} ShlAdd(x: nat, m: nat, n: nat)
    ensures Shl(Shl(x, m), n) == Shl(x, m + n)
  {
    if n != 0 { ShlAdd(x, m, n - 1); }
  }

  lemma {:induction false} ShlSum(x: nat, y: nat, m: nat)
    ensures Shl(x + y, m) == Shl(x, m) + Shl(y, m)
  {
    if m != 0 { ShlSum(x, y, m - 1); }
  }

  lemma {:induction false} XorDouble(x: nat, y: nat)
    ensures Xor(2 * x, 2 * y) == 2 * Xor(x, y)
  {
    if x != 0 || y != 0 {
      assert (2 * x + 2 * y) % 2 == 0 && (2 * x) / 2 == x && (2 * y) / 2 == y;
    }
  }

  /** Shifting both words left by `m` shifts their exclusive or. */
  lemma {:induction false} XorShift(x: nat, y: nat, m: nat)
    ensures Xor(Shl(x, m), Shl(y, m)) == Shl(Xor(x, y), m)
  {
    if m != 0 {
      XorShift(x, y, m - 1);
      XorDouble(Shl(x, m - 1), Shl(y, m - 1));
    }
  }

  lemma {:induction false} XorEven(x: nat, h: nat)
    ensures Xor(x, 2 * h) == x % 2 + 2 * Xor(x / 2, h)
  {
    if x != 0 || h != 0 {
      assert (x + 2 * h) % 2 == x % 2 && (2 * h) / 2 == h;
    }
  }

  /** A digit above all digits of `x` is added without carries. */
  lemma {:induction false} XorHigh(x: nat, d: nat, n: nat)
    requires x < Pow2(n)
    ensures Xor(x, Shl(d, n)) == x + Shl(d, n)
    decreases n
  {
    if n == 0 {
      XorZero(d);
    } else {
      XorHigh(x / 2, d, n - 1);
      XorEven(x, Shl(d, n - 1));
    }
  }

  /** Rearranging (a ^ b) ^ (c ^ d). */
  lemma XorInterchange(a: nat, b: nat, c: nat, d: nat)
    ensures Xor(Xor(a, b), Xor(c, d)) == Xor(Xor(a, c), Xor(b, d))
  {
    XorAssoc(Xor(a, b), c, d);
    XorSwapRight(a, b, c);
    XorAssoc(Xor(a, c), b, d);
  }
}
