/**
 Python's integer operators on unbounded integers, as both source files use
 them: bitwise `&` and `|` on two's-complement integers of any sign, `<<` and
 `>>` by a non-negative count, and floor division `//` with its remainder `%`.
 Dafny's own `/` and `%` are Euclidean; the functions here say where they agree
 with Python's and where they must be adjusted.
 */
module IntBits {

  /** The value range of a NumPy `ubyte` and of a NumPy `ushort`. */
  type u8 = n: int | 0 <= n < 0x100
  type u16 = n: int | 0 <= n < 0x1_0000

  function Pow2(k: nat): (r: nat)
    ensures r >= 1
  {
    if k == 0 then 1 else 2 * Pow2(k - 1)
  }

  function Abs(n: int): nat
  {
    if n < 0 then -n else n
  }

  /**
   Python's `a & b`. An integer is its lowest bit plus twice its floor half,
   and `0` and `-1` are the two integers whose bits are all equal, so the
   recursion strips one bit at a time until one operand is all zeros or all ones.
   */
  function BitAnd(a: int, b: int): (r: int)
    ensures a >= 0 && b >= 0 ==> 0 <= r <= a && r <= b
    decreases Abs(a) + Abs(b)
  {
    if a == 0 || b == 0 then 0
    else if a == -1 then b
    else if b == -1 then a
    else 2 * BitAnd(a / 2, b / 2) + (if a % 2 == 1 && b % 2 == 1 then 1 else 0)
  }

  /**
   Python's `a | b`, by the same bit-at-a-time recursion. On non-negative
   operands it covers both and never exceeds their sum.
   */
  function BitOr(a: int, b: int): (r: int)
    ensures a >= 0 && b >= 0 ==> a <= r && b <= r && r <= a + b
    decreases Abs(a) + Abs(b)
  {
    if a == 0 then b
    else if b == 0 then a
    else if a == -1 || b == -1 then -1
    else 2 * BitOr(a / 2, b / 2) + (if a % 2 == 1 || b % 2 == 1 then 1 else 0)
  }

  /**
   Python's `n << k` for a count `k >= 0`: multiplication, for either sign
   of `n`. No bit is lost, so `>> k` gives `n` back.
   */
  function ShiftLeft(n: int, k: nat): (r: int)
    ensures ShiftRight(r, k) == n
  {
    DivModUnique(n * Pow2(k), Pow2(k), n, 0);
    n * Pow2(k)
  }

  /**
   Python's `n >> k` for a count `k >= 0`: the floor of `n / 2^k`, which
   Dafny's Euclidean division by a positive divisor already is.
   */
  function ShiftRight(n: int, k: nat): (r: int)
    ensures Pow2(k) * r <= n < Pow2(k) * r + Pow2(k)
  {
    n / Pow2(k)
  }

  /** Python's `a // b`: rounds toward negative infinity. */
  function FloorDiv(a: int, b: int): (q: int)
    requires b != 0
    ensures b > 0 ==> b * q <= a < b * q + b
    ensures b < 0 ==> b * q + b < a <= b * q
  {
    if b > 0 then a / b else (-a) / (-b)
  }

  /** Python's `a % b`: the remainder takes the sign of the divisor. */
  function FloorMod(a: int, b: int): (r: int)
    requires b != 0
    ensures b * FloorDiv(a, b) + r == a
    ensures b > 0 ==> 0 <= r < b
    ensures b < 0 ==> b < r <= 0
  {
    a - b * FloorDiv(a, b)
  }

  // ---------------------------------------------------------------------
  // Division facts

  /** For a positive divisor Python's `//` and `%` coincide with Dafny's `/` and `%`. */
  lemma FloorIsEuclidean(a: int, b: int)
    ensures b > 0 ==> FloorDiv(a, b) == a / b && FloorMod(a, b) == a % b
  {
    if b > 0 {
      DivModUnique(a, b, a / b, FloorMod(a, b));
    }
  }

  /** Quotient and remainder are determined by the defining equation. */
  lemma DivModUnique(n: int, d: int, q: int, r: int)
    requires d > 0 && 0 <= r < d && n == d * q + r
    ensures n / d == q && n % d == r
  {
    var q0, r0 := n / d, n % d;
    assert d * (q - q0) == r0 - r;
    if q > q0 {
      MulAtLeast(d, q - q0);
    } else if q < q0 {
      MulAtLeast(d, q0 - q);
    }
  }

  lemma MulAtLeast(d: int, k: int)
    requires d > 0 && k >= 1
    ensures d * k >= d
  {
  }

  /** Nesting a quotient-remainder split inside another, as a ring identity. */
  lemma NestedSplit(a: int, b: int, q1: int, r1: int, q2: int, r2: int)
    requires q1 == b * q2 + r2
    ensures a * q1 + r1 == (a * b) * q2 + (a * r2 + r1)
  {
  }

  /** A digit below `b` at weight `a`, plus a digit below `a`, stays below `a * b`. */
  lemma NestedBound(a: int, b: int, r1: int, r2: int)
    requires a > 0 && 0 <= r1 < a && 0 <= r2 < b
    ensures 0 <= a * r2 + r1 < a * b
  {
    assert a * r2 <= a * (b - 1);
  }

  /** Dividing by `a` then by `b` is dividing by `a * b`; the remainder splits likewise. */
  lemma DivDiv(n: int, a: int, b: int)
    requires a > 0 && b > 0
    ensures n / (a * b) == (n / a) / b
    ensures (n % (a * b)) / a == (n / a) % b
  {
    var q1, r1 := n / a, n % a;
    var q2, r2 := q1 / b, q1 % b;
    NestedSplit(a, b, q1, r1, q2, r2);
    NestedBound(a, b, r1, r2);
    DivModUnique(n, a * b, q2, a * r2 + r1);
    DivModUnique(a * r2 + r1, a, r2, r1);
  }

  /** Scaling by `a` and reducing modulo `a * b` keeps the low part of the scaled value. */
  lemma MulMod(x: int, a: int, b: int)
    requires a > 0 && b > 0
    ensures (x * a) % (a * b) == (x % b) * a
  {
    var q, r := x / b, x % b;
    NestedSplit(a, b, x, 0, q, r);
    NestedBound(a, b, 0, r);
    assert x * a == (a * b) * q + r * a;
    DivModUnique(x * a, a * b, q, r * a);
  }

  lemma Pow2Add(j: nat, k: nat)
    ensures Pow2(j + k) == Pow2(j) * Pow2(k)
  {
    if j > 0 {
      Pow2Add(j - 1, k);
    }
  }

  /** An integer already in `[0, m)` is its own remainder. */
  lemma ModInRange(x: int, m: int)
    ensures 0 <= x < m ==> x % m == x
  {
    if 0 <= x < m {
      DivModUnique(x, m, 0, x);
    }
  }

  /** Quotient and remainder of a non-negative integer by a positive one do not exceed it. */
  lemma DivModShrink(n: int, d: int)
    ensures n >= 0 && d > 0 ==> 0 <= n / d <= n && 0 <= n % d <= n
  {
    if n >= 0 && d > 0 && n / d > 0 {
      MulAtLeast(n / d, d);
    }
  }

  /** Adding a multiple of the modulus does not change the remainder. */
  lemma ModAddMultiple(m: int, q: int, z: int)
    requires m > 0
    ensures (m * q + z) % m == z % m
  {
    var t, r := z / m, z % m;
    assert m * q + z == m * (q + t) + r;
    DivModUnique(m * q + z, m, q + t, r);
  }

  /** Reducing a summand first does not change the sum's remainder. */
  lemma ModAddCongruent(x: int, y: int, m: int)
    requires m > 0
    ensures (x % m + y) % m == (x + y) % m
  {
    ModAddMultiple(m, x / m, x % m + y);
  }

  /** Reducing before negating does not change the remainder of the negation. */
  lemma ModNegCongruent(x: int, m: int)
    requires m > 0
    ensures (-(x % m)) % m == (-x) % m
  {
    ModAddMultiple(m, -(x / m), -(x % m));
  }

  /** Modulo `m`, adding `v` and then subtracting it returns a residue to itself. */
  lemma ModAddSubCancel(x: int, v: int, m: int)
    requires 0 <= x < m
    ensures ((x + v) % m - v) % m == x
    ensures ((x - v) % m + v) % m == x
  {
    ModAddCongruent(x + v, -v, m);
    ModAddCongruent(x - v, v, m);
    ModInRange(x, m);
  }

  /** Modulo `m`, negation of a residue is `m - x` (or 0), it is an additive inverse, and it is an involution. */
  lemma ModNegFacts(x: int, m: int)
    requires 0 <= x < m
    ensures (-x) % m == (if x == 0 then 0 else m - x)
    ensures ((-x) % m + x) % m == 0
    ensures (-((-x) % m)) % m == x
  {
    if x == 0 {
      ModInRange(0, m);
    } else {
      DivModUnique(-x, m, -1, m - x);
      DivModUnique(m, m, 1, 0);
      DivModUnique(-(m - x), m, -1, x);
    }
  }

  /** Modulo `m`, Python's `~x` (that is `-x - 1`) of a residue is `m - 1 - x`. */
  lemma ModComplementFacts(x: int, m: int)
    requires 0 <= x < m
    ensures (-x - 1) % m == m - 1 - x
    ensures (-(m - 1 - x) - 1) % m == x
    ensures ((m - 1 - x) + x) % m == m - 1
    ensures ((m - 1 - x) + 1) % m == (-x) % m
  {
    DivModUnique(-x - 1, m, -1, m - 1 - x);
    ModInRange(x, m);
    ModInRange(m - 1, m);
    ModNegFacts(x, m);
    if x == 0 {
      DivModUnique(m, m, 1, 0);
    } else {
      ModInRange(m - x, m);
    }
  }

  /** Modulo `m`, the successor of a residue wraps to zero exactly at `m - 1`. */
  lemma ModIncrement(x: int, m: int)
    requires 0 <= x < m
    ensures (x + 1) % m == (if x == m - 1 then 0 else x + 1)
  {
    if x == m - 1 {
      DivModUnique(x + 1, m, 1, 0);
    } else {
      ModInRange(x + 1, m);
    }
  }

  /** Shifting left by `k` inside a `w`-bit word and back keeps the low `w - k` bits. */
  lemma ShiftLeftRightInWord(x: int, k: nat, w: nat)
    requires k <= w
    ensures (x * Pow2(k)) % Pow2(w) / Pow2(k) == x % Pow2(w - k)
  {
    Pow2Add(k, w - k);
    MulMod(x, Pow2(k), Pow2(w - k));
    DivModUnique((x % Pow2(w - k)) * Pow2(k), Pow2(k), x % Pow2(w - k), 0);
  }

  /** Halving peels off one bit of a remainder modulo an even power. */
  lemma ModHalf(n: int, p: int)
    requires p > 0
    ensures n % (2 * p) == 2 * ((n / 2) % p) + n % 2
  {
    var q, r := n / 2, n % 2;
    var t, s := q / p, q % p;
    assert n == (2 * p) * t + (2 * s + r);
    DivModUnique(n, 2 * p, t, 2 * s + r);
  }

  lemma MinusOneDiv(p: int)
    requires p > 0
    ensures -1 / p == -1 && -1 % p == p - 1
  {
    DivModUnique(-1, p, -1, p - 1);
  }

  // ---------------------------------------------------------------------
  // Bitwise facts

  /** One step of the `&` recursion, for operands that are neither `0` nor `-1`. */
  lemma BitAndStep(a: int, b: int)
    requires a != 0 && a != -1 && b != 0 && b != -1
    ensures BitAnd(a, b) == 2 * BitAnd(a / 2, b / 2) + (if a % 2 == 1 && b % 2 == 1 then 1 else 0)
  {
  }

  /** The inductive step of `BitAndLowMask`, for `bound == 2 * p`. */
  lemma LowMaskStep(n: int, p: int, bound: int)
    requires p >= 1 && bound == 2 * p
    requires n != 0 && n != -1 ==> BitAnd(n / 2, p - 1) == (n / 2) % p
    ensures BitAnd(n, bound - 1) == n % bound
  {
    if n == -1 {
      MinusOneDiv(bound);
    } else if n != 0 {
      LowMaskUnfold(n, p);
      ModHalfAt(n, p, BitAnd(n, 2 * p - 1));
    }
  }

  lemma LowMaskUnfold(n: int, p: int)
    requires p >= 1 && n != 0 && n != -1
    requires BitAnd(n / 2, p - 1) == (n / 2) % p
    ensures BitAnd(n, 2 * p - 1) == 2 * ((n / 2) % p) + n % 2
  {
    var b := 2 * p - 1;
    DivModUnique(b, 2, p - 1, 1);
    BitAndStep(n, b);
    assert BitAnd(n, b) == 2 * BitAnd(n / 2, p - 1) + (if n % 2 == 1 then 1 else 0);
  }

  lemma ModHalfAt(n: int, p: int, x: int)
    requires p >= 1 && x == 2 * ((n / 2) % p) + n % 2
    ensures x == n % (2 * p)
  {
    ModHalf(n, p);
  }

  /** `n & (2^k - 1)` is `n` reduced modulo `2^k`, for negative `n` too. */
  lemma {:induction false} BitAndLowMask(n: int, k: nat)
    ensures BitAnd(n, Pow2(k) - 1) == n % Pow2(k)
    decreases k
  {
    if k > 0 {
      var p, m, h := Pow2(k - 1), Pow2(k), n / 2;
      assert m == 2 * p;
      if n != 0 && n != -1 {
        BitAndLowMask(h, k - 1);
        assert BitAnd(h, p - 1) == h % p;
      }
      LowMaskStep(n, p, m);
    }
  }

  lemma Twice(a: int, b: int)
    ensures a * (2 * b) == 2 * (a * b)
  {
  }

  /** The inductive step of `BitAndShifted`, for `bound == 2 * p`. */
  lemma ShiftedStep(x: int, m: int, p: int, bound: int)
    requires m >= 1 && p >= 1 && bound == 2 * p
    requires x != 0 && x != -1 ==> BitAnd(x / 2, m * p) == BitAnd((x / 2) / p, m) * p
    ensures BitAnd(x, m * bound) == BitAnd(x / bound, m) * bound
  {
    MulAtLeast(m, p);
    Twice(m, p);
    var big := m * bound;
    if x == 0 {
      assert 0 / bound == 0;
    } else if x == -1 {
      MinusOneDiv(bound);
      assert BitAnd(-1, big) == big;
    } else {
      var lowered := BitAnd(x / bound, m);
      ShiftedUnfold(x, m * p, big);
      DivDiv(x, 2, p);
      assert (x / 2) / p == x / bound;
      Twice(lowered, p);
      calc {
        BitAnd(x, big);
        2 * BitAnd(x / 2, m * p);
        2 * (lowered * p);
        lowered * bound;
      }
    }
  }

  lemma ShiftedUnfold(x: int, half: int, big: int)
    requires half >= 1 && big == 2 * half && x != 0 && x != -1
    ensures BitAnd(x, big) == 2 * BitAnd(x / 2, half)
  {
    BitAndStep(x, big);
  }

  /** Masking with a shifted mask is masking the shifted-down value. */
  lemma {:induction false} BitAndShifted(x: int, m: nat, k: nat)
    ensures BitAnd(x, m * Pow2(k)) == BitAnd(x / Pow2(k), m) * Pow2(k)
    decreases k
  {
    if k > 0 && m != 0 {
      if x != 0 && x != -1 {
        BitAndShifted(x / 2, m, k - 1);
      }
      ShiftedStep(x, m, Pow2(k - 1), Pow2(k));
    }
  }

  /** `(a << k) | b` is `a * 2^k + b` when `b` fits below bit `k`. */
  lemma {:induction false} BitOrDisjoint(a: int, b: int, k: nat)
    ensures 0 <= b < Pow2(k) ==> BitOr(a * Pow2(k), b) == a * Pow2(k) + b
  {
    if 0 <= b < Pow2(k) && k > 0 && a != 0 && b != 0 {
      var p := Pow2(k - 1);
      var big := a * Pow2(k);
      assert big == 2 * (a * p);
      assert big / 2 == a * p && big % 2 == 0;
      BitOrDisjoint(a, b / 2, k - 1);
    }
  }

  /** `n & n == n` and `n | n == n`. */
  lemma {:induction false} BitIdempotent(n: int)
    ensures BitAnd(n, n) == n && BitOr(n, n) == n
    decreases Abs(n)
  {
    if n != 0 && n != -1 {
      BitIdempotent(n / 2);
    }
  }

  /** A byte pair `hi * 256 + lo` splits back into its bytes by `>> 8` and `& 0xFF`. */
  lemma BytePairSplits(n: int, hi: int, lo: int)
    requires 0 <= hi < 0x100 && 0 <= lo < 0x100 && n == hi * 0x100 + lo
    ensures n / Pow2(8) == hi
    ensures BitAnd(n, 0xFF) == lo
  {
    assert Pow2(8) == 0x100;
    DivModUnique(n, 0x100, hi, lo);
    BitAndLowMask(n, 8);
  }

  /**
   Shifting a `w`-bit word left by `a` (dropping what leaves the word) and
   then right by `b >= a` extracts the field of `w - b` bits that starts at
   bit `b - a`.
   */
  lemma ShiftPairField(x: int, a: nat, b: nat, w: nat)
    requires a <= b <= w
    ensures (x * Pow2(a)) % Pow2(w) / Pow2(b) == (x / Pow2(b - a)) % Pow2(w - b)
  {
    var y := (x * Pow2(a)) % Pow2(w);
    var pa, pba, pwb := Pow2(a), Pow2(b - a), Pow2(w - b);
    Pow2Add(a, b - a);
    assert a + (b - a) == b;
    assert Pow2(b) == pa * pba;
    DivDiv(y, pa, pba);
    ShiftLeftRightInWord(x, a, w);
    assert y / pa == x % Pow2(w - a);
    Pow2Add(b - a, w - b);
    assert (b - a) + (w - b) == w - a;
    assert Pow2(w - a) == pba * pwb;
    DivDiv(x, pba, pwb);
  }
}
