/**
 The wrapping fixed-width integers of `byte.py`: class `Byte` (8 bits) and its
 subclass `Short` (16 bits).

 An instance is its class and its `num` attribute. Every out-of-place operator
 computes with Python integers and rebuilds the result through `type(self)`,
 whose constructor masks to the class's width; the in-place operators store the
 unmasked Python result in `num`. So `num` is an unbounded integer here, and
 `Valid` is the range invariant the constructor establishes and the in-place
 operators may break.

 The right-hand operand is either an instance of the same class (its `num` is
 used) or a plain integer (used as is). Mixing a `Byte` with a `Short` is
 outside the model: the source's `type(other) is type(self)` test fails for it
 and the result depends on Python's reflected-operator dispatch.
 */
module FixedWidth {
  import opened IntBits
  import opened Outcomes

  /** The class of an instance, which decides the mask `type(self)` applies. */
  datatype Kind = Byte | Short

  function BitWidth(k: Kind): nat
  {
    match k
    case Byte => 8
    case Short => 16
  }

  /** One more than the constructor's mask: `0xFF + 1` and `0xFFFF + 1`. */
  function Modulus(k: Kind): nat
  {
    match k
    case Byte => 0x100
    case Short => 0x1_0000
  }

  datatype Word = Word(kind: Kind, num: int) {
    /** The range every constructor call establishes. */
    predicate Valid()
    {
      0 <= num < Modulus(kind)
    }
  }

  /** The right-hand operand of a binary operator. */
  datatype Operand = Same(word: Word) | Plain(n: int)

  predicate Compatible(a: Word, other: Operand)
  {
    other.Same? ==> other.word.kind == a.kind
  }

  /** `other.num if type(other) is type(self) else other` */
  function Value(a: Word, other: Operand): int
    requires Compatible(a, other)
  {
    if other.Same? then other.word.num else other.n
  }

  lemma ModulusIsPow2(k: Kind)
    ensures Modulus(k) == Pow2(BitWidth(k))
  {
    match k
    case Byte => assert Pow2(8) == 0x100;
    case Short => assert Pow2(16) == 0x1_0000;
  }

  // ---------------------------------------------------------------------
  // Construction

  /**
   `Byte(num)` / `Short(num)`: a truthy argument is masked with `& 0xFF`
   (`& 0xFFFF`); `None` and `0` give zero. Masking `0` also gives zero, so
   only `None` needs its own case. Python's `&` with an all-ones mask is
   Dafny's Euclidean `%` (see `MaskIsPythonAnd`), which is what is written here.
   */
  function New(k: Kind, arg: Option<int>): (r: Word)
    ensures r.kind == k && r.Valid()
  {
    match arg
    case None => Word(k, 0)
    case Some(n) => Word(k, n % Modulus(k))
  }

  /** The constructor's mask is Python's `&` with `0xFF` (`0xFFFF`), for every integer including negative ones. */
  lemma MaskIsPythonAnd(k: Kind, n: int)
    ensures New(k, Some(n)).num == BitAnd(n, Modulus(k) - 1)
  {
    ModulusIsPow2(k);
    BitAndLowMask(n, BitWidth(k));
  }

  /** `type(self)(n)`: how every out-of-place operator builds its result. */
  function Rebuild(k: Kind, n: int): Word
  {
    New(k, Some(n))
  }

  // ---------------------------------------------------------------------
  // Arithmetic operators

  /** `a + other` (`__add__`). */
  function Add(a: Word, other: Operand): (r: Word)
    requires Compatible(a, other)
    ensures r.kind == a.kind && r.Valid()
    ensures r.num == (a.num + Value(a, other)) % Modulus(a.kind)
  {
    Rebuild(a.kind, a.num + Value(a, other))
  }

  /** `other + a` with `a` on the right (`__radd__`, which calls `__add__`). */
  function RAdd(a: Word, other: Operand): (r: Word)
    requires Compatible(a, other)
    ensures r.kind == a.kind && r.Valid()
    ensures r.num == (Value(a, other) + a.num) % Modulus(a.kind)
  {
    Add(a, other)
  }

  /** `a += other` (`__iadd__`): stores the unmasked sum. */
  function IAdd(a: Word, other: Operand): (r: Word)
    requires Compatible(a, other)
    ensures r.kind == a.kind
    ensures r.num - a.num == Value(a, other)
  {
    a.(num := a.num + Value(a, other))
  }

  /** `a - other` (`__sub__`). */
  function Sub(a: Word, other: Operand): (r: Word)
    requires Compatible(a, other)
    ensures r.kind == a.kind && r.Valid()
    ensures r.num == (a.num - Value(a, other)) % Modulus(a.kind)
  {
    Rebuild(a.kind, a.num - Value(a, other))
  }

  /** `other - a` with `a` on the right (`__rsub__`). */
  function RSub(a: Word, other: Operand): (r: Word)
    requires Compatible(a, other)
    ensures r.kind == a.kind && r.Valid()
    ensures r.num == (Value(a, other) - a.num) % Modulus(a.kind)
  {
    Rebuild(a.kind, Value(a, other) - a.num)
  }

  /** `a -= other` (`__isub__`): stores the unmasked difference. */
  function ISub(a: Word, other: Operand): (r: Word)
    requires Compatible(a, other)
    ensures r.kind == a.kind
    ensures a.num - r.num == Value(a, other)
  {
    a.(num := a.num - Value(a, other))
  }

  /** `a * other` (`__mul__`). */
  function Mul(a: Word, other: Operand): (r: Word)
    requires Compatible(a, other)
    ensures r.kind == a.kind && r.Valid()
    ensures r.num == (a.num * Value(a, other)) % Modulus(a.kind)
  {
    Rebuild(a.kind, a.num * Value(a, other))
  }

  /** `other * a` with `a` on the right (`__rmul__`, which calls `__mul__`). */
  function RMul(a: Word, other: Operand): (r: Word)
    requires Compatible(a, other)
    ensures r.kind == a.kind && r.Valid()
    ensures r.num == (Value(a, other) * a.num) % Modulus(a.kind)
  {
    assert Value(a, other) * a.num == a.num * Value(a, other);
    Mul(a, other)
  }

  /**
   `a / other` and `a // other` (`__truediv__`, and `__floordiv__` which calls
   it): both use Python's floor division, so a negative divisor rounds down.
   */
  function Div(a: Word, other: Operand): (r: Word)
    requires Compatible(a, other) && Value(a, other) != 0
    ensures r.kind == a.kind && r.Valid()
    ensures a.Valid() && Value(a, other) > 0 ==> r.num == a.num / Value(a, other) <= a.num
  {
    var q := FloorDiv(a.num, Value(a, other));
    DivModShrink(a.num, Value(a, other));
    ModInRange(q, Modulus(a.kind));
    Rebuild(a.kind, q)
  }

  /** `a % other` (`__mod__`): Python's remainder, with the sign of the divisor. */
  function Mod(a: Word, other: Operand): (r: Word)
    requires Compatible(a, other) && Value(a, other) != 0
    ensures r.kind == a.kind && r.Valid()
    ensures a.Valid() && Value(a, other) > 0 ==> r.num == a.num % Value(a, other) && r.num < Value(a, other)
  {
    var m := FloorMod(a.num, Value(a, other));
    FloorIsEuclidean(a.num, Value(a, other));
    DivModShrink(a.num, Value(a, other));
    ModInRange(m, Modulus(a.kind));
    Rebuild(a.kind, m)
  }

  // ---------------------------------------------------------------------
  // Shifts

  /** `a << other` (`__lshift__`); Python refuses a negative count. */
  function LShift(a: Word, other: Operand): (r: Word)
    requires Compatible(a, other) && Value(a, other) >= 0
    ensures r.kind == a.kind && r.Valid()
    ensures r.num == (a.num * Pow2(Value(a, other))) % Modulus(a.kind)
  {
    Rebuild(a.kind, ShiftLeft(a.num, Value(a, other)))
  }

  /** `a <<= other` (`__ilshift__`): stores the unmasked product. */
  function ILShift(a: Word, other: Operand): (r: Word)
    requires Compatible(a, other) && Value(a, other) >= 0
    ensures r.kind == a.kind
    ensures r.num == a.num * Pow2(Value(a, other))
  {
    a.(num := ShiftLeft(a.num, Value(a, other)))
  }

  /** `a >> other` (`__rshift__`). */
  function RShift(a: Word, other: Operand): (r: Word)
    requires Compatible(a, other) && Value(a, other) >= 0
    ensures r.kind == a.kind && r.Valid()
    ensures a.Valid() ==> r.num == a.num / Pow2(Value(a, other)) <= a.num
  {
    var q := ShiftRight(a.num, Value(a, other));
    DivModShrink(a.num, Pow2(Value(a, other)));
    ModInRange(q, Modulus(a.kind));
    Rebuild(a.kind, q)
  }

  // ---------------------------------------------------------------------
  // Bitwise operators

  /** `a & other` (`__and__`). */
  function And(a: Word, other: Operand): (r: Word)
    requires Compatible(a, other)
    ensures r.kind == a.kind && r.Valid()
    ensures a.Valid() && Value(a, other) >= 0 ==> r.num <= a.num && r.num <= Value(a, other)
  {
    Rebuild(a.kind, BitAnd(a.num, Value(a, other)))
  }

  /** `a | other` (`__or__`). */
  function Or(a: Word, other: Operand): (r: Word)
    requires Compatible(a, other)
    ensures r.kind == a.kind && r.Valid()
  {
    Rebuild(a.kind, BitOr(a.num, Value(a, other)))
  }

  // ---------------------------------------------------------------------
  // Unary operators

  /** `-a` (`__neg__`): two's-complement negation within the width. */
  function Neg(a: Word): (r: Word)
    ensures r.kind == a.kind && r.Valid()
    ensures a.Valid() ==> r.num == (if a.num == 0 then 0 else Modulus(a.kind) - a.num)
  {
    Rebuild(a.kind, -a.num)
  }

  /** `~a` (`__invert__`): Python's `~n` is `-n - 1`, masked to the width. */
  function Invert(a: Word): (r: Word)
    ensures r.kind == a.kind && r.Valid()
    ensures a.Valid() ==> r.num == Modulus(a.kind) - 1 - a.num
  {
    Rebuild(a.kind, -a.num - 1)
  }

  // ---------------------------------------------------------------------
  // Comparisons: on `num`, never masked

  /** `a == other` (`__eq__`): an integer outside the range never equals a value in it, although the constructor would wrap it onto one. */
  predicate Eq(a: Word, other: Operand)
    requires Compatible(a, other)
    ensures a.Valid() && !(0 <= Value(a, other) < Modulus(a.kind)) ==> !Eq(a, other)
  {
    a.num == Value(a, other)
  }

  /** `a != other` (`__ne__`, written out on its own): exactly the negation of `==`. */
  predicate Ne(a: Word, other: Operand)
    requires Compatible(a, other)
    ensures Ne(a, other) <==> !Eq(a, other)
  {
    a.num != Value(a, other)
  }

  /** `a < other` (`__lt__`): against an integer at or above the range it always holds, below it never. */
  predicate Lt(a: Word, other: Operand)
    requires Compatible(a, other)
    ensures a.Valid() && Value(a, other) >= Modulus(a.kind) ==> Lt(a, other)
    ensures a.Valid() && Value(a, other) <= 0 ==> !Lt(a, other)
  {
    a.num < Value(a, other)
  }

  /** `a >= other` (`__ge__`): exactly the negation of `<`. */
  predicate Ge(a: Word, other: Operand)
    requires Compatible(a, other)
    ensures Ge(a, other) <==> !Lt(a, other)
  {
    a.num >= Value(a, other)
  }

  /** `a > other` (`__gt__`): against a negative integer it always holds, at or above the range never. */
  predicate Gt(a: Word, other: Operand)
    requires Compatible(a, other)
    ensures a.Valid() && Value(a, other) < 0 ==> Gt(a, other)
    ensures a.Valid() && Value(a, other) >= Modulus(a.kind) - 1 ==> !Gt(a, other)
  {
    a.num > Value(a, other)
  }

  /** `a <= other` (`__le__`): exactly the negation of `>`. */
  predicate Le(a: Word, other: Operand)
    requires Compatible(a, other)
    ensures Le(a, other) <==> !Gt(a, other)
  {
    a.num <= Value(a, other)
  }

  // ---------------------------------------------------------------------
  // Short

  /**
   `Short.from_bytes(a, b)`: `Short((a.num << 8) | b.num)`. When the low
   operand fits in eight bits the `|` is an addition.
   */
  function FromBytes(hi: Word, lo: Word): (r: Word)
    ensures r.kind == Short && r.Valid()
    ensures 0 <= lo.num < 0x100 ==> r.num == (hi.num * 0x100 + lo.num) % 0x1_0000
  {
    assert Pow2(8) == 0x100;
    BitOrDisjoint(hi.num, lo.num, 8);
    New(Short, Some(BitOr(ShiftLeft(hi.num, 8), lo.num)))
  }

  // ---------------------------------------------------------------------
  // Properties

  /** `Byte(-1)` is 255, `Byte(0)` and `Byte(None)` are 0, and `Short` keeps sixteen bits. */
  lemma ConstructorExamples()
    ensures New(Byte, Some(-1)).num == 0xFF
    ensures New(Byte, Some(0)).num == 0 && New(Byte, None).num == 0
    ensures New(Byte, Some(0x1234)).num == 0x34
    ensures New(Short, Some(0x1_2345)).num == 0x2345 && New(Short, Some(-1)).num == 0xFFFF
  {
  }

  /** The constructor leaves a value already in range unchanged, so masking twice is masking once. */
  lemma NewKeepsValid(w: Word)
    requires w.Valid()
    ensures New(w.kind, Some(w.num)) == w
  {
    ModInRange(w.num, Modulus(w.kind));
  }

  /** Adding one wraps to zero exactly at the top of the range: `Byte(0xFF) + 1` and `Short(0xFFFF) + 1` are 0. */
  lemma IncrementWraps(a: Word)
    requires a.Valid()
    ensures Add(a, Plain(1)).num == 0 <==> a.num == Modulus(a.kind) - 1
    ensures a.num < Modulus(a.kind) - 1 ==> Add(a, Plain(1)).num == a.num + 1
  {
    if a.kind == Byte {
      ModIncrement(a.num, 0x100);
    } else {
      ModIncrement(a.num, 0x1_0000);
    }
  }

  /** Subtraction wraps below zero: `Byte(3) - 5` is 254. */
  lemma SubtractionWrapsExample()
    ensures Sub(Word(Byte, 3), Plain(5)) == Word(Byte, 0xFE)
    ensures Add(Word(Short, 0xFFFF), Plain(1)) == Word(Short, 0)
  {
  }

  /** Subtracting what was added gives the original back, and vice versa. */
  lemma SubUndoesAdd(a: Word, other: Operand)
    requires a.Valid() && Compatible(a, other)
    ensures Sub(Add(a, other), other) == a
    ensures Add(Sub(a, other), other) == a
  {
    var v, m := Value(a, other), Modulus(a.kind);
    var up, down := Add(a, other), Sub(a, other);
    assert Value(up, other) == v && Value(down, other) == v;
    ModAddSubCancel(a.num, v, m);
    assert Sub(up, other).num == (up.num - v) % m;
    assert Add(down, other).num == (down.num + v) % m;
  }

  /** `k - a` (`__rsub__`) is the negation of `a - k`. */
  lemma RSubNegatesSub(a: Word, other: Operand)
    requires Compatible(a, other)
    ensures RSub(a, other) == Neg(Sub(a, other))
  {
    var m, d := Modulus(a.kind), a.num - Value(a, other);
    assert Sub(a, other).num == d % m;
    assert RSub(a, other).num == (-d) % m;
    ModNegCongruent(d, m);
  }

  /** The reflected operators agree with the forward ones: `k + a == a + k` and `k * a == a * k`. */
  lemma ReflectedOperatorsCommute(a: Word, b: Word)
    requires a.kind == b.kind
    ensures Add(a, Same(b)) == Add(b, Same(a)) && Mul(a, Same(b)) == Mul(b, Same(a))
    ensures RAdd(a, Same(b)) == Add(b, Same(a)) && RMul(a, Same(b)) == Mul(b, Same(a))
  {
  }

  /**
   An in-place sum left out of range is re-masked by the next out-of-place
   operator, with the same result as masking straight away.
   */
  lemma InPlaceAddThenAdd(a: Word, first: Operand, second: Operand)
    requires Compatible(a, first) && Compatible(a, second)
    ensures Add(IAdd(a, first), second) == Add(Add(a, first), second)
  {
    ModAddCongruent(a.num + Value(a, first), Value(a, second), Modulus(a.kind));
  }

  /** The in-place operators do not mask, so they can leave the range. */
  lemma InPlaceBreaksRange()
    ensures IAdd(Word(Byte, 0xFF), Plain(1)) == Word(Byte, 0x100) && !Word(Byte, 0x100).Valid()
    ensures ISub(Word(Byte, 0), Plain(1)) == Word(Byte, -1)
    ensures ILShift(Word(Byte, 0x80), Plain(1)) == Word(Byte, 0x100)
  {
  }

  /** Masking what an in-place operator stored gives what the out-of-place operator returns. */
  lemma InPlaceThenMask(a: Word, other: Operand)
    requires Compatible(a, other)
    ensures New(a.kind, Some(IAdd(a, other).num)) == Add(a, other)
    ensures New(a.kind, Some(ISub(a, other).num)) == Sub(a, other)
    ensures Value(a, other) >= 0 ==> New(a.kind, Some(ILShift(a, other).num)) == LShift(a, other)
  {
  }

  /** `a += k` then `a -= k` gives `a` back exactly, in range or not, and so does the reverse order. */
  lemma InPlaceSubUndoesAdd(a: Word, other: Operand)
    requires Compatible(a, other)
    ensures ISub(IAdd(a, other), other) == a
    ensures IAdd(ISub(a, other), other) == a
  {
  }

  /** `b += 1` leaves the range exactly when `b` was at the top of it. */
  lemma InPlaceIncrementLeavesRange(a: Word)
    requires a.Valid()
    ensures IAdd(a, Plain(1)).Valid() <==> a.num < Modulus(a.kind) - 1
  {
  }

  /**
   Negation is two's complement: `-a + a == 0`, also for a value an in-place
   operator has left outside the range.
   */
  lemma NegIsAdditiveInverse(a: Word)
    ensures Add(Neg(a), Same(a)) == Word(a.kind, 0)
  {
    var m := Modulus(a.kind);
    ModAddCongruent(-a.num, a.num, m);
    assert Neg(a).num == (-a.num) % m;
    assert (-a.num + a.num) % m == 0;
  }

  /** Negating twice gives the value back. */
  lemma NegInvolution(a: Word)
    requires a.Valid()
    ensures Neg(Neg(a)) == a
  {
    if a.kind == Byte {
      ModNegFacts(a.num, 0x100);
    } else {
      ModNegFacts(a.num, 0x1_0000);
    }
  }

  /** Complementing twice gives the value back. */
  lemma InvertInvolution(a: Word)
    requires a.Valid()
    ensures Invert(Invert(a)) == a
  {
    if a.kind == Byte {
      ModComplementFacts(a.num, 0x100);
    } else {
      ModComplementFacts(a.num, 0x1_0000);
    }
  }

  /** `~a + a` sets every bit, and `~a + 1 == -a`: the two's-complement identity. */
  lemma InvertIsOnesComplement(a: Word)
    requires a.Valid()
    ensures Add(Invert(a), Same(a)).num == Modulus(a.kind) - 1
    ensures Add(Invert(a), Plain(1)) == Neg(a)
  {
    if a.kind == Byte {
      ModComplementFacts(a.num, 0x100);
    } else {
      ModComplementFacts(a.num, 0x1_0000);
    }
  }

  /** A left shift is a multiplication by a power of two, masked like any product. */
  lemma ShiftLeftIsMul(a: Word, k: nat)
    ensures LShift(a, Plain(k)) == Mul(a, Plain(Pow2(k)))
  {
  }

  /** Bits shifted past the top of the width are lost: shifting back recovers only the low bits. */
  lemma ShiftLeftDropsHighBits(a: Word, k: nat)
    requires a.Valid() && k <= BitWidth(a.kind)
    ensures RShift(LShift(a, Plain(k)), Plain(k)).num == a.num % Pow2(BitWidth(a.kind) - k)
  {
    ModulusIsPow2(a.kind);
    ShiftLeftRightInWord(a.num, k, BitWidth(a.kind));
  }

  /** Shifting left by the width or more clears every bit. */
  lemma ShiftLeftPastWidth(a: Word, k: nat)
    requires k >= BitWidth(a.kind)
    ensures LShift(a, Plain(k)).num == 0
  {
    var w := BitWidth(a.kind);
    ModulusIsPow2(a.kind);
    Pow2Add(w, k - w);
    assert a.num * Pow2(k) == Pow2(w) * (a.num * Pow2(k - w));
    ModAddMultiple(Pow2(w), a.num * Pow2(k - w), 0);
  }

  /** On a value in range, `a >> k` is `a // 2^k`. */
  lemma ShiftRightIsDiv(a: Word, k: nat)
    requires a.Valid()
    ensures RShift(a, Plain(k)) == Div(a, Plain(Pow2(k)))
  {
  }

  /** Quotient and remainder recompose the dividend, as Python's `divmod` promises. */
  lemma DivModRecompose(a: Word, other: Operand)
    requires a.Valid() && Compatible(a, other) && Value(a, other) > 0
    ensures Value(a, other) * Div(a, other).num + Mod(a, other).num == a.num
  {
  }

  /** Division uses Python's floor rounding: `Byte(7) // -2` is `Byte(-4)` and `Byte(7) % -2` is `Byte(-1)`. */
  lemma NegativeDivisorFloors()
    ensures Div(Word(Byte, 7), Plain(-2)).num == 0xFC
    ensures Mod(Word(Byte, 7), Plain(-2)).num == 0xFF
  {
    DivModUnique(-7, 2, -4, 1);
  }

  /** `&` with the full mask keeps a value in range, and `&`/`|` with itself is the identity. */
  lemma BitwiseIdentities(a: Word)
    requires a.Valid()
    ensures And(a, Plain(Modulus(a.kind) - 1)) == a
    ensures And(a, Same(a)) == a && Or(a, Same(a)) == a
    ensures Or(a, Plain(0)) == a
  {
    ModulusIsPow2(a.kind);
    BitAndLowMask(a.num, BitWidth(a.kind));
    BitIdempotent(a.num);
    ModInRange(a.num, Modulus(a.kind));
  }

  /** Comparisons look at `num` only; on one class they form a total order whose equality is identity. */
  lemma ComparisonsOrder(a: Word, b: Word)
    requires a.kind == b.kind
    ensures Eq(a, Same(b)) <==> a == b
    ensures Ne(a, Same(b)) <==> a != b
    ensures Lt(a, Same(b)) || Eq(a, Same(b)) || Gt(a, Same(b))
    ensures !(Lt(a, Same(b)) && Gt(a, Same(b)))
    ensures Le(a, Same(b)) <==> Lt(a, Same(b)) || Eq(a, Same(b))
    ensures Ge(a, Same(b)) <==> Gt(a, Same(b)) || Eq(a, Same(b))
    ensures Lt(a, Same(b)) <==> Gt(b, Same(a))
  {
  }

  /** `Short.from_bytes(hi, lo)` is `hi * 256 + lo`: big-endian, high byte first. */
  lemma FromBytesValue(hi: Word, lo: Word)
    requires hi.kind == Byte && hi.Valid() && lo.kind == Byte && lo.Valid()
    ensures FromBytes(hi, lo) == Word(Short, hi.num * 0x100 + lo.num)
  {
    ModInRange(hi.num * 0x100 + lo.num, 0x1_0000);
  }

  /** `>> 8` recovers the high byte `Short.from_bytes` took. */
  lemma FromBytesHighByte(hi: Word, lo: Word)
    requires hi.kind == Byte && hi.Valid() && lo.kind == Byte && lo.Valid()
    ensures RShift(FromBytes(hi, lo), Plain(8)) == Word(Short, hi.num)
  {
    var w := FromBytes(hi, lo);
    FromBytesValue(hi, lo);
    BytePairSplits(w.num, hi.num, lo.num);
    assert w.num / Pow2(8) == hi.num;
  }

  /** `& 0xFF` recovers the low byte `Short.from_bytes` took. */
  lemma FromBytesLowByte(hi: Word, lo: Word)
    requires hi.kind == Byte && hi.Valid() && lo.kind == Byte && lo.Valid()
    ensures And(FromBytes(hi, lo), Plain(0xFF)) == Word(Short, lo.num)
  {
    var w := FromBytes(hi, lo);
    FromBytesValue(hi, lo);
    BytePairSplits(w.num, hi.num, lo.num);
    assert BitAnd(w.num, 0xFF) == lo.num;
    ModInRange(lo.num, 0x1_0000);
  }

  /** Splitting a `Short` into `Byte(s >> 8)` and `Byte(s & 0xFF)` and joining them gives `s` back. */
  lemma SplitThenFromBytes(s: Word)
    requires s.kind == Short && s.Valid()
    ensures FromBytes(New(Byte, Some(RShift(s, Plain(8)).num)), New(Byte, Some(And(s, Plain(0xFF)).num))) == s
  {
    assert Pow2(8) == 0x100;
    var hi, lo := s.num / 0x100, s.num % 0x100;
    BitAndLowMask(s.num, 8);
    ModInRange(hi, 0x100);
    ModInRange(lo, 0x100);
    var shifted := RShift(s, Plain(8));
    assert Value(s, Plain(8)) == 8;
    assert shifted.num == s.num / Pow2(8);
    assert And(s, Plain(0xFF)).num == lo;
    var h, l := New(Byte, Some(hi)), New(Byte, Some(lo));
    assert h == Word(Byte, hi) && l == Word(Byte, lo);
    FromBytesValue(h, l);
    assert hi * 0x100 + lo == s.num;
  }
}
