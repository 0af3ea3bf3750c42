/**
 * The Bitcoin script number, `CScriptNum`.
 *
 * Its state `m_value` is a two-alternative variant: index 0 holds an `int64_t`,
 * index 1 a `bsv::bint`, an arbitrary-precision integer. `NumValue` is that
 * variant; `ScriptNum` is the object whose compound operators update it in place.
 * The read-only operators are functions on `NumValue`.
 */
module ScriptNumbers {
  import opened Ints
  import opened Wrappers

  /** The variant `m_value`. */
  datatype NumValue = Small(n: int64) | Big(b: int) {

    /** `m_value.index()`. */
    function Index(): nat {
      if Small? then 0 else 1
    }

    /** The mathematical integer held, whichever alternative holds it. */
    function Value(): int {
      if Small? then n else b
    }

    /** `equal_index`: both operands use the same representation. */
    function EqualIndex(other: NumValue): (r: bool)
      ensures r <==> (Big? <==> other.Big?)
    {
      Index() == other.Index()
    }
  }

  /** The two exceptions the byte-vector constructor throws. */
  datatype ScriptNumError =
    | Overflow   // scriptnum_overflow_error
    | MinEncode  // scriptnum_minencode_error

  /**
   * The byte-level routines of `int_serialization.h`, which is not part of this
   * model: decoding to an `int64_t`, decoding to a big integer, and the minimal
   * encoding test. They are inputs, so nothing below depends on their encoding.
   */
  datatype IntSerialization = IntSerialization(
    deserializeInt64: seq<uint8> -> int64,
    deserializeBig: seq<uint8> -> int,
    isMinimallyEncoded: (seq<uint8>, nat) -> bool)

  /**
   * `CScriptNum(vch, fRequireMinimal, nMaxNumSize, big_int)`. A vector longer than
   * the size limit is an overflow; with the minimality flag set, a non-minimal
   * vector is refused; the empty vector is zero; the representation follows
   * `bigInt`.
   */
  function FromBytes(vch: seq<uint8>, requireMinimal: bool, maxNumSize: nat, bigInt: bool,
                     codec: IntSerialization): (r: Result<NumValue, ScriptNumError>)
    ensures r == Failure(Overflow) <==> |vch| > maxNumSize
    ensures r == Failure(MinEncode) <==>
              |vch| <= maxNumSize && requireMinimal && !codec.isMinimallyEncoded(vch, maxNumSize)
    ensures r.Success? <==>
              |vch| <= maxNumSize && (!requireMinimal || codec.isMinimallyEncoded(vch, maxNumSize))
    ensures r.Success? ==> (r.value.Big? <==> bigInt)
    ensures r.Success? && vch == [] ==> r.value.Value() == 0
    ensures r.Success? && vch != [] ==>
              r.value.Value() == if bigInt then codec.deserializeBig(vch) else codec.deserializeInt64(vch)
  {
    if |vch| > maxNumSize then
      Failure(Overflow)
    else if requireMinimal && !codec.isMinimallyEncoded(vch, maxNumSize) then
      Failure(MinEncode)
    else if vch == [] then
      // m_value starts as the int64_t 0 and is replaced by the big 0 only for big_int
      if bigInt then Success(Big(0)) else Success(Small(0))
    else if bigInt then
      Success(Big(codec.deserializeBig(vch)))
    else
      Success(Small(codec.deserializeInt64(vch)))
  }

  // ---------------------------------------------------------------------------
  // Two's-complement bitwise AND on int64_t, bit by bit
  // ---------------------------------------------------------------------------

  function Pow2(w: nat): (r: nat)
    ensures r >= 1
  {
    if w == 0 then 1 else 2 * Pow2(w - 1)
  }

  lemma {:induction false} Pow2Add(v: nat, w: nat)
    ensures Pow2(v + w) == Pow2(v) * Pow2(w)
    decreases w
  {
    if w > 0 {
      Pow2Add(v, w - 1);
      assert Pow2(v + w) == 2 * Pow2(v + w - 1);
    }
  }

  lemma Pow2Of64()
    ensures Pow2(63) == -INT64_MIN && Pow2(64) == TWO_POW_64
  {
    assert Pow2(8) == 0x100;
    Pow2Add(8, 8);
    Pow2Add(16, 16);
    Pow2Add(32, 31);
    Pow2Add(32, 32);
  }

  const TWO_POW_64: int := 0x1_0000_0000_0000_0000

  /**
   * The AND of the lowest `width` bits of two naturals: bit `i` of the result is
   * set exactly when bit `i` is set in both.
   */
  function AndBits(a: nat, b: nat, width: nat): nat
    decreases width
  {
    if width == 0 then 0
    else 2 * AndBits(a / 2, b / 2, width - 1) + (if a % 2 == 1 && b % 2 == 1 then 1 else 0)
  }

  /** An AND is no larger than either operand. */
  lemma {:induction false} AndBitsAtMost(a: nat, b: nat, width: nat)
    ensures AndBits(a, b, width) <= a && AndBits(a, b, width) <= b
    decreases width
  {
    if width > 0 {
      AndBitsAtMost(a / 2, b / 2, width - 1);
    }
  }

  lemma {:induction false} AndBitsCommutative(a: nat, b: nat, width: nat)
    ensures AndBits(a, b, width) == AndBits(b, a, width)
    decreases width
  {
    if width > 0 {
      AndBitsCommutative(a / 2, b / 2, width - 1);
    }
  }

  lemma {:induction false} AndBitsSelf(a: nat, width: nat)
    requires a < Pow2(width)
    ensures AndBits(a, a, width) == a
    decreases width
  {
    if width > 0 {
      AndBitsSelf(a / 2, width - 1);
    }
  }

  /** AND with the all-ones mask of the width is the identity. */
  lemma {:induction false} AndBitsAllOnes(a: nat, width: nat)
    requires a < Pow2(width)
    ensures AndBits(a, Pow2(width) - 1, width) == a
    decreases width
  {
    if width > 0 {
      assert (Pow2(width) - 1) / 2 == Pow2(width - 1) - 1;
      assert (Pow2(width) - 1) % 2 == 1;
      AndBitsAllOnes(a / 2, width - 1);
    }
  }

  /** The top bit of the width is set in the AND when it is set in both operands. */
  lemma {:induction false} AndBitsTopBit(a: nat, b: nat, width: nat)
    requires width >= 1
    requires Pow2(width - 1) <= a < Pow2(width) && Pow2(width - 1) <= b < Pow2(width)
    ensures AndBits(a, b, width) >= Pow2(width - 1)
    decreases width
  {
    if width > 1 {
      AndBitsTopBit(a / 2, b / 2, width - 1);
    }
  }

  /** The 64-bit two's-complement pattern of an `int64_t`, read as an unsigned number. */
  function ToUnsigned(x: int64): (u: nat)
    ensures u < TWO_POW_64
  {
    if x < 0 then x + TWO_POW_64 else x
  }

  /** The `int64_t` whose two's-complement pattern is `u`. */
  function FromUnsigned(u: nat): int64
    requires u < TWO_POW_64
  {
    if u <= INT64_MAX then u else u - TWO_POW_64
  }

  /** `x & y` on `int64_t`. */
  function And64(x: int64, y: int64): (r: int64)
    ensures 0 <= y ==> 0 <= r <= y
    ensures 0 <= x ==> 0 <= r <= x
    ensures x < 0 && y < 0 ==> r < 0
  {
    var u, v := ToUnsigned(x), ToUnsigned(y);
    AndBitsAtMost(u, v, 64);
    Pow2Of64();
    if x < 0 && y < 0 then AndBitsTopBit(u, v, 64); FromUnsigned(AndBits(u, v, 64))
    else FromUnsigned(AndBits(u, v, 64))
  }

  lemma And64Idempotent(x: int64)
    ensures And64(x, x) == x
  {
    Pow2Of64();
    AndBitsSelf(ToUnsigned(x), 64);
  }

  lemma And64Commutative(x: int64, y: int64)
    ensures And64(x, y) == And64(y, x)
  {
    AndBitsCommutative(ToUnsigned(x), ToUnsigned(y), 64);
  }

  /** AND with -1 (all 64 bits set) is the identity. */
  lemma And64AllOnes(x: int64)
    ensures And64(x, -1) == x
  {
    Pow2Of64();
    AndBitsAllOnes(ToUnsigned(x), 64);
  }

  // ---------------------------------------------------------------------------
  // C++ division and remainder, which truncate toward zero
  // ---------------------------------------------------------------------------

  function Abs(x: int): nat {
    if x < 0 then -x else x
  }

  /** `x / y` as C++ computes it: the quotient rounded toward zero. */
  function TruncDiv(x: int, y: int): int
    requires y != 0
  {
    var q := Abs(x) / Abs(y);
    if (x < 0) == (y < 0) then q else -q
  }

  /** `x % y` as C++ computes it: the remainder takes the sign of `x`. */
  function TruncRem(x: int, y: int): int
    requires y != 0
  {
    var m := Abs(x) % Abs(y);
    if x < 0 then -m else m
  }

  lemma MulNonnegative(a: nat, b: nat)
    ensures a * b >= 0
  {
  }

  /** Euclidean division of naturals, the step both C++ operators are built on. */
  lemma DivModNat(ax: nat, ay: nat)
    requires ay > 0
    ensures ay * (ax / ay) + ax % ay == ax && 0 <= ax % ay < ay && ax / ay <= ax
  {
    var q := ax / ay;
    MulNonnegative(ay - 1, q);
    assert ay * q == (ay - 1) * q + q;
  }

  /**
   * The C++ division identity: `(x / y) * y + x % y == x`, the remainder is
   * smaller than the divisor in magnitude and carries the sign of the dividend,
   * and the quotient is no larger than the dividend in magnitude.
   */
  lemma TruncDivRem(x: int, y: int)
    requires y != 0
    ensures y * TruncDiv(x, y) + TruncRem(x, y) == x
    ensures Abs(TruncRem(x, y)) < Abs(y)
    ensures TruncRem(x, y) == 0 || (TruncRem(x, y) < 0 <==> x < 0)
    ensures Abs(TruncDiv(x, y)) <= Abs(x)
  {
    TruncDivIdentity(x, y);
    TruncRemBounds(x, y);
    TruncDivBound(x, y);
  }

  lemma TruncDivIdentity(x: int, y: int)
    requires y != 0
    ensures y * TruncDiv(x, y) + TruncRem(x, y) == x
  {
    DivModNat(Abs(x), Abs(y));
    SignsRestored(x, y, Abs(x) / Abs(y), Abs(x) % Abs(y));
  }

  lemma TruncRemBounds(x: int, y: int)
    requires y != 0
    ensures Abs(TruncRem(x, y)) < Abs(y)
    ensures TruncRem(x, y) == 0 || (TruncRem(x, y) < 0 <==> x < 0)
  {
  }

  lemma TruncDivBound(x: int, y: int)
    requires y != 0
    ensures Abs(TruncDiv(x, y)) <= Abs(x)
  {
    DivModNat(Abs(x), Abs(y));
  }

  /** Putting the signs back on a division of magnitudes keeps the division identity. */
  lemma SignsRestored(x: int, y: int, q: int, m: int)
    requires y != 0 && Abs(y) * q + m == Abs(x)
    ensures y * (if (x < 0) == (y < 0) then q else -q) + (if x < 0 then -m else m) == x
  {
  }

  /**
   * Both results stay within `int64_t` unless the division is INT64_MIN / -1,
   * the one quotient that does not fit.
   */
  lemma TruncDivRemInt64(x: int64, y: int64)
    requires y != 0 && !(x == INT64_MIN && y == -1)
    ensures InInt64(TruncDiv(x, y)) && InInt64(TruncRem(x, y))
  {
  }

  /** INT64_MIN / -1 overflows: its exact quotient is INT64_MAX + 1. */
  lemma TruncDivMinOverflows()
    ensures !InInt64(TruncDiv(INT64_MIN, -1))
  {
  }

  // ---------------------------------------------------------------------------
  // Comparison, negation and conversions (expression-only members)
  // ---------------------------------------------------------------------------

  /** `operator==`: equal mathematical values, also across representations. */
  function Equal(a: NumValue, b: NumValue): (r: bool)
    ensures r <==> a.Value() == b.Value()
  {
    if a.EqualIndex(b) then a == b else a.Value() == b.Value()
  }

  /** `operator<`: the order of the mathematical values, also across representations. */
  function Less(a: NumValue, b: NumValue): (r: bool)
    ensures r <==> a.Value() < b.Value()
  {
    if a.EqualIndex(b) then
      match a
      case Small(x) => x < b.n
      case Big(x) => x < b.b
    else
      a.Value() < b.Value()
  }

  /** Exactly one of `a < b`, `a == b`, `b < a` holds, and `<` is transitive. */
  lemma CompareIsTotalOrder(a: NumValue, b: NumValue, c: NumValue)
    ensures (Less(a, b) && !Equal(a, b) && !Less(b, a))
         || (!Less(a, b) && Equal(a, b) && !Less(b, a))
         || (!Less(a, b) && !Equal(a, b) && Less(b, a))
    ensures Less(a, b) && Less(b, c) ==> Less(a, c)
  {
  }

  /** Unary `-`: the negated value, in the same representation. */
  function Negate(a: NumValue): (r: NumValue)
    requires a.Small? ==> a.n != INT64_MIN
    ensures r.Index() == a.Index()
    ensures r.Value() == -a.Value()
  {
    match a
    case Small(x) => Small(-x)
    case Big(x) => Big(-x)
  }

  lemma NegateInvolutive(a: NumValue)
    requires a.Small? ==> a.n != INT64_MIN
    ensures Negate(a).Small? ==> Negate(a).n != INT64_MIN
    ensures Negate(Negate(a)) == a
  {
  }

  /**
   * `getint`: the `int64_t` value saturated to the `int` range, so it is either
   * the value itself or the bound on the value's side of the range.
   */
  function GetInt(a: NumValue): (r: int32)
    requires a.Small?
    ensures r == a.n || (r == INT32_MAX && a.n > r) || (r == INT32_MIN && a.n < r)
  {
    var x := a.n;
    if x > INT32_MAX then INT32_MAX
    else if x < INT32_MIN then INT32_MIN
    else x
  }

  /** Saturation keeps the order of the values. */
  lemma GetIntMonotonic(a: NumValue, b: NumValue)
    requires a.Small? && b.Small? && a.n <= b.n
    ensures GetInt(a) <= GetInt(b)
  {
  }

  /** `to_size_t`: a non-negative value, unchanged, as a `size_t`. */
  function ToSizeT(a: NumValue): (r: uint64)
    requires a.Value() >= 0
    requires a.Big? ==> a.b <= UINT64_MAX
    ensures r == a.Value()
  {
    match a
    case Small(x) => x
    case Big(x) => x
  }

  /**
   * The guard `operator+=` asserts before adding two `int64_t` alternatives,
   * written as the source writes it.
   */
  predicate AddGuard(a: int64, b: int64) {
    || b == 0
    || (b > 0 && a <= INT64_MAX - b)
    || (b < 0 && a >= INT64_MIN - b)
  }

  /** The guard `operator-=` asserts, written as the source writes it. */
  predicate SubGuard(a: int64, b: int64) {
    || b == 0
    || (b > 0 && a >= INT64_MIN + b)
    || (b < 0 && a <= INT64_MAX + b)
  }

  /** The two guards admit exactly the operands whose exact result fits `int64_t`. */
  lemma GuardsAreExact(a: int64, b: int64)
    ensures AddGuard(a, b) <==> InInt64(a + b)
    ensures SubGuard(a, b) <==> InInt64(a - b)
  {
  }

  // ---------------------------------------------------------------------------
  // The object and its compound assignment operators
  // ---------------------------------------------------------------------------

  class ScriptNum {
    var value: NumValue

    /** `CScriptNum(int64_t)` / `CScriptNum(bint)`: holds the given alternative. */
    constructor (v: NumValue)
      ensures value == v
    {
      value := v;
    }

    /** `operator&=(const CScriptNum&)`: bitwise AND within one representation. */
    method AndAssign(other: ScriptNum, bigAnd: (int, int) -> int)
      requires value.EqualIndex(other.value)
      modifies this
      ensures value.Index() == old(value.Index())
      ensures old(value).Small? ==> value == Small(And64(old(value).n, old(other.value).n))
      ensures old(value).Big? ==> value == Big(bigAnd(old(value).b, old(other.value).b))
    {
      if value.Small? {
        value := Small(And64(value.n, other.value.n));
      } else {
        value := Big(bigAnd(value.b, other.value.b));
      }
    }

    /** `operator&=(int64_t)`: AND with a plain `int64_t`, in either representation. */
    method AndAssignInt64(other: int64, bigAnd: (int, int) -> int)
      modifies this
      ensures value.Index() == old(value.Index())
      ensures old(value).Small? ==> value == Small(And64(old(value).n, other))
      ensures old(value).Big? ==> value == Big(bigAnd(old(value).b, other))
    {
      if value.Small? {
        value := Small(And64(value.n, other));
      } else {
        value := Big(bigAnd(value.b, other));
      }
    }

    /** `operator+=`: the exact sum, which the int64_t alternative must be able to hold. */
    method AddAssign(other: ScriptNum)
      requires value.EqualIndex(other.value)
      requires value.Small? ==> AddGuard(value.n, other.value.n)
      modifies this
      ensures value.Index() == old(value.Index())
      ensures value.Value() == old(value.Value()) + old(other.value.Value())
    {
      if value.Small? {
        GuardsAreExact(value.n, other.value.n);
        value := Small(value.n + other.value.n);
      } else {
        value := Big(value.b + other.value.b);
      }
    }

    /** `operator-=`: the exact difference, which the int64_t alternative must be able to hold. */
    method SubAssign(other: ScriptNum)
      requires value.EqualIndex(other.value)
      requires value.Small? ==> SubGuard(value.n, other.value.n)
      modifies this
      ensures value.Index() == old(value.Index())
      ensures value.Value() == old(value.Value()) - old(other.value.Value())
    {
      if value.Small? {
        GuardsAreExact(value.n, other.value.n);
        value := Small(value.n - other.value.n);
      } else {
        value := Big(value.b - other.value.b);
      }
    }

    /** `operator*=`: the exact product; an int64_t product must not overflow. */
    method MulAssign(other: ScriptNum)
      requires value.EqualIndex(other.value)
      requires value.Small? ==> InInt64(value.n * other.value.n)
      modifies this
      ensures value.Index() == old(value.Index())
      ensures value.Value() == old(value.Value()) * old(other.value.Value())
    {
      if value.Small? {
        value := Small(value.n * other.value.n);
      } else {
        value := Big(value.b * other.value.b);
      }
    }

    /** `operator/=`: the quotient rounded toward zero. */
    method DivAssign(other: ScriptNum)
      requires value.EqualIndex(other.value)
      requires other.value.Value() != 0
      requires value.Small? ==> !(value.n == INT64_MIN && other.value.n == -1)
      modifies this
      ensures value.Index() == old(value.Index())
      ensures value.Value() == TruncDiv(old(value.Value()), old(other.value.Value()))
    {
      if value.Small? {
        TruncDivRemInt64(value.n, other.value.n);
        value := Small(TruncDiv(value.n, other.value.n));
      } else {
        value := Big(TruncDiv(value.b, other.value.b));
      }
    }

    /** `operator%=`: the remainder with the sign of the dividend. */
    method ModAssign(other: ScriptNum)
      requires value.EqualIndex(other.value)
      requires other.value.Value() != 0
      requires value.Small? ==> !(value.n == INT64_MIN && other.value.n == -1)
      modifies this
      ensures value.Index() == old(value.Index())
      ensures value.Value() == TruncRem(old(value.Value()), old(other.value.Value()))
    {
      if value.Small? {
        TruncDivRemInt64(value.n, other.value.n);
        value := Small(TruncRem(value.n, other.value.n));
      } else {
        value := Big(TruncRem(value.b, other.value.b));
      }
    }
  }
}
