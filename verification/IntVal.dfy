/**
  `int_val_t` of compiler2/Int.cc: an integer that is a native 64-bit value or a big number, whose
  operators switch between the two forms, and `rem` and `mod` of compiler2/PredefFunc.cc on top of them.
*/
module IntVal {
  import opened Bits

  const LLONG_MIN := -0x8000_0000_0000_0000
  const LLONG_MAX := 0x7FFF_FFFF_FFFF_FFFF
  const TWO64 := 0x1_0000_0000_0000_0000

  predicate IsNative(x: int) {
    LLONG_MIN <= x <= LLONG_MAX
  }

  /** Native arithmetic wraps around. */
  function Wrap(x: int): (w: int)
    ensures IsNative(w) && (IsNative(x) ==> w == x)
  {
    (x - LLONG_MIN) % TWO64 + LLONG_MIN
  }

  /** `LLONG_MIN` is the only value that may have either form. */
  datatype IntVal = Native(native: int) | Big(openssl: int) {
    predicate Valid() {
      if Native? then IsNative(native) else openssl <= LLONG_MIN || LLONG_MAX < openssl
    }

    function Value(): int {
      if Native? then native else openssl
    }

    predicate IsNegative() {
      Value() < 0
    }
  }

  const LEAST := Native(LLONG_MIN)

  /** A big number that fits in 63 bits is converted to a native one. */
  function Normalised(x: int): (r: IntVal)
    ensures r.Valid() && r.Value() == x && (r.Native? <==> LLONG_MIN < x <= LLONG_MAX)
  {
    NumBitsAtMost(x, 63);
    Pow2Of63();
    if NumBits(x) <= 63 then Native(x) else Big(x)
  }

  // ---------------------------------------------------------------- comparison

  predicate Equal(a: IntVal, b: IntVal) {
    a.Native? == b.Native? && a.Value() == b.Value()
  }

  predicate Less(a: IntVal, b: IntVal) {
    if a.Native? && b.Native? then a.native < b.native
    else a.Value() < b.Value() // BN_cmp
  }

  /** `==` is equality of integers, except between the two forms of `LLONG_MIN`; `<` is their order. */
  lemma EqualExactly(a: IntVal, b: IntVal)
    requires a.Valid() && b.Valid()
    ensures Less(a, b) <==> a.Value() < b.Value()
    ensures (Equal(a, b) <==> a.Value() == b.Value()) <==> !(a.Value() == b.Value() == LLONG_MIN && a != b)
  {
  }

  // ---------------------------------------------------------------- sums and differences

  function Neg(a: IntVal): (r: IntVal)
    requires a.Valid()
    ensures r.Valid() && r.Value() == -a.Value()
  {
    if a.Native? then
      if a.native == LLONG_MIN then Big(-LLONG_MIN) else Native(-a.native)
    else if a.openssl == -LLONG_MIN then Native(LLONG_MIN)
    else Big(-a.openssl)
  }

  predicate MixedSigns(a: IntVal, b: IntVal) {
    a.IsNegative() != b.IsNegative()
  }

  /** `operator+`, which calls `operator-` for operands of different signs. */
  function Add(a: IntVal, b: IntVal): (r: IntVal)
    requires a.Valid() && b.Valid()
    ensures r.Valid()
    ensures if a == b == LEAST then r == Native(0) else r.Value() == a.Value() + b.Value()
    decreases MixedSigns(a, b)
  {
    if !a.IsNegative() && b.IsNegative() then Sub(a, Neg(b))
    else if a.IsNegative() && !b.IsNegative() then Sub(b, Neg(a))
    else if a.Native? && b.Native? then
      var result := Wrap(a.native + b.native);
      if (!a.IsNegative() && result < 0) || (a.IsNegative() && result > 0) then Big(a.native + b.native) else Native(result)
    else Big(a.Value() + b.Value())
  }

  /** `operator-`, which calls `operator+` for operands of different signs. */
  function Sub(a: IntVal, b: IntVal): (r: IntVal)
    requires a.Valid() && b.Valid()
    ensures r.Valid() && r.Value() == a.Value() - b.Value()
    decreases MixedSigns(a, b)
  {
    if !a.IsNegative() && b.IsNegative() then Add(a, Neg(b))
    else if a.IsNegative() && !b.IsNegative() then Neg(Add(b, Neg(a)))
    else if a.Native? && b.Native? then Native(Wrap(a.native - b.native))
    else Normalised(a.Value() - b.Value())
  }

  /** The sum is right for all operands but one pair: the sum of two native `LLONG_MIN` wraps to zero unnoticed. */
  lemma AddExactly(a: IntVal, b: IntVal)
    requires a.Valid() && b.Valid()
    ensures Add(a, b).Value() == a.Value() + b.Value() <==> !(a == LEAST && b == LEAST)
  {
  }

  // ---------------------------------------------------------------- products

  /** `ll_abs`, which wraps `LLONG_MIN` to itself. */
  function LlAbs(x: int): int
    requires IsNative(x)
  {
    if x >= 0 then x else Wrap(-x)
  }

  /** The product of two native values is computed natively if they pass for small, or if it has less than 64 bits. */
  function NativeTimes(x: int, y: int): (r: IntVal)
    requires IsNative(x) && IsNative(y)
    ensures r.Valid()
    ensures !(LlAbs(x) < 32768 && LlAbs(y) < 32768) || IsNative(x * y) ==> r.Value() == x * y
  {
    NumBitsAtMost(x * y, 63);
    Pow2Of63();
    if (LlAbs(x) < 32768 && LlAbs(y) < 32768) || NumBits(x * y) < 64 then Native(Wrap(x * y)) else Big(x * y)
  }

  function Mul(a: IntVal, b: IntVal): (r: IntVal)
    requires a.Valid() && b.Valid()
  {
    if a == Native(0) || b == Native(0) then Native(0)
    else if a.Native? && b.Native? then NativeTimes(a.native, b.native)
    else Big(a.Value() * b.Value())
  }

  /** A native factor that passes for small and makes the product with native `LLONG_MIN` overflow unnoticed. */
  predicate Overlooked(b: IntVal) {
    b.Native? && (b.native == LLONG_MIN || -32768 < b.native < 32768) && b.native != 0 && b.native != 1
  }

  predicate MulFails(a: IntVal, b: IntVal) {
    (a == LEAST && Overlooked(b)) || (b == LEAST && Overlooked(a))
  }

  lemma MulAtLeast(m: nat, n: nat, k: nat)
    requires k <= n
    ensures k * m <= m * n
  {
    assert m * n == k * m + m * (n - k);
  }

  lemma AbsOfProduct(x: int, y: int)
    ensures Abs(x * y) == Abs(x) * Abs(y)
  {
    if x >= 0 && y < 0 {
      assert x * y == -(x * -y);
    } else if x < 0 && y >= 0 {
      assert x * y == -(-x * y);
    } else if x < 0 && y < 0 {
      assert x * y == -x * -y;
    }
  }

  lemma ProductAtLeast(x: int, y: int)
    requires y != 0
    ensures Abs(x) <= Abs(x * y)
  {
    AbsOfProduct(x, y);
    MulAtLeast(Abs(x), Abs(y), 1);
  }

  lemma SmallProduct(x: int, y: int)
    requires -32768 < x < 32768 && -32768 < y < 32768
    ensures IsNative(x * y)
  {
    if x >= 0 {
      assert -32768 * 32768 <= x * y <= 32768 * 32768;
    } else {
      assert -32768 * 32768 <= -x * y <= 32768 * 32768;
    }
  }

  lemma NativeProduct(a: IntVal, b: IntVal)
    requires a.Valid() && b.Valid() && a.Native? && b.Native? && a.native != 0 && b.native != 0
    requires !MulFails(a, b)
    ensures Mul(a, b).Value() == a.native * b.native && Mul(a, b).Valid()
  {
    var x, y := a.native, b.native;
    if LlAbs(x) < 32768 && LlAbs(y) < 32768 {
      if x == LLONG_MIN || y == LLONG_MIN {
        assert x * y == LLONG_MIN;
      } else {
        SmallProduct(x, y);
      }
    }
  }

  lemma OverlookedProduct(a: IntVal, b: IntVal)
    requires a.Valid() && b.Valid() && MulFails(a, b)
    ensures Mul(a, b).Value() != a.Value() * b.Value() && Mul(a, b).Valid()
  {
    var y := if a == LEAST then b.native else a.native;
    assert !IsNative(LLONG_MIN * y);
    assert a.native * b.native == LLONG_MIN * y;
  }

  /** The product is right exactly for the operands that are not overlooked. */
  lemma MulExactly(a: IntVal, b: IntVal)
    requires a.Valid() && b.Valid()
    ensures Mul(a, b).Value() == a.Value() * b.Value() <==> !MulFails(a, b)
    ensures Mul(a, b).Valid()
  {
    if MulFails(a, b) {
      OverlookedProduct(a, b);
    } else if a == Native(0) || b == Native(0) {
    } else if a.Native? && b.Native? {
      NativeProduct(a, b);
    } else {
      ProductAtLeast(a.Value(), b.Value());
      ProductAtLeast(b.Value(), a.Value());
      assert a.Value() * b.Value() == b.Value() * a.Value();
    }
  }

  // ---------------------------------------------------------------- quotients and remainders

  /** Division that truncates toward zero. */
  function TruncDiv(x: int, y: int): int
    requires y != 0
  {
    if (x < 0) == (y < 0) then Abs(x) / Abs(y) else -(Abs(x) / Abs(y))
  }

  /** A zero divisor is a fatal error; C leaves the quotient that does not fit undefined. */
  datatype Division = ZeroDivisor | Overflow | Defined(value: IntVal)

  /** Native `LLONG_MIN` by -1, whose quotient does not fit. */
  predicate DivOverflows(a: IntVal, b: IntVal) {
    a == LEAST && b == Native(-1)
  }

  /** `operator/`, which is zero for a zero dividend whatever the divisor. */
  function Div(a: IntVal, b: IntVal): (r: Division)
    requires a.Valid() && b.Valid()
  {
    if a == Native(0) then Defined(Native(0))
    else if b == Native(0) then ZeroDivisor
    else if DivOverflows(a, b) then Overflow
    else if a.Native? && b.Native? then Defined(Native(TruncDiv(a.native, b.native)))
    else Defined(Normalised(TruncDiv(a.Value(), b.Value())))
  }

  lemma QuotientAtMost(x: int, y: int)
    requires y != 0
    ensures Abs(TruncDiv(x, y)) == Abs(x) / Abs(y) <= Abs(x)
    ensures Abs(y) >= 2 && x != 0 ==> Abs(TruncDiv(x, y)) < Abs(x)
  {
    var n, d := Abs(x), Abs(y);
    var q := n / d;
    assert n == q * d + n % d;
    MulAtLeast(q, d, 1);
    if d >= 2 {
      MulAtLeast(q, d, 2);
    }
  }

  /** The quotient is right for every non-zero divisor, except for native `LLONG_MIN` by -1. */
  lemma DivExactly(a: IntVal, b: IntVal)
    requires a.Valid() && b.Valid() && b.Value() != 0
    ensures Div(a, b).Overflow? <==> DivOverflows(a, b)
    ensures !DivOverflows(a, b) ==>
      Div(a, b).Defined? && Div(a, b).value.Valid() && Div(a, b).value.Value() == TruncDiv(a.Value(), b.Value())
  {
    QuotientAtMost(a.Value(), b.Value());
  }

  /** `rem`, which divides first. */
  function Rem(a: IntVal, b: IntVal): (r: Division)
    requires a.Valid() && b.Valid()
  {
    var q := Div(a, b);
    if !q.Defined? then q
    else
      QuotientValid(a, b);
      MulExactly(b, q.value);
      Defined(Sub(a, Mul(b, q.value)))
  }

  lemma QuotientValid(a: IntVal, b: IntVal)
    requires a.Valid() && b.Valid() && Div(a, b).Defined?
    ensures Div(a, b).value.Valid()
  {
    if b.Value() != 0 {
      DivExactly(a, b);
    }
  }

  function TruncRem(x: int, y: int): int
    requires y != 0
  {
    x - y * TruncDiv(x, y)
  }

  /** A truncated remainder has the sign of the dividend and is smaller than the divisor. */
  lemma TruncRemSign(x: int, y: int)
    requires y != 0
    ensures TruncRem(x, y) == if x < 0 then -(Abs(x) % Abs(y)) else x % Abs(y)
    ensures Abs(TruncRem(x, y)) < Abs(y)
  {
    var n, d: int := Abs(x), Abs(y);
    var q: int := n / d;
    assert n == d * q + n % d;
    Scale(d, y, if y < 0 then -1 else 1, if x < 0 then -q else q);
    assert d * -q == -(d * q);
  }

  lemma Scale(d: int, y: int, s: int, q: int)
    requires (s == 1 && y == d) || (s == -1 && y == -d)
    ensures y * (s * q) == d * q
  {
    if s == -1 {
      assert -d * -q == d * q;
    }
  }

  lemma SignOfTruncRem(x: int, y: int)
    requires y != 0
    ensures if x > 0 then TruncRem(x, y) >= 0 else TruncRem(x, y) <= 0
  {
    TruncRemSign(x, y);
  }

  /**
    What `rem` fails on: the quotient that overflows, and the dividends whose quotient by native `LLONG_MIN`
    is multiplied wrongly, from 1 up to 2^15 times its size.
  */
  predicate RemFails(a: IntVal, b: IntVal) {
    || DivOverflows(a, b)
    || (b == LEAST &&
        (-LLONG_MIN <= a.Value() < 32768 * -LLONG_MIN || 32768 * LLONG_MIN < a.Value() <= 2 * LLONG_MIN))
  }

  lemma RemMultiplies(a: IntVal, b: IntVal)
    requires a.Valid() && b.Valid() && b.Value() != 0 && !DivOverflows(a, b)
    ensures Div(a, b).Defined? && (MulFails(b, Div(a, b).value) <==> RemFails(a, b))
  {
    DivExactly(a, b);
    QuotientAtMost(a.Value(), b.Value());
    var q := TruncDiv(a.Value(), b.Value());
    if b == LEAST {
      var n := Abs(a.Value());
      assert n == -LLONG_MIN * Abs(q) + n % -LLONG_MIN;
    }
  }

  /** `rem` is defined and right for exactly the other dividends of a non-zero divisor. */
  lemma RemExactly(a: IntVal, b: IntVal)
    requires a.Valid() && b.Valid() && b.Value() != 0
    ensures Rem(a, b).Overflow? <==> DivOverflows(a, b)
    ensures !DivOverflows(a, b) ==> Rem(a, b).Defined? && Rem(a, b).value.Valid()
    ensures (Rem(a, b).Defined? && Rem(a, b).value.Value() == TruncRem(a.Value(), b.Value())) <==> !RemFails(a, b)
  {
    DivExactly(a, b);
    if !DivOverflows(a, b) {
      var q := Div(a, b).value;
      MulExactly(b, q);
      RemMultiplies(a, b);
      assert Rem(a, b).value == Sub(a, Mul(b, q));
    }
  }

  predicate Greater(a: IntVal, b: IntVal) {
    !Equal(a, b) && !Less(a, b)
  }

  /** `mod`, which takes the remainder by the absolute value of the divisor. */
  function Mod(a: IntVal, b: IntVal): (r: Division)
    requires a.Valid() && b.Valid()
  {
    var r := if Less(b, Native(0)) then Neg(b) else b;
    var rem := Rem(a, r);
    if Greater(a, Native(0)) || !rem.Defined? then rem
    else
      RemValid(a, r);
      if Equal(rem.value, Native(0)) then rem else Defined(Add(rem.value, r))
  }

  lemma RemValid(a: IntVal, b: IntVal)
    requires a.Valid() && b.Valid() && Rem(a, b).Defined?
    ensures Rem(a, b).value.Valid()
  {
    if b.Value() != 0 {
      RemExactly(a, b);
    }
  }

  /** The remainder is the only number from 0 up to the divisor that is congruent to the dividend. */
  lemma ModUnique(x: int, y: int, k: int, m: nat)
    requires m < Abs(y) && x == y * k + m
    ensures x % y == m
  {
    var k', m' := x / y, x % y;
    assert x == y * k' + m';
    AbsOfProduct(y, k - k');
    assert y * (k - k') == m' - m;
    if k != k' {
      MulAtLeast(Abs(y), Abs(k - k'), 1);
    }
  }

  lemma ModOfTruncRem(x: int, y: int)
    requires y != 0
    ensures var r := TruncRem(x, Abs(y));
            x % y == if r < 0 then r + Abs(y) else r
  {
    var d: int := Abs(y);
    TruncRemSign(x, d);
    var q: int, r := TruncDiv(x, d), TruncRem(x, d);
    var s: int := if y < 0 then -1 else 1;
    if r < 0 {
      Scale(d, y, s, q - 1);
      assert d * (q - 1) == d * q - d;
      ModUnique(x, y, s * (q - 1), r + d);
    } else {
      Scale(d, y, s, q);
      ModUnique(x, y, s * q, r);
    }
  }

  /** `mod` is right for all dividends and non-zero divisors, in whatever form: the residue in [0, |b|). */
  lemma ModExactly(a: IntVal, b: IntVal)
    requires a.Valid() && b.Valid() && b.Value() != 0
    ensures Mod(a, b).Defined? && Mod(a, b).value.Valid()
    ensures Mod(a, b).value.Value() == a.Value() % b.Value()
  {
    hide Rem, TruncRem, Add, Neg;
    var r := if Less(b, Native(0)) then Neg(b) else b;
    assert r.Value() == Abs(b.Value());
    RemExactly(a, r);
    var t := TruncRem(a.Value(), r.Value());
    SignOfTruncRem(a.Value(), r.Value());
    ModOfTruncRem(a.Value(), b.Value());
    assert Rem(a, r).value.Value() == t;
  }
}
