/** The operators of `int_val_t` that change the object: compiler2/Int.cc. */
module IntCell {
  import opened Bits
  import opened IntVal

  class IntCell {
    var nativeFlag: bool
    var val: int

    function Get(): IntVal
      reads this
    {
      if nativeFlag then Native(val) else Big(val)
    }

    constructor (v: int)
      requires IsNative(v)
      ensures Get() == Native(v)
    {
      nativeFlag, val := true, v;
    }

    method Assign(right: IntVal)
      modifies this
      ensures Get() == right
    {
      nativeFlag, val := right.Native?, right.Value();
    }

    /** `operator<<=`; a negative shift is a fatal error. */
    method ShiftLeft(right: int) returns (ok: bool)
      requires Get().Valid()
      modifies this
      ensures ok <==> right >= 0
      ensures Get().Valid() && Get().Value() == old(Get().Value()) * if ok then Pow2(right) else 1
    {
      if right < 0 {
        return false;
      }
      ok := true;
      if right == 0 {
        return;
      }
      var result := val * Pow2(right);
      if nativeFlag {
        NumBitsAtMost(result, 63);
        Pow2Of63();
        if NumBits(result) > 63 {
          val, nativeFlag := result, false;
        } else {
          val := Wrap(result);
        }
      } else {
        ProductAtLeast(val, Pow2(right));
        assert val < 0 ==> result < 0;
        val := result;
      }
    }

    /** `operator>>=`: native values are rounded down, big ones toward zero. */
    method ShiftRight(right: int) returns (r: Shift)
      requires Get().Valid()
      modifies this
      ensures r == if right < 0 then NegativeCount else if old(nativeFlag) && right >= 64 then TooFar else Done
      ensures !r.Done? ==> Get() == old(Get())
      ensures r.Done? ==> Get().Valid() && Get().Value() == Shifted(old(Get()), right)
    {
      if right < 0 {
        return NegativeCount;
      }
      if right == 0 {
        return Done;
      }
      if nativeFlag {
        if right >= 64 {
          return TooFar;
        }
        FloorIsNative(val, Pow2(right));
        val := val / Pow2(right);
      } else {
        val := TruncDiv(val, Pow2(right));
        NumBitsAtMost(val, 63);
        Pow2Of63();
        if NumBits(val) <= 63 {
          nativeFlag := true;
        }
      }
      return Done;
    }

    /** `operator+=` */
    method AddAssign(right: int)
      requires Get().Valid() && IsNative(right)
      modifies this
      ensures Get() == AddWord(old(Get()), right)
    {
      hide NumBits, Wrap;
      if right == 0 {
        return;
      }
      var neg := right < 0;
      if nativeFlag {
        var result := val % TWO64;
        result := if neg then result - right % TWO64 else result + right % TWO64;
        if NumBits(result) > 63 {
          val, nativeFlag := result, false;
        } else {
          val := Wrap(val + right);
        }
      } else {
        val := if neg then val - right % TWO64 else val + right % TWO64;
        if NumBits(val) <= 63 {
          nativeFlag := true;
        }
      }
    }
  }

  /** A negative count is a fatal error; C leaves shifting by the whole width undefined. */
  datatype Shift = NegativeCount | TooFar | Done

  /** What shifting leaves of a value. */
  function Shifted(a: IntVal, k: nat): int {
    if a.Native? then a.native / Pow2(k) else TruncDiv(a.openssl, Pow2(k))
  }

  lemma FloorIsNative(x: int, d: nat)
    requires IsNative(x) && d > 0
    ensures IsNative(x / d)
  {
    var q := x / d;
    assert x == q * d + x % d;
    if q < 0 {
      MulAtLeast(-q - 1, d, 1);
      assert (-q - 1) * d == -(q * d) - d;
    } else {
      MulAtLeast(q, d, 1);
    }
  }

  // ---------------------------------------------------------------- adding a word

  /** Adding a native operand, which takes part as a word of 64 bits without a sign. */
  function AddWord(a: IntVal, right: int): IntVal {
    var word := right % TWO64;
    if right == 0 then a
    else if a.Native? then
      var result := if right < 0 then a.native % TWO64 - word else a.native % TWO64 + word;
      if NumBits(result) > 63 then Big(result) else Native(Wrap(a.native + right))
    else
      var result := if right < 0 then a.openssl - word else a.openssl + word;
      if NumBits(result) <= 63 then Native(result) else Big(result)
  }

  /**
    The operands that are not added rightly: a negative native value with a positive operand or with an
    underflow, a small difference of a native value and a negative operand, a big value with a negative operand.
  */
  predicate AddWordFails(a: IntVal, right: int) {
    if a.Big? then LLONG_MIN < right < 0
    else if a.native < 0 then right > 0 || a.native + right < LLONG_MIN
    else right < 0 && a.native - right <= -LLONG_MIN && !(a.native == 0 && right == LLONG_MIN)
  }

  /** `+=` is right exactly for the other operands, in particular for all that are not negative. */
  lemma AddWordExactly(a: IntVal, right: int)
    requires a.Valid() && IsNative(right)
    ensures AddWord(a, right).Valid()
    ensures AddWord(a, right).Value() == a.Value() + right <==> !AddWordFails(a, right)
  {
    hide NumBits, Pow2;
    Pow2Of63();
    WordOf(right);
    if a.Native? {
      WordOf(a.native);
      var word, v := right % TWO64, a.native % TWO64;
      NumBitsAtMost(if right < 0 then v - word else v + word, 63);
    } else {
      var word := right % TWO64;
      NumBitsAtMost(if right < 0 then a.openssl - word else a.openssl + word, 63);
    }
  }

  lemma WordOf(x: int)
    requires IsNative(x)
    ensures x % TWO64 == if x < 0 then x + TWO64 else x
  {
  }

  // ---------------------------------------------------------------- masks

  /** The bits that two numbers have in common. */
  function And(x: nat, y: nat): nat {
    if x == 0 || y == 0 then 0 else 2 * And(x / 2, y / 2) + if x % 2 == 1 && y % 2 == 1 then 1 else 0
  }

  /** `operator&` with a mask that is not negative: of a big value, the low word of its absolute value. */
  function BitAnd(a: IntVal, mask: nat): nat {
    And(if a.Native? then a.native % TWO64 else Abs(a.openssl) % TWO64, mask)
  }

  lemma OddMask(x: nat, m: nat)
    requires m > 0
    ensures And(x, 2 * m - 1) == 2 * And(x / 2, m - 1) + x % 2
  {
    assert (2 * m - 1) / 2 == m - 1 && (2 * m - 1) % 2 == 1;
  }

  lemma ModOfHalf(x: nat, m: nat)
    requires m > 0
    ensures x % (2 * m) == 2 * (x / 2 % m) + x % 2
  {
    var q, r := x / 2 / m, x / 2 % m;
    assert x / 2 == m * q + r;
    assert 2 * m * q == 2 * (m * q);
    ModUnique(x, 2 * m, q, 2 * r + x % 2);
  }

  /** A mask of `k` ones keeps the low `k` bits. */
  lemma {:induction false} AndOnes(x: nat, k: nat)
    ensures And(x, Pow2(k) - 1) == x % Pow2(k)
  {
    if k > 0 {
      AndOnes(x / 2, k - 1);
      OddMask(x, Pow2(k - 1));
      ModOfHalf(x, Pow2(k - 1));
    }
  }

  /** The mask gives the low bits of the integer in either form, of a negative big one those of its absolute value. */
  lemma MaskIsMod(a: IntVal, k: nat)
    requires k < 64
    ensures BitAnd(a, Pow2(k) - 1) == (if a.Native? then a.native else Abs(a.openssl)) % Pow2(k)
  {
    hide Pow2, And;
    var x := if a.Native? then a.native else Abs(a.openssl);
    AndOnes(x % TWO64, k);
    LowBits(x, k);
  }

  lemma LowBits(x: int, k: nat)
    requires k < 64
    ensures x % TWO64 % Pow2(k) == x % Pow2(k)
  {
    hide Pow2;
    var m, n := Pow2(64 - k), Pow2(k);
    assert m * n == TWO64 by {
      Pow2Of64();
      Pow2Sum(64 - k, k);
    }
    ModOfMod(x, m, n);
  }

  lemma Pow2Of64()
    ensures Pow2(64) == TWO64
  {
    Pow2Of63();
  }

  lemma ModOfMod(x: int, m: nat, n: nat)
    requires 0 < m && 0 < n && 0 < m * n
    ensures x % (m * n) % n == x % n
  {
    var mn := m * n;
    var q, r := x / mn, x % mn;
    var q', r' := r / n, r % n;
    assert x == mn * q + r && r == n * q' + r';
    assert mn * q == n * (m * q);
    assert n * (m * q + q') == n * (m * q) + n * q';
    ModUnique(x, n, m * q + q', r');
  }
}
