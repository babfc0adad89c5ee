/** The conversions between integers, bitstrings, hexstrings and octetstrings of compiler2/PredefFunc.cc. */
module Conversions {
  import opened Results
  import opened Bits
  import opened IntVal
  import opened IntCell

  // ---------------------------------------------------------------- numerals

  /** One digit further to the left, in base 2 or 16. */
  function Up(hex: bool, x: nat): nat {
    if hex then 16 * x else 2 * x
  }

  function Base(hex: bool): nat {
    Up(hex, 1)
  }

  /** `x` followed by `n` zeros. */
  function Shifted(hex: bool, x: nat, n: nat): nat {
    if n == 0 then x else Up(hex, Shifted(hex, x, n - 1))
  }

  /** The number that digits stand for, most significant first. */
  function Numeral(hex: bool, digits: seq<nat>): nat {
    if digits == [] then 0 else Up(hex, Numeral(hex, digits[..|digits| - 1])) + digits[|digits| - 1]
  }

  predicate AreDigits(hex: bool, digits: seq<nat>) {
    forall i :: 0 <= i < |digits| ==> digits[i] < Base(hex)
  }

  lemma {:induction false} ShiftedIsPow2(hex: bool, n: nat)
    ensures Shifted(hex, 1, n) == Pow2(if hex then 4 * n else n)
  {
    if n > 0 {
      ShiftedIsPow2(hex, n - 1);
      var k := if hex then 4 * n else n;
      assert hex ==> Pow2(k) == 2 * Pow2(k - 1) == 4 * Pow2(k - 2) == 8 * Pow2(k - 3) == 16 * Pow2(k - 4);
    }
  }

  lemma {:induction false} ShiftedAtLeast(hex: bool, x: nat, n: nat)
    requires 0 < x
    ensures Shifted(hex, 1, n) <= Shifted(hex, x, n)
  {
    if n > 0 {
      ShiftedAtLeast(hex, x, n - 1);
    }
  }

  /** Shifting a number is shifting its last digit and the rest of it. */
  lemma {:induction false} ShiftedSum(hex: bool, high: nat, digit: nat, n: nat)
    ensures Shifted(hex, Up(hex, high) + digit, n) == Shifted(hex, high, n + 1) + Shifted(hex, digit, n)
  {
    if n > 0 {
      ShiftedSum(hex, high, digit, n - 1);
    }
  }

  lemma {:induction false} NumeralBound(hex: bool, digits: seq<nat>)
    requires AreDigits(hex, digits)
    ensures Numeral(hex, digits) < Shifted(hex, 1, |digits|)
  {
    if digits != [] {
      NumeralBound(hex, digits[..|digits| - 1]);
    }
  }

  /** Numerals of the same length that stand for the same number are the same. */
  lemma {:induction false} NumeralInjective(hex: bool, s: seq<nat>, t: seq<nat>)
    requires |s| == |t| && AreDigits(hex, s) && AreDigits(hex, t) && Numeral(hex, s) == Numeral(hex, t)
    ensures s == t
  {
    if s != [] {
      var n := |s| - 1;
      UpInjective(hex, Numeral(hex, s[..n]), s[n], Numeral(hex, t[..n]), t[n]);
      NumeralInjective(hex, s[..n], t[..n]);
      assert s == s[..n] + [s[n]] && t == t[..n] + [t[n]];
    }
  }

  lemma UpInjective(hex: bool, a: nat, x: nat, b: nat, y: nat)
    requires Up(hex, a) + x == Up(hex, b) + y && x < Base(hex) && y < Base(hex)
    ensures a == b && x == y
  {
  }

  lemma UpSplit(hex: bool, v: nat)
    ensures Up(hex, v / Base(hex)) + v % Base(hex) == v
  {
  }

  lemma {:induction false} NumeralCons(hex: bool, digit: nat, low: seq<nat>)
    ensures Numeral(hex, [digit] + low) == Shifted(hex, digit, |low|) + Numeral(hex, low)
  {
    var s := [digit] + low;
    if low == [] {
      assert s[..0] == [];
    } else {
      NumeralCons(hex, digit, low[..|low| - 1]);
      assert s[..|low|] == [digit] + low[..|low| - 1];
    }
  }

  lemma {:induction false} LeadingZeros(hex: bool, zeros: seq<nat>, s: seq<nat>)
    requires forall i :: 0 <= i < |zeros| ==> zeros[i] == 0
    ensures Numeral(hex, zeros + s) == Numeral(hex, s)
  {
    if zeros == [] {
      assert zeros + s == s;
    } else {
      LeadingZeros(hex, zeros[1..], s);
      assert zeros + s == [0] + (zeros[1..] + s);
      NumeralCons(hex, 0, zeros[1..] + s);
      ShiftedZero(hex, |zeros[1..] + s|);
    }
  }

  lemma {:induction false} ShiftedZero(hex: bool, n: nat)
    ensures Shifted(hex, 0, n) == 0
  {
    if n > 0 {
      ShiftedZero(hex, n - 1);
    }
  }

  /** Taking the lowest digit of `v` and putting it in front of the digits taken before. */
  lemma TakeDigit(hex: bool, v: nat, low: seq<nat>)
    ensures var digit := v % Base(hex);
            Shifted(hex, v, |low|) + Numeral(hex, low) ==
            Shifted(hex, v / Base(hex), |low| + 1) + Numeral(hex, [digit] + low)
  {
    hide Shifted, Numeral;
    UpSplit(hex, v);
    ShiftedSum(hex, v / Base(hex), v % Base(hex), |low|);
    NumeralCons(hex, v % Base(hex), low);
  }

  /** A number fits in the digits taken from it exactly when nothing is left of it. */
  lemma NumeralFits(hex: bool, left: nat, digits: seq<nat>)
    requires AreDigits(hex, digits)
    ensures Shifted(hex, left, |digits|) + Numeral(hex, digits) < Shifted(hex, 1, |digits|) <==> left == 0
  {
    NumeralBound(hex, digits);
    if left == 0 {
      ShiftedZero(hex, |digits|);
    } else {
      ShiftedAtLeast(hex, left, |digits|);
    }
  }

  // ---------------------------------------------------------------- digits

  /** Any character but '1' counts as a zero bit. */
  function Bit(c: char): nat {
    if c == '1' then 1 else 0
  }

  predicate IsBitString(s: string) {
    forall i :: 0 <= i < |s| ==> s[i] in {'0', '1'}
  }

  function BitDigits(s: string): seq<nat> {
    seq(|s|, i requires 0 <= i < |s| => Bit(s[i]))
  }

  predicate IsHexDigit(c: char) {
    '0' <= c <= '9' || 'A' <= c <= 'F' || 'a' <= c <= 'f'
  }

  predicate IsHexString(s: string) {
    forall i :: 0 <= i < |s| ==> IsHexDigit(s[i])
  }

  /** `char_to_hexdigit` of a hexadecimal digit. */
  function HexDigit(c: char): (n: nat)
    requires IsHexDigit(c)
    ensures n < 16
  {
    if '0' <= c <= '9' then c as int - '0' as int
    else if 'A' <= c <= 'F' then c as int - 'A' as int + 10
    else c as int - 'a' as int + 10
  }

  /** `hexdigit_to_char` */
  function HexChar(n: nat): (c: char)
    requires n < 16
    ensures IsHexDigit(c) && HexDigit(c) == n && !('a' <= c <= 'f')
  {
    if n < 10 then ('0' as int + n) as char else ('A' as int + n - 10) as char
  }

  function HexDigits(s: string): seq<nat>
    requires IsHexString(s)
  {
    seq(|s|, i requires 0 <= i < |s| => HexDigit(s[i]))
  }

  predicate IsUpperHexString(s: string) {
    forall i :: 0 <= i < |s| ==> IsHexDigit(s[i]) && !('a' <= s[i] <= 'f')
  }

  function Upper(s: string): (u: string)
    requires IsHexString(s)
    ensures |u| == |s| && IsUpperHexString(u)
  {
    seq(|s|, i requires 0 <= i < |s| => HexChar(HexDigit(s[i])))
  }

  // ---------------------------------------------------------------- to integers

  function BitsValue(s: string): nat {
    Numeral(false, BitDigits(s))
  }

  function HexValue(s: string): nat
    requires IsHexString(s)
  {
    Numeral(true, HexDigits(s))
  }

  lemma StartValues(v: nat)
    ensures IsBitString("") && BitsValue("") == 0 && HexValue("") == 0 && Shifted(false, v, 0) == v && Shifted(true, v, 0) == v
    ensures Pow2(1) == 2 && Pow2(4) == 16
  {
  }

  lemma BitsValueSnoc(s: string, i: nat)
    requires i < |s|
    ensures BitsValue(s[..i + 1]) == BitsValue(s[..i]) * 2 + Bit(s[i])
  {
    assert BitDigits(s[..i + 1])[..i] == BitDigits(s[..i]);
  }

  lemma HexValueSnoc(s: string, i: nat)
    requires i < |s| && IsHexString(s[..i + 1])
    ensures HexValue(s[..i + 1]) == HexValue(s[..i]) * 16 + HexDigit(s[i])
  {
    assert s[..i + 1][i] == s[i];
    assert HexDigits(s[..i + 1])[..i] == HexDigits(s[..i]);
  }

  /** `bit2int` */
  method Bit2Int(bstr: string) returns (r: IntVal)
    ensures r.Valid() && r.Value() == BitsValue(bstr)
  {
    hide BitsValue, Pow2, AddWord;
    StartValues(0);
    assert bstr[..0] == "";
    var start := 0;
    while start < |bstr| && bstr[start] == '0'
      invariant 0 <= start <= |bstr| && BitsValue(bstr[..start]) == 0
    {
      BitsValueSnoc(bstr, start);
      start := start + 1;
    }
    var ret := new IntCell(0);
    for i := start to |bstr|
      invariant ret.Get().Valid() && ret.Get().Value() == BitsValue(bstr[..i])
    {
      BitsValueSnoc(bstr, i);
      var _ := ret.ShiftLeft(1);
      if bstr[i] == '1' {
        AddWordExactly(ret.Get(), 1);
        ret.AddAssign(1);
      }
    }
    assert bstr[..|bstr|] == bstr;
    r := ret.Get();
  }

  /** `hex2int`; a character that is no hexadecimal digit is a fatal error. */
  method Hex2Int(hstr: string) returns (r: Result<IntVal>)
    ensures r.Ok? <==> IsHexString(hstr)
    ensures r.Ok? ==> r.value.Valid() && r.value.Value() == HexValue(hstr)
  {
    hide HexValue, Pow2, AddWord;
    StartValues(0);
    assert hstr[..0] == "";
    var start := 0;
    while start < |hstr| && hstr[start] == '0'
      invariant 0 <= start <= |hstr| && IsHexString(hstr[..start]) && HexValue(hstr[..start]) == 0
    {
      HexValueSnoc(hstr, start);
      start := start + 1;
    }
    var ret := new IntCell(0);
    for i := start to |hstr|
      invariant IsHexString(hstr[..i])
      invariant ret.Get().Valid() && ret.Get().Value() == HexValue(hstr[..i])
    {
      if !IsHexDigit(hstr[i]) {
        return Fatal;
      }
      HexValueSnoc(hstr, i);
      var _ := ret.ShiftLeft(4);
      AddWordExactly(ret.Get(), HexDigit(hstr[i]));
      ret.AddAssign(HexDigit(hstr[i]));
    }
    assert hstr[..|hstr|] == hstr;
    r := Ok(ret.Get());
  }

  // ---------------------------------------------------------------- from integers

  /** The lowest digit, which is shifted out. */
  method LowDigit(tmp: IntCell, hex: bool) returns (digit: nat)
    requires tmp.Get().Valid() && tmp.Get().Value() >= 0
    modifies tmp
    ensures tmp.Get().Valid() && tmp.Get().Value() >= 0
    ensures digit == old(tmp.Get().Value()) % Base(hex) && tmp.Get().Value() == old(tmp.Get().Value()) / Base(hex)
  {
    hide Pow2;
    StartValues(0);
    var k := if hex then 4 else 1;
    MaskIsMod(tmp.Get(), k);
    digit := BitAnd(tmp.Get(), if hex then 0x0F else 1);
    var _ := tmp.ShiftRight(k);
  }

  /** `int2bit`: fatal for a negative length, a negative value, and a value that does not fit. */
  method Int2Bit(value: IntVal, length: int) returns (r: Result<string>)
    requires value.Valid()
    ensures r.Ok? <==> length >= 0 && 0 <= value.Value() < Pow2(length)
    ensures r.Ok? ==> |r.value| == length && IsBitString(r.value) && BitsValue(r.value) == value.Value()
  {
    hide BitsValue, Pow2, Shifted, IsBitString;
    if length < 0 || Less(value, Native(0)) {
      return Fatal;
    }
    StartValues(value.Value());
    var bstr := new char[length];
    var tmp := new IntCell(0);
    tmp.Assign(value);
    ghost var low := "";
    for i := 1 to length + 1
      invariant tmp.Get().Valid() && tmp.Get().Value() >= 0
      invariant low == bstr[length - i + 1..] && IsBitString(low)
      invariant value.Value() == Shifted(false, tmp.Get().Value(), i - 1) + BitsValue(low)
    {
      ghost var v := tmp.Get().Value();
      var digit := LowDigit(tmp, false);
      bstr[length - i] := if digit != 0 then '1' else '0';
      assert bstr[length - i + 1..] == low;
      TakeBit(v, bstr[length - i], low);
      low := [bstr[length - i]] + low;
      assert bstr[length - i..] == low;
    }
    assert low == bstr[..];
    BitsFit(tmp.Get().Value(), bstr[..]);
    if !Equal(tmp.Get(), Native(0)) {
      return Fatal;
    }
    r := Ok(bstr[..]);
  }

  lemma TakeBit(v: nat, c: char, low: string)
    requires c in {'0', '1'} && Bit(c) == v % 2 && IsBitString(low)
    ensures IsBitString([c] + low)
    ensures Shifted(false, v, |low|) + BitsValue(low) == Shifted(false, v / 2, |low| + 1) + BitsValue([c] + low)
  {
    hide Shifted, Numeral;
    TakeDigit(false, v, BitDigits(low));
    assert BitDigits([c] + low) == [Bit(c)] + BitDigits(low);
  }

  lemma BitsFit(left: nat, s: string)
    ensures Shifted(false, left, |s|) + BitsValue(s) < Pow2(|s|) <==> left == 0
    ensures left == 0 ==> Shifted(false, left, |s|) == 0
  {
    ShiftedIsPow2(false, |s|);
    ShiftedZero(false, |s|);
    NumeralFits(false, left, BitDigits(s));
  }

  /** `int2hex`, in the same way for hexadecimal digits. */
  method Int2Hex(value: IntVal, length: int) returns (r: Result<string>)
    requires value.Valid()
    ensures r.Ok? <==> length >= 0 && 0 <= value.Value() < Pow2(4 * length)
    ensures r.Ok? ==> |r.value| == length && IsUpperHexString(r.value) && HexValue(r.value) == value.Value()
  {
    hide HexValue, Pow2, Shifted, HexDigit, HexChar;
    if length < 0 || Less(value, Native(0)) {
      return Fatal;
    }
    StartValues(value.Value());
    var hstr := new char[length];
    var tmp := new IntCell(0);
    tmp.Assign(value);
    ghost var low := "";
    for i := 1 to length + 1
      invariant tmp.Get().Valid() && tmp.Get().Value() >= 0
      invariant low == hstr[length - i + 1..] && IsUpperHexString(low)
      invariant value.Value() == Shifted(true, tmp.Get().Value(), i - 1) + HexValue(low)
    {
      ghost var v := tmp.Get().Value();
      var digit := LowDigit(tmp, true);
      hstr[length - i] := HexChar(digit);
      assert hstr[length - i + 1..] == low;
      TakeHexDigit(v, hstr[length - i], low);
      low := [hstr[length - i]] + low;
    }
    assert low == hstr[..];
    HexFits(tmp.Get().Value(), hstr[..]);
    if !Equal(tmp.Get(), Native(0)) {
      return Fatal;
    }
    r := Ok(hstr[..]);
  }

  lemma TakeHexDigit(v: nat, c: char, low: string)
    requires IsHexDigit(c) && HexDigit(c) == v % 16 && IsHexString(low)
    ensures Shifted(true, v, |low|) + HexValue(low) == Shifted(true, v / 16, |low| + 1) + HexValue([c] + low)
  {
    hide Shifted, Numeral;
    TakeDigit(true, v, HexDigits(low));
    assert HexDigits([c] + low) == [HexDigit(c)] + HexDigits(low);
  }

  lemma HexFits(left: nat, s: string)
    requires IsHexString(s)
    ensures Shifted(true, left, |s|) + HexValue(s) < Pow2(4 * |s|) <==> left == 0
    ensures left == 0 ==> Shifted(true, left, |s|) == 0
  {
    ShiftedIsPow2(true, |s|);
    ShiftedZero(true, |s|);
    NumeralFits(true, left, HexDigits(s));
  }

  // ---------------------------------------------------------------- integer round trips

  lemma SameBits(s: string, t: string)
    requires |s| == |t| && IsBitString(s) && IsBitString(t) && BitsValue(s) == BitsValue(t)
    ensures s == t
  {
    NumeralInjective(false, BitDigits(s), BitDigits(t));
    forall i | 0 <= i < |s| ensures s[i] == t[i] {
      assert BitDigits(s)[i] == BitDigits(t)[i];
    }
  }

  lemma SameHex(s: string, t: string)
    requires |s| == |t| && IsHexString(s) && IsUpperHexString(t) && HexValue(s) == HexValue(t)
    ensures Upper(s) == t
  {
    NumeralInjective(true, HexDigits(s), HexDigits(t));
    forall i | 0 <= i < |s| ensures Upper(s)[i] == t[i] {
      assert HexDigits(s)[i] == HexDigits(t)[i];
    }
  }

  /** `int2bit(bit2int(s), lengthof(s))` is `s`, whatever its length. */
  method BitRoundTrip(bstr: string) returns (r: Result<string>)
    requires IsBitString(bstr)
    ensures r == Ok(bstr)
  {
    var n := Bit2Int(bstr);
    r := Int2Bit(n, |bstr|);
    BitsFit(0, bstr);
    SameBits(bstr, r.value);
  }

  /** `int2hex(hex2int(h), lengthof(h))` is `h` in upper case. */
  method HexRoundTrip(hstr: string) returns (r: Result<string>)
    requires IsHexString(hstr)
    ensures r == Ok(Upper(hstr))
  {
    var n := Hex2Int(hstr);
    r := Int2Hex(n.value, |hstr|);
    HexFits(0, hstr);
    SameHex(hstr, r.value);
  }
}
