/**
 Conversions between bitstrings, hexstrings and octetstrings (compiler2/PredefFunc.cc).
 */
module BitHex {
  import opened Results
  import opened Conversions

  // ---------------------------------------------------------------- specification

  function Zeros(n: nat): (z: string)
    ensures |z| == n && IsBitString(z)
  {
    seq(n, _ => '0')
  }

  /** How many groups of four bits hold `size` bits. */
  function Groups(size: nat): (n: nat)
    ensures size <= 4 * n < size + 4
  {
    (size + 3) / 4
  }

  /** How many octets hold `size` bits. */
  function Octets(size: nat): (n: nat)
    ensures size <= 8 * n < size + 8
  {
    (size + 7) / 8
  }

  /** Padded on the left to whole groups of four bits. */
  function PadLeft(s: string): (p: string)
    ensures |p| == 4 * Groups(|s|) && (IsBitString(s) ==> IsBitString(p))
  {
    Zeros(4 * Groups(|s|) - |s|) + s
  }

  /** Padded on the right to whole octets. */
  function PadRight(s: string): (p: string)
    ensures |p| == 8 * Octets(|s|) && (IsBitString(s) ==> IsBitString(p))
  {
    s + Zeros(8 * Octets(|s|) - |s|)
  }

  /** The value of the four bits from `i` on. */
  function Nibble(p: string, i: nat): (n: nat)
    requires i + 4 <= |p|
    ensures n < 16
  {
    8 * Bit(p[i]) + 4 * Bit(p[i + 1]) + 2 * Bit(p[i + 2]) + Bit(p[i + 3])
  }

  /** The first `n` groups of four bits as hexadecimal digits. */
  function BitsToHex(p: string, n: nat): (h: string)
    requires 4 * n <= |p|
    ensures |h| == n && IsUpperHexString(h)
  {
    if n == 0 then "" else BitsToHex(p, n - 1) + [HexChar(Nibble(p, 4 * (n - 1)))]
  }

  lemma BitsToHexStep(p: string, n: nat)
    requires 4 * n + 4 <= |p|
    ensures BitsToHex(p, n + 1) == BitsToHex(p, n) + [HexChar(Nibble(p, 4 * n))]
    ensures Nibble(p, 4 * n) == Nibble(p[4 * n..4 * n + 4], 0)
  {
  }

  lemma NoGroups(p: string)
    ensures BitsToHex(p, 0) == ""
  {
  }

  function NibbleBits(n: nat): (b: string)
    requires n < 16
    ensures |b| == 4 && IsBitString(b)
  {
    [if n >= 8 then '1' else '0', if n % 8 >= 4 then '1' else '0',
     if n % 4 >= 2 then '1' else '0', if n % 2 == 1 then '1' else '0']
  }

  /** The bits of the first `n` hexadecimal digits. */
  function HexToBits(h: string, n: nat): (b: string)
    requires n <= |h| && IsHexString(h[..n])
    ensures |b| == 4 * n && IsBitString(b)
  {
    if n == 0 then "" else
      assert h[..n - 1] == h[..n][..n - 1] && h[..n][n - 1] == h[n - 1];
      HexToBits(h, n - 1) + NibbleBits(HexDigit(h[n - 1]))
  }

  // ---------------------------------------------------------------- the conversions

  /** `bit2hex` */
  method Bit2Hex(bstr: string) returns (r: string)
    ensures r == BitsToHex(PadLeft(bstr), Groups(|bstr|))
  {
    var size := |bstr|;
    var hsize := Groups(size);
    var bstr4 := bstr;
    if size % 4 != 0 {
      bstr4 := Zeros(hsize * 4)[..4 - size % 4] + bstr;
    }
    assert bstr4 == PadLeft(bstr);
    r := ConvertGroups(bstr4, hsize);
  }

  /** The loop of `bit2hex` */
  method ConvertGroups(bstr4: string, hsize: nat) returns (r: string)
    requires |bstr4| == 4 * hsize
    ensures r == BitsToHex(bstr4, hsize)
  {
    hide BitsToHex, Nibble, HexChar, IsUpperHexString;
    var hstr := new char[hsize];
    NoGroups(bstr4);
    for i := 0 to hsize
      invariant hstr[..i] == BitsToHex(bstr4, i)
    {
      BitsToHexStep(bstr4, i);
      var digit := FourBits(bstr4[i * 4..i * 4 + 4]);
      hstr[i] := digit;
      assert hstr[..i + 1] == hstr[..i] + [digit];
    }
    r := hstr[..];
  }

  /** One digit of `bit2hex` */
  method FourBits(b4: string) returns (c: char)
    requires |b4| == 4
    ensures c == HexChar(Nibble(b4, 0))
  {
    var u;
    if b4[0] == '1' { u := 8; } else { u := 0; }
    if b4[1] == '1' { u := u + 4; }
    if b4[2] == '1' { u := u + 2; }
    if b4[3] == '1' { u := u + 1; }
    c := HexChar(u);
  }

  /** One digit of `hex2bit` */
  function DigitBits(c: char): (b: Result<string>)
    ensures b.Ok? <==> IsHexDigit(c)
    ensures b.Ok? ==> b.value == NibbleBits(HexDigit(c))
  {
    match c
    case '0' => Ok("0000") case '1' => Ok("0001") case '2' => Ok("0010") case '3' => Ok("0011")
    case '4' => Ok("0100") case '5' => Ok("0101") case '6' => Ok("0110") case '7' => Ok("0111")
    case '8' => Ok("1000") case '9' => Ok("1001") case 'A' => Ok("1010") case 'a' => Ok("1010")
    case 'B' => Ok("1011") case 'b' => Ok("1011") case 'C' => Ok("1100") case 'c' => Ok("1100")
    case 'D' => Ok("1101") case 'd' => Ok("1101") case 'E' => Ok("1110") case 'e' => Ok("1110")
    case 'F' => Ok("1111") case 'f' => Ok("1111")
    case _ => Fatal
  }

  /** `hex2bit`; a character that is no hexadecimal digit is a fatal error. */
  method Hex2Bit(hstr: string) returns (r: Result<string>)
    ensures r.Ok? <==> IsHexString(hstr)
    ensures r.Ok? ==> r.value == HexToBits(hstr, |hstr|)
  {
    hide DigitBits;
    var bstr := "";
    for i := 0 to |hstr|
      invariant IsHexString(hstr[..i]) && bstr == HexToBits(hstr, i)
    {
      var bits := DigitBits(hstr[i]);
      if bits.Fatal? {
        return Fatal;
      }
      bstr := bstr + bits.value;
    }
    assert hstr[..|hstr|] == hstr;
    r := Ok(bstr);
  }

  /** `hex2oct` */
  function Hex2Oct(h: string): (o: string)
    requires IsHexString(h)
    ensures |o| == (|h| + 1) / 2 * 2 && IsHexString(o)
  {
    if |h| % 2 == 0 then h else "0" + h
  }

  /** `bit2oct` */
  method Bit2Oct(bstr: string) returns (r: string)
    ensures r == Hex2Oct(BitsToHex(PadLeft(bstr), Groups(|bstr|)))
  {
    var h := Bit2Hex(bstr);
    r := Hex2Oct(h);
  }

  /** One digit of `asn_bit2oct`: up to four bits from `start` on, missing ones count as zero. */
  method TakeNibble(bstr: string, start: nat, ghost p: string, ghost group: nat) returns (digit: Result<nat>, i: nat)
    requires start == (if group <= |bstr| then group else |bstr|) && IsBitString(bstr[..start])
    requires group + 4 <= |p| && bstr <= p
    requires forall k :: |bstr| <= k < |p| ==> p[k] == '0'
    ensures i == if group + 4 <= |bstr| then group + 4 else |bstr|
    ensures digit.Ok? <==> IsBitString(bstr[..i])
    ensures digit.Ok? ==> digit.value == Nibble(p, group)
  {
    i := start;
    var n, ok, weight := 0, true, 8;
    while i < |bstr| && weight > 0
      invariant start <= i <= |bstr| && i <= start + 4
      invariant weight == [8, 4, 2, 1, 0][i - start]
      invariant ok <==> IsBitString(bstr[..i])
      invariant ok ==> n + RestOfNibble(p, group, i - start) == Nibble(p, group)
    {
      assert bstr[..i + 1] == bstr[..i] + [bstr[i]];
      ok := ok && bstr[i] in {'0', '1'};
      n := n + if bstr[i] == '1' then weight else 0;
      weight := weight / 2;
      i := i + 1;
    }
    digit := if ok then Ok(n) else Fatal;
  }

  function RestOfNibble(p: string, start: nat, k: nat): nat
    requires start + 4 <= |p|
  {
    (if k <= 0 then 8 * Bit(p[start]) else 0) + (if k <= 1 then 4 * Bit(p[start + 1]) else 0) +
    (if k <= 2 then 2 * Bit(p[start + 2]) else 0) + (if k <= 3 then Bit(p[start + 3]) else 0)
  }

  /** `asn_bit2oct`; a character that is no bit is a fatal error. */
  method AsnBit2Oct(bstr: string) returns (r: Result<string>)
    ensures r.Ok? <==> IsBitString(bstr)
    ensures r.Ok? ==> r.value == BitsToHex(PadRight(bstr), 2 * Octets(|bstr|))
  {
    hide BitsToHex, Nibble, HexChar, IsUpperHexString, PadRight, Octets;
    ghost var p := PadRight(bstr);
    NoGroups(p);
    PaddedRight(bstr);
    var size := |bstr|;
    var octets := Octets(size);
    var ostr := new char[octets * 2];
    var i, j := 0, 0;
    ghost var k := 0;
    while i < size
      invariant 0 <= k <= octets && j == 2 * k && (i == 8 * k <= size || (i == size && k == octets))
      invariant IsBitString(bstr[..i])
      invariant ostr[..j] == BitsToHex(p, j)
    {
      var digit1, digit2;
      digit1, i := TakeNibble(bstr, i, p, 8 * k);
      if digit1.Fatal? {
        return Fatal;
      }
      digit2, i := TakeNibble(bstr, i, p, 8 * k + 4);
      if digit2.Fatal? {
        return Fatal;
      }
      BitsToHexStep(p, j);
      BitsToHexStep(p, j + 1);
      ostr[j] := HexChar(digit1.value);
      assert ostr[..j + 1] == ostr[..j] + [HexChar(digit1.value)];
      ostr[j + 1] := HexChar(digit2.value);
      assert ostr[..j + 2] == ostr[..j + 1] + [HexChar(digit2.value)];
      j, k := j + 2, k + 1;
    }
    assert bstr[..size] == bstr && ostr[..j] == ostr[..];
    r := Ok(ostr[..]);
  }

  lemma PaddedRight(s: string)
    ensures s <= PadRight(s) && forall k :: |s| <= k < |PadRight(s)| ==> PadRight(s)[k] == '0'
  {
  }

  // ---------------------------------------------------------------- what the conversions keep

  lemma NibbleRoundTrip(p: string, i: nat)
    requires i + 4 <= |p| && IsBitString(p)
    ensures NibbleBits(Nibble(p, i)) == p[i..i + 4]
  {
  }

  lemma {:induction false} HexToBitsInverts(p: string, n: nat, h: string)
    requires IsBitString(p) && 4 * n <= |p| && n <= |h| && h[..n] == BitsToHex(p, n)
    ensures HexToBits(h, n) == p[..4 * n]
  {
    hide Nibble, NibbleBits, HexChar, HexDigit;
    if n > 0 {
      assert h[..n - 1] == h[..n][..n - 1] && h[n - 1] == h[..n][n - 1];
      HexToBitsInverts(p, n - 1, h);
      NibbleRoundTrip(p, 4 * (n - 1));
      assert p[..4 * n] == p[..4 * n - 4] + p[4 * n - 4..4 * n];
    }
  }

  /** `hex2bit(bit2hex(b))` is `b` padded on the left with zeros. */
  method HexThereAndBack(bstr: string) returns (r: Result<string>)
    requires IsBitString(bstr)
    ensures r == Ok(PadLeft(bstr))
  {
    hide BitsToHex, HexToBits;
    var h := Bit2Hex(bstr);
    r := Hex2Bit(h);
    HexToBitsInverts(PadLeft(bstr), |h|, h);
    assert h[..|h|] == h && PadLeft(bstr)[..4 * |h|] == PadLeft(bstr);
  }

  /** `hex2bit(asn_bit2oct(b))` is `b` padded on the right with zeros. */
  method AsnThereAndBack(bstr: string) returns (r: Result<string>)
    requires IsBitString(bstr)
    ensures r == Ok(PadRight(bstr))
  {
    hide BitsToHex, HexToBits;
    var o := AsnBit2Oct(bstr);
    var h := o.value;
    r := Hex2Bit(h);
    HexToBitsInverts(PadRight(bstr), |h|, h);
    assert h[..|h|] == h && PadRight(bstr)[..4 * |h|] == PadRight(bstr);
  }

  lemma FourBitsValue(p: string, i: nat)
    requires i + 4 <= |p|
    ensures BitsValue(p[..i + 4]) == 16 * BitsValue(p[..i]) + Nibble(p, i)
  {
    hide BitsValue;
    BitsValueSnoc(p, i);
    BitsValueSnoc(p, i + 1);
    BitsValueSnoc(p, i + 2);
    BitsValueSnoc(p, i + 3);
  }

  lemma {:induction false} BitsToHexValue(p: string, n: nat)
    requires 4 * n <= |p|
    ensures HexValue(BitsToHex(p, n)) == BitsValue(p[..4 * n])
  {
    hide BitsValue, HexValue, Nibble, HexChar, HexDigit;
    StartValues(0);
    if n == 0 {
      assert p[..0] == "";
    } else {
      BitsToHexValue(p, n - 1);
      FourBitsValue(p, 4 * (n - 1));
      var h := BitsToHex(p, n);
      HexValueSnoc(h, n - 1);
      assert h[..n] == h && h[..n - 1] == BitsToHex(p, n - 1);
    }
  }

  lemma ZerosValue(z: nat, s: string)
    ensures BitsValue(Zeros(z) + s) == BitsValue(s)
  {
    assert BitDigits(Zeros(z) + s) == BitDigits(Zeros(z)) + BitDigits(s);
    LeadingZeros(false, BitDigits(Zeros(z)), BitDigits(s));
  }

  lemma LeadingZeroDigit(h: string)
    requires IsHexString(h)
    ensures IsHexString("0" + h) && HexValue("0" + h) == HexValue(h)
  {
    assert HexDigits("0" + h) == [0] + HexDigits(h);
    LeadingZeros(true, [0], HexDigits(h));
  }

  /** Neither `bit2hex` nor `bit2oct` changes the number that the string stands for. */
  lemma ValueKept(bstr: string)
    ensures HexValue(BitsToHex(PadLeft(bstr), Groups(|bstr|))) == BitsValue(bstr)
    ensures HexValue(Hex2Oct(BitsToHex(PadLeft(bstr), Groups(|bstr|)))) == BitsValue(bstr)
  {
    hide BitsValue, HexValue, BitsToHex, Nibble, IsBitString, Groups;
    var n := Groups(|bstr|);
    var p := PadLeft(bstr);
    assert p[..4 * n] == p;
    BitsToHexValue(p, n);
    ZerosValue(4 * n - |bstr|, bstr);
    LeadingZeroDigit(BitsToHex(p, n));
  }
}
