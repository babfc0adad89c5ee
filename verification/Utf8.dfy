/**
 The six-octet UTF-8 decoder and the UTF-8 classifier of compiler2/PredefFunc.cc,
 against the encoding of section 2 of RFC 2279.
 */
module Utf8 {
  import opened Options
  import opened Conversions

  type Octet = x: int | 0 <= x < 256

  // ---------------------------------------------------------------- encoding

  /** `x` followed by `k` groups of six zero bits. */
  function Times64(x: nat, k: nat): nat {
    if k == 0 then x else 64 * Times64(x, k - 1)
  }

  /** The bits that mark the leading octet of a character on `n` octets. */
  function Mark(n: nat): nat
    requires 1 <= n <= 6
  {
    [0, 0xC0, 0xE0, 0xF0, 0xF8, 0xFC][n - 1]
  }

  /** The number of values that the other bits of the leading octet can take. */
  function LeadLimit(n: nat): nat
    requires 1 <= n <= 6
  {
    [0x80, 0x20, 0x10, 0x08, 0x04, 0x02][n - 1]
  }

  /** The first code point that is too large for `n` octets. */
  function Limit(n: nat): nat
    requires n <= 6
  {
    if n == 0 then 0 else Times64(LeadLimit(n), n - 1)
  }

  lemma Limits()
    ensures Limit(0) == 0 && Limit(1) == 0x80 && Limit(2) == 0x800 && Limit(3) == 0x1_0000
    ensures Limit(4) == 0x20_0000 && Limit(5) == 0x400_0000 && Limit(6) == 0x8000_0000
  {
    assert Times64(0x04, 4) == 64 * Times64(0x04, 3) == 4096 * Times64(0x04, 2);
    assert Times64(0x02, 5) == 64 * Times64(0x02, 4) == 4096 * Times64(0x02, 3);
  }

  predicate IsCodePoint(v: nat) {
    v < 0x8000_0000
  }

  /** The number of octets of the shortest encoding. */
  function Size(v: nat): (n: nat)
    requires IsCodePoint(v)
    ensures 1 <= n <= 6 && Limit(n - 1) <= v < Limit(n)
  {
    Limits();
    if v < 0x80 then 1 else if v < 0x800 then 2 else if v < 0x1_0000 then 3
    else if v < 0x20_0000 then 4 else if v < 0x400_0000 then 5 else 6
  }

  /** What is left of `v` without its last `k` groups of six bits. */
  function High(v: nat, k: nat): nat {
    if k == 0 then v else High(v / 64, k - 1)
  }

  /** The continuing octets that hold the last `k` groups of six bits of `v`. */
  function Low(v: nat, k: nat): (s: seq<Octet>)
    ensures |s| == k
  {
    if k == 0 then [] else Low(v / 64, k - 1) + [0x80 + v % 64]
  }

  lemma {:induction false} HighBelow(v: nat, k: nat, limit: nat)
    ensures v < Times64(limit, k) <==> High(v, k) < limit
  {
    if k > 0 {
      HighBelow(v / 64, k - 1, limit);
    }
  }

  function Encode(v: nat): (s: seq<Octet>)
    requires IsCodePoint(v)
    ensures |s| == Size(v)
  {
    var n := Size(v);
    HighBelow(v, n - 1, LeadLimit(n));
    [Mark(n) + High(v, n - 1)] + Low(v, n - 1)
  }

  predicate AreCodePoints(text: seq<nat>) {
    forall i :: 0 <= i < |text| ==> IsCodePoint(text[i])
  }

  function EncodeAll(text: seq<nat>): seq<Octet>
    requires AreCodePoints(text)
  {
    if text == [] then [] else Encode(text[0]) + EncodeAll(text[1..])
  }

  // ---------------------------------------------------------------- decoding

  predicate Continuing(b: Octet) {
    0x80 <= b < 0xC0
  }

  predicate AllContinuing(s: seq<Octet>) {
    forall i :: 0 <= i < |s| ==> Continuing(s[i])
  }

  /** The number of octets that a leading octet announces, 0 for any other octet. */
  function SizeOfLead(b: Octet): (n: nat)
    ensures n <= 6
    ensures n != 0 ==> 0 <= b - Mark(n) < LeadLimit(n)
  {
    if b < 0x80 then 1 else if b < 0xC0 then 0 else if b < 0xE0 then 2 else if b < 0xF0 then 3
    else if b < 0xF8 then 4 else if b < 0xFC then 5 else if b < 0xFE then 6 else 0
  }

  function Payload(lead: nat, cont: seq<Octet>): nat {
    if cont == [] then lead else 64 * Payload(lead, cont[..|cont| - 1]) + cont[|cont| - 1] % 64
  }

  datatype Char = Bad | Char(value: nat, size: nat)

  /** The character at the beginning of `s`, in its shortest form only. */
  function Read(s: seq<Octet>): (c: Char)
    requires s != []
    ensures c.Char? ==> 1 <= c.size <= |s|
  {
    var n := SizeOfLead(s[0]);
    if n == 0 || n > |s| || !AllContinuing(s[1..n]) then Bad else
      var v := Payload(s[0] - Mark(n), s[1..n]);
      if v < Limit(n - 1) then Bad else Char(v, n)
  }

  function Prepend(text: seq<nat>, rest: Option<seq<nat>>): Option<seq<nat>> {
    match rest
    case None => None
    case Some(t) => Some(text + t)
  }

  function DecodeAll(s: seq<Octet>): Option<seq<nat>>
    decreases |s|
  {
    if s == [] then Some([]) else
      match Read(s)
      case Bad => None
      case Char(v, n) => Prepend([v], DecodeAll(s[n..]))
  }

  // ---------------------------------------------------------------- the two are inverse

  lemma {:induction false} PayloadOfLow(v: nat, k: nat)
    ensures AllContinuing(Low(v, k)) && Payload(High(v, k), Low(v, k)) == v
  {
    if k > 0 {
      PayloadOfLow(v / 64, k - 1);
      assert Low(v, k)[..k - 1] == Low(v / 64, k - 1);
    }
  }

  lemma {:induction false} LowOfPayload(lead: nat, cont: seq<Octet>)
    requires AllContinuing(cont)
    ensures High(Payload(lead, cont), |cont|) == lead && Low(Payload(lead, cont), |cont|) == cont
  {
    if cont != [] {
      var init := cont[..|cont| - 1];
      LowOfPayload(lead, init);
      assert Payload(lead, cont) / 64 == Payload(lead, init);
      assert cont == init + [cont[|cont| - 1]];
    }
  }

  lemma SizeOfLeadOfMark(n: nat, lead: nat)
    requires 1 <= n <= 6 && lead < LeadLimit(n)
    ensures Mark(n) + lead < 256 && SizeOfLead(Mark(n) + lead) == n
  {
  }

  lemma ReadEncoded(v: nat, rest: seq<Octet>)
    requires IsCodePoint(v)
    ensures Read(Encode(v) + rest) == Char(v, Size(v))
  {
    hide Size, Limit, Mark, LeadLimit, SizeOfLead, Payload, High, Low, Times64;
    var n := Size(v);
    var s := Encode(v) + rest;
    HighBelowLimit(v, n);
    SizeOfLeadOfMark(n, High(v, n - 1));
    PayloadOfLow(v, n - 1);
    assert s[0] == Mark(n) + High(v, n - 1) && s[1..n] == Low(v, n - 1);
  }

  lemma HighBelowLimit(v: nat, n: nat)
    requires 1 <= n <= 6
    ensures v < Limit(n) <==> High(v, n - 1) < LeadLimit(n)
  {
    HighBelow(v, n - 1, LeadLimit(n));
  }

  lemma SizeUnique(v: nat, n: nat)
    requires 1 <= n <= 6 && Limit(n - 1) <= v < Limit(n)
    ensures IsCodePoint(v) && Size(v) == n
  {
    Limits();
  }

  lemma EncodeRead(s: seq<Octet>)
    requires s != [] && Read(s).Char?
    ensures IsCodePoint(Read(s).value) && Encode(Read(s).value) == s[..Read(s).size]
  {
    hide Size, Limit, Mark, LeadLimit, SizeOfLead, Payload, High, Low, Times64;
    var Char(v, n) := Read(s);
    LowOfPayload(s[0] - Mark(n), s[1..n]);
    HighBelowLimit(v, n);
    SizeUnique(v, n);
    assert s[..n] == [s[0]] + s[1..n];
  }

  /** Decoding what was encoded gives it back. */
  lemma {:induction false} DecodeInvertsEncode(text: seq<nat>)
    requires AreCodePoints(text)
    ensures DecodeAll(EncodeAll(text)) == Some(text)
  {
    hide Read, Encode;
    if text != [] {
      var rest := EncodeAll(text[1..]);
      DecodeInvertsEncode(text[1..]);
      ReadEncoded(text[0], rest);
      assert (Encode(text[0]) + rest)[Size(text[0])..] == rest;
      assert text == [text[0]] + text[1..];
    }
  }

  /** What can be decoded is the encoding of the result. */
  lemma {:induction false} EncodeInvertsDecode(s: seq<Octet>)
    requires DecodeAll(s).Some?
    ensures AreCodePoints(DecodeAll(s).value) && EncodeAll(DecodeAll(s).value) == s
    decreases |s|
  {
    hide Read, Encode;
    if s != [] {
      var Char(v, n) := Read(s);
      var text := DecodeAll(s).value;
      EncodeRead(s);
      EncodeInvertsDecode(s[n..]);
      assert text[1..] == DecodeAll(s[n..]).value && text[0] == v;
      assert s == s[..n] + s[n..];
    }
  }

  // ---------------------------------------------------------------- one character

  /** A universal character. */
  datatype Quad = Quad(group: nat, plane: nat, row: nat, cell: nat) {
    function CodePoint(): nat {
      ((group * 256 + plane) * 256 + row) * 256 + cell
    }
  }

  /** Bits put into one octet. They never overlap when all continuing octets are there. */
  function Join(high: nat, low: nat): nat {
    (high + low) % 256
  }

  function Assemble(o: seq<nat>): Quad
    requires 2 <= |o| <= 6
  {
    if |o| == 2 then Quad(0, 0, o[0] / 4, Join(o[0] * 64, o[1]))
    else if |o| == 3 then Quad(0, 0, Join(o[0] * 16, o[1] / 4), Join(o[1] * 64, o[2]))
    else if |o| == 4 then
      Quad(0, Join(o[0] * 4, o[1] / 16), Join(o[1] * 16, o[2] / 4), Join(o[2] * 64, o[3]))
    else if |o| == 5 then
      Quad(o[0], Join(o[1] * 4, o[2] / 16), Join(o[2] * 16, o[3] / 4), Join(o[3] * 64, o[4]))
    else
      Quad(Join(o[0] * 64, o[1]), Join(o[2] * 4, o[3] / 16), Join(o[3] * 16, o[4] / 4), Join(o[4] * 64, o[5]))
  }

  /** The test for an encoding that is longer than necessary. */
  predicate Overlong(n: nat, q: Quad)
    requires 2 <= n <= 6
  {
    if n == 2 then q.row == 0 && q.cell < 0x80
    else if n == 3 then q.row < 0x08
    else if n == 4 then q.plane == 0
    else if n == 5 then q.group == 0 && q.plane < 0x20
    else q.group < 0x04
  }

  /** The number made of groups of six bits. */
  function Value(o: seq<nat>): nat
    requires o != []
  {
    if |o| == 1 then o[0] else 64 * Value(o[..|o| - 1]) + o[|o| - 1]
  }

  predicate Filled(o: seq<nat>, cont: seq<Octet>) {
    |o| == |cont| + 1 && forall k :: 1 <= k < |o| ==> o[k] == cont[k - 1] % 64
  }

  lemma {:induction false} ValueIsPayload(o: seq<nat>, cont: seq<Octet>)
    requires Filled(o, cont)
    ensures Value(o) == Payload(o[0], cont)
  {
    if cont != [] {
      ValueIsPayload(o[..|o| - 1], cont[..|cont| - 1]);
    }
  }

  lemma JoinParts(a: nat, b1: nat, b0: nat, c1: nat, c0: nat, d: nat)
    requires a < 64 && b1 < 4 && b0 < 16 && c1 < 16 && c0 < 4 && d < 64
    ensures Join(a * 4, b1) == 4 * a + b1
    ensures Join((16 * b1 + b0) * 16, c1) == 16 * b0 + c1
    ensures Join((4 * c1 + c0) * 64, d) == 64 * c0 + d
  {
    assert (16 * b1 + b0) * 16 + c1 == 256 * b1 + (16 * b0 + c1);
    assert (4 * c1 + c0) * 64 + d == 256 * c1 + (64 * c0 + d);
  }

  /** Four groups of six bits are three octets. */
  lemma ThreeOctets(a: nat, b: nat, c: nat, d: nat)
    requires a < 64 && b < 64 && c < 64 && d < 64
    ensures Quad(0, Join(a * 4, b / 16), Join(b * 16, c / 4), Join(c * 64, d)).CodePoint() ==
            ((64 * a + b) * 64 + c) * 64 + d
  {
    hide Join;
    var b1, b0, c1, c0 := b / 16, b % 16, c / 4, c % 4;
    assert b == 16 * b1 + b0 && c == 4 * c1 + c0;
    JoinParts(a, b1, b0, c1, c0, d);
  }

  lemma ValueStep(o: seq<nat>, k: nat)
    requires 0 < k < |o|
    ensures Value(o[..k + 1]) == 64 * Value(o[..k]) + o[k]
  {
    assert o[..k + 1][..k] == o[..k];
  }

  lemma JoinNothing(x: nat)
    requires x < 256
    ensures Join(0, x) == x
  {
  }

  lemma AssembledShort(o: seq<nat>)
    requires 2 <= |o| <= 3 && o[0] < LeadLimit(|o|) && forall k :: 1 <= k < |o| ==> o[k] < 64
    ensures Assemble(o).CodePoint() == Value(o)
  {
    hide Value, Join;
    assert o[..|o|] == o;
    ValueOfOne(o);
    ValueStep(o, 1);
    JoinNothing(0);
    JoinNothing(o[0] / 4);
    if |o| == 2 {
      ThreeOctets(0, 0, o[0], o[1]);
    } else {
      ValueStep(o, 2);
      ThreeOctets(0, o[0], o[1], o[2]);
    }
  }

  lemma ValueOfFour(o: seq<nat>)
    requires |o| >= 4
    ensures Value(o[..4]) == ((o[0] * 64 + o[1]) * 64 + o[2]) * 64 + o[3]
  {
    hide Value;
    ValueOfOne(o);
    ValueStep(o, 1);
    ValueStep(o, 2);
    ValueStep(o, 3);
  }

  lemma ValueOfOne(o: seq<nat>)
    requires o != []
    ensures Value(o[..1]) == o[0]
  {
  }

  lemma AssembledLong(o: seq<nat>)
    requires 4 <= |o| <= 6 && o[0] < LeadLimit(|o|) && forall k :: 1 <= k < |o| ==> o[k] < 64
    ensures Assemble(o).CodePoint() == Value(o)
  {
    hide Value, Join, Assemble;
    if |o| == 4 {
      AssembledFour(o);
    } else if |o| == 5 {
      AssembledFive(o);
    } else {
      AssembledSix(o);
    }
  }

  lemma AssembledFour(o: seq<nat>)
    requires |o| == 4 && o[0] < 64 && o[1] < 64 && o[2] < 64 && o[3] < 64
    ensures Assemble(o).CodePoint() == Value(o)
  {
    hide Value, Join;
    assert o[..4] == o;
    ValueOfFour(o);
    ThreeOctets(o[0], o[1], o[2], o[3]);
  }

  lemma AssembledFive(o: seq<nat>)
    requires |o| == 5 && o[1] < 64 && o[2] < 64 && o[3] < 64 && o[4] < 64
    ensures Assemble(o).CodePoint() == Value(o)
  {
    hide Value, Join;
    assert o[..5] == o;
    ValueOfFour(o);
    ValueStep(o, 4);
    ThreeOctets(o[1], o[2], o[3], o[4]);
  }

  lemma AssembledSix(o: seq<nat>)
    requires |o| == 6 && o[0] < 2 && forall k :: 1 <= k < 6 ==> o[k] < 64
    ensures Assemble(o).CodePoint() == Value(o)
  {
    hide Value, Join;
    assert o[..6] == o;
    ValueOfFour(o);
    ValueStep(o, 4);
    ValueStep(o, 5);
    FirstOctet(o[0], o[1]);
    ThreeOctets(o[2], o[3], o[4], o[5]);
  }

  lemma FirstOctet(a: nat, b: nat)
    requires a < 2 && b < 64
    ensures Join(a * 64, b) == 64 * a + b
  {
  }

  lemma AssembledPayload(o: seq<nat>, cont: seq<Octet>)
    requires 2 <= |o| <= 6 && Filled(o, cont) && o[0] < LeadLimit(|o|)
    ensures Assemble(o).CodePoint() == Payload(o[0], cont)
    ensures Assemble(o).plane < 256 && Assemble(o).row < 256 && Assemble(o).cell < 256
  {
    hide Payload, Value, Quad.CodePoint;
    ValueIsPayload(o, cont);
    if |o| <= 3 {
      AssembledShort(o);
    } else {
      AssembledLong(o);
    }
  }

  lemma OverlongExactly(n: nat, q: Quad)
    requires 2 <= n <= 6 && q.plane < 256 && q.row < 256 && q.cell < 256 && q.CodePoint() < Limit(n)
    ensures Overlong(n, q) <==> q.CodePoint() < Limit(n - 1)
  {
    Limits();
  }

  /** `fill_continuing_octets`; an error leaves the rest of the octets as they are. */
  method FillContinuing(n: nat, octets: array<Octet>, uc: seq<Octet>, start: nat) returns (error: bool)
    requires octets.Length == n + 1 && start <= |uc|
    modifies octets
    ensures octets[0] == old(octets[0])
    ensures error <==> start + n > |uc| || !AllContinuing(uc[start..start + n])
    ensures !error ==> Filled(octets[..], uc[start..start + n])
  {
    for i := 0 to n
      invariant octets[0] == old(octets[0])
      invariant start + i <= |uc| && AllContinuing(uc[start..start + i])
      invariant forall k :: 1 <= k <= i ==> octets[k] == uc[start..][k - 1] % 64
    {
      if start + i >= |uc| {
        return true;
      }
      var octet := uc[start + i];
      if octet / 64 != 2 {
        assert start + n <= |uc| ==> uc[start..start + n][i] == octet;
        return true;
      }
      assert uc[start..start + i + 1] == uc[start..start + i] + [octet];
      octets[i + 1] := octet % 64;
    }
    error := false;
  }

  /** One of the five branches for a character on more than one octet. */
  method DecodeMultiple(uc: seq<Octet>, i: nat, n: nat) returns (q: Quad, error: bool, stop: bool)
    requires i < |uc| && 2 <= n <= 6 && SizeOfLead(uc[i]) == n
    ensures error <==> Read(uc[i..]).Bad?
    ensures stop ==> error
    ensures !error ==> Read(uc[i..]) == Char(q.CodePoint(), n)
  {
    hide Payload, Assemble, Quad.CodePoint, Limit, Overlong;
    var octets := new Octet[n];
    octets[0] := uc[i] % LeadLimit(n);
    LeadBits(uc[i]);
    error := FillContinuing(n - 1, octets, uc, i + 1);
    q := Assemble(octets[..]);
    stop := Overlong(n, q);
    ghost var s := uc[i..];
    if !error {
      assert s[1..n] == uc[i + 1..i + n];
      AssembledPayload(octets[..], s[1..n]);
      PayloadBelow(s[0] - Mark(n), s[1..n]);
      OverlongExactly(n, q);
    } else {
      assert n <= |s| ==> s[1..n] == uc[i + 1..i + n];
    }
    error := error || stop;
  }

  lemma LeadBits(b: Octet)
    requires SizeOfLead(b) >= 2
    ensures b % LeadLimit(SizeOfLead(b)) == b - Mark(SizeOfLead(b))
  {
  }

  lemma PayloadBelow(lead: nat, cont: seq<Octet>)
    requires |cont| <= 5 && lead < LeadLimit(|cont| + 1) && AllContinuing(cont)
    ensures Payload(lead, cont) < Limit(|cont| + 1)
  {
    LowOfPayload(lead, cont);
    HighBelow(Payload(lead, cont), |cont|, LeadLimit(|cont| + 1));
  }

  /** One pass of the loop of `decode_utf8`. */
  method DecodeChar(uc: seq<Octet>, i: nat) returns (q: Quad, n: nat, error: bool, stop: bool)
    requires i < |uc|
    ensures error <==> Read(uc[i..]).Bad?
    ensures stop ==> error
    ensures 1 <= n <= 6
    ensures !error ==> Read(uc[i..]) == Char(q.CodePoint(), n)
  {
    hide AllContinuing;
    q, n, error, stop := Quad(0, 0, 0, 0), 1, true, true;
    if uc[i] <= 0x7F {
      ReadAscii(uc[i..]);
      q, error, stop := Quad(0, 0, 0, uc[i]), false, false;
    } else if uc[i] <= 0xBF {
      // a continuing octet without a leading one
    } else if uc[i] <= 0xDF {
      n := 2;
      q, error, stop := DecodeMultiple(uc, i, 2);
    } else if uc[i] <= 0xEF {
      n := 3;
      q, error, stop := DecodeMultiple(uc, i, 3);
    } else if uc[i] <= 0xF7 {
      n := 4;
      q, error, stop := DecodeMultiple(uc, i, 4);
    } else if uc[i] <= 0xFB {
      n := 5;
      q, error, stop := DecodeMultiple(uc, i, 5);
    } else if uc[i] <= 0xFD {
      n := 6;
      q, error, stop := DecodeMultiple(uc, i, 6);
    }
  }

  lemma ReadAscii(s: seq<Octet>)
    requires s != [] && s[0] <= 0x7F
    ensures Read(s) == Char(s[0], 1)
  {
    assert s[1..1] == [];
  }

  // ---------------------------------------------------------------- the decoder

  function CodePoints(text: seq<Quad>): seq<nat> {
    seq(|text|, i requires 0 <= i < |text| => text[i].CodePoint())
  }

  predicate HasBom(s: seq<Octet>) {
    |s| >= 3 && s[0] == 0xEF && s[1] == 0xBB && s[2] == 0xBF
  }

  /** What is decoded: everything after a byte order mark. */
  function AfterBom(s: seq<Octet>): seq<Octet> {
    if HasBom(s) then s[3..] else s
  }

  function OctetAt(ostr: string, i: nat): Octet
    requires IsHexString(ostr) && 2 * i + 1 < |ostr|
  {
    16 * HexDigit(ostr[2 * i]) + HexDigit(ostr[2 * i + 1])
  }

  /** The octets of an octetstring. */
  function OctetsOf(ostr: string): seq<Octet>
    requires IsHexString(ostr)
  {
    seq(|ostr| / 2, i requires 0 <= i < |ostr| / 2 => OctetAt(ostr, i))
  }

  datatype Outcome = Fatal | Decoded(text: seq<Quad>, error: bool)

  /** The loop of `decode_utf8`. An error does not always end it, but it is never forgotten. */
  method DecodeOctets(uc: seq<Octet>) returns (ucstr: seq<Quad>, error: bool)
    ensures error <==> DecodeAll(AfterBom(uc)).None?
    ensures !error ==> DecodeAll(AfterBom(uc)) == Some(CodePoints(ucstr))
  {
    hide Read, Quad.CodePoint;
    var start := if HasBom(uc) then 3 else 0;
    var i := start;
    assert AfterBom(uc) == uc[start..];
    ucstr, error := [], false;
    ghost var all := DecodeAll(uc[start..]);
    PrependNothing([], all);
    assert CodePoints(ucstr) == [];
    while i < |uc|
      invariant start <= i
      invariant !error ==> i <= |uc| && all == Prepend(CodePoints(ucstr), DecodeAll(uc[i..]))
      invariant error ==> all == None
    {
      ghost var before := CodePoints(ucstr);
      var q, n, bad, stop := DecodeChar(uc, i);
      error := error || bad;
      if stop {
        break;
      }
      ucstr := ucstr + [q];
      assert CodePoints(ucstr) == before + [q.CodePoint()];
      if !error {
        assert uc[i..][n..] == uc[i + n..];
        PrependTwice(before, [q.CodePoint()], DecodeAll(uc[i + n..]));
      }
      i := i + n;
    }
    if !error {
      assert uc[i..] == [];
      PrependNothing(CodePoints(ucstr), all);
    }
  }

  lemma PrependNothing(text: seq<nat>, rest: Option<seq<nat>>)
    ensures Prepend(text, DecodeAll([])) == Some(text) && Prepend([], rest) == rest
  {
    assert text + [] == text;
    assert rest.Some? ==> [] + rest.value == rest.value;
  }

  lemma PrependTwice(a: seq<nat>, b: seq<nat>, rest: Option<seq<nat>>)
    ensures Prepend(a, Prepend(b, rest)) == Prepend(a + b, rest)
  {
    if rest.Some? {
      assert a + (b + rest.value) == a + b + rest.value;
    }
  }

  /** The octets that are decoded; a character that is no hexadecimal digit is a fatal error. */
  method ReadOctets(ostr: string) returns (r: Option<seq<Octet>>)
    requires |ostr| % 2 == 0
    ensures r.Some? <==> IsHexString(ostr)
    ensures r.Some? ==> r.value == OctetsOf(ostr)
  {
    hide HexDigit;
    var uc := new Octet[|ostr| / 2];
    for i := 0 to |ostr| / 2
      invariant IsHexString(ostr[..2 * i]) && uc[..i] == OctetsOf(ostr[..2 * i])
    {
      if !IsHexDigit(ostr[2 * i]) || !IsHexDigit(ostr[2 * i + 1]) {
        return None;
      }
      uc[i] := 16 * HexDigit(ostr[2 * i]) + HexDigit(ostr[2 * i + 1]);
      ghost var longer := ostr[..2 * (i + 1)];
      assert longer == ostr[..2 * i] + [ostr[2 * i], ostr[2 * i + 1]];
      assert OctetsOf(longer) == OctetsOf(ostr[..2 * i]) + [OctetAt(longer, i)];
    }
    assert ostr[..2 * (|ostr| / 2)] == ostr;
    r := Some(uc[..]);
  }

  /** `decode_utf8` */
  method DecodeUtf8(ostr: string) returns (r: Outcome)
    ensures r.Fatal? <==> |ostr| % 2 == 0 && !IsHexString(ostr)
    ensures r.Decoded? && |ostr| % 2 == 1 ==> r.error
    ensures r.Decoded? && |ostr| % 2 == 0 ==>
      (r.error <==> DecodeAll(AfterBom(OctetsOf(ostr))).None?) &&
      (!r.error ==> DecodeAll(AfterBom(OctetsOf(ostr))) == Some(CodePoints(r.text)))
  {
    hide DecodeAll, AfterBom, CodePoints;
    if |ostr| % 2 == 1 {
      return Decoded([], true);
    }
    var uc := ReadOctets(ostr);
    if uc.None? {
      return Fatal;
    }
    var text, error := DecodeOctets(uc.value);
    r := Decoded(text, error);
  }

  // ---------------------------------------------------------------- what decoding promises

  /** Without a byte order mark in front, decoding gives back every text that was encoded. */
  lemma DecodesEncodedText(text: seq<nat>)
    requires AreCodePoints(text)
    ensures text != [] && text[0] == 0xFEFF ==> DecodeAll(AfterBom(EncodeAll(text))) == Some(text[1..])
    ensures text == [] || text[0] != 0xFEFF ==> DecodeAll(AfterBom(EncodeAll(text))) == Some(text)
  {
    hide Encode, DecodeAll;
    DecodeInvertsEncode(text);
    if text != [] {
      BomIsEncoded(text[0], EncodeAll(text[1..]));
      DecodeInvertsEncode(text[1..]);
      assert text[0] == 0xFEFF ==> (Encode(text[0]) + EncodeAll(text[1..]))[3..] == EncodeAll(text[1..]);
    }
  }

  lemma EncodedBom()
    ensures Encode(0xFEFF) == [0xEF, 0xBB, 0xBF]
  {
    assert Low(0xFEFF, 2) == Low(0xFEFF / 64, 1) + [0xBF];
    assert Low(0x3FB, 1) == Low(0x3FB / 64, 0) + [0xBB];
    assert High(0xFEFF, 2) == High(0x3FB, 1) == High(0xF, 0);
  }

  /** The byte order mark is the encoding of U+FEFF and of nothing else. */
  lemma BomIsEncoded(v: nat, rest: seq<Octet>)
    requires IsCodePoint(v)
    ensures HasBom(Encode(v) + rest) <==> v == 0xFEFF
    ensures v == 0xFEFF ==> |Encode(v)| == 3
  {
    hide Encode, Read, Size;
    EncodedBom();
    var s := Encode(v) + rest;
    ReadEncoded(v, rest);
    if HasBom(s) {
      ReadEncoded(0xFEFF, s[3..]);
      assert s == Encode(0xFEFF) + s[3..];
    }
  }

  /** Octets that are decoded without an error are the shortest encoding of the result. */
  lemma DecodedReencodes(s: seq<Octet>)
    requires DecodeAll(AfterBom(s)).Some?
    ensures AreCodePoints(DecodeAll(AfterBom(s)).value)
    ensures s == (if HasBom(s) then Encode(0xFEFF) else []) + EncodeAll(DecodeAll(AfterBom(s)).value)
  {
    hide Encode, DecodeAll, EncodeAll;
    EncodeInvertsDecode(AfterBom(s));
    EncodedBom();
  }

  // ---------------------------------------------------------------- the classifier

  /** The number of ones after the first bit. */
  function Ones(b: Octet, mask: nat): nat
    decreases mask
  {
    if mask > 0 && b / mask % 2 == 1 then 1 + Ones(b, mask / 2) else 0
  }

  /** Every octet is an ASCII character or leads as many continuing octets as its bits say. */
  predicate Shaped(s: seq<Octet>)
    decreases |s|
  {
    s == [] ||
    if s[0] < 0x80 then Shaped(s[1..])
    else
      var n := Ones(s[0], 0x40);
      n > 0 && n < |s| && AllContinuing(s[1..n + 1]) && Shaped(s[n + 1..])
  }

  /** One step of the shape, inside a longer sequence. */
  lemma ShapedStep(s: seq<Octet>, i: nat, n: nat)
    requires i < |s| && n == (if s[i] < 0x80 then 0 else Ones(s[i], 0x40))
    ensures s[i] >= 0x80 ==> (n > 0 <==> s[i] / 0x40 % 2 == 1)
    ensures Shaped(s[i..]) <==> (s[i] < 0x80 || n > 0) && i + n < |s| && AllContinuing(s[i + 1..i + n + 1]) && Shaped(s[i + n + 1..])
  {
    assert i + n < |s| ==> s[i..][1..n + 1] == s[i + 1..i + n + 1] && s[i..][n + 1..] == s[i + n + 1..];
  }

  /** `is_utf8` */
  method IsUtf8(s: seq<Octet>) returns (utf8: bool)
    ensures utf8 <==> Shaped(s)
  {
    hide Ones, Shaped, AllContinuing;
    var i := 0;
    assert s[0..] == s;
    while i < |s|
      invariant i <= |s| && Shaped(s[i..]) == Shaped(s)
    {
      if s[i] >= 0x80 {
        var n := CountOnes(s[i]);
        ShapedStep(s, i, n);
        if s[i] / 0x40 % 2 == 0 {
          return false;
        }
        var ok := SkipContinuing(s, i, n);
        if !ok {
          return false;
        }
        i := i + n;
      } else {
        ShapedStep(s, i, 0);
        NothingToSkip(s, i + 1);
      }
      i := i + 1;
    }
    ShapedNothing(s[i..]);
    utf8 := true;
  }

  lemma NothingToSkip(s: seq<Octet>, i: nat)
    requires i <= |s|
    ensures AllContinuing(s[i..i])
  {
  }

  lemma ShapedNothing(s: seq<Octet>)
    requires s == []
    ensures Shaped(s)
  {
  }

  /** Whether `n` continuing octets come after the one at `lead`. */
  method SkipContinuing(s: seq<Octet>, lead: nat, n: nat) returns (ok: bool)
    requires lead < |s|
    ensures ok <==> lead + n < |s| && AllContinuing(s[lead + 1..lead + n + 1])
  {
    var i, left := lead, n;
    while 0 < left
      invariant 0 <= left <= n && i == lead + n - left < |s| && AllContinuing(s[lead + 1..i + 1])
    {
      i := i + 1;
      if i >= |s| || s[i] < 0x80 || s[i] / 0x40 % 2 == 1 {
        assert lead + n < |s| ==> s[lead + 1..lead + n + 1][i - lead - 1] == s[i];
        return false;
      }
      assert s[lead + 1..i + 1] == s[lead + 1..i] + [s[i]];
      left := left - 1;
    }
    ok := true;
  }

  method CountOnes(b: Octet) returns (n: nat)
    ensures n == Ones(b, 0x40)
  {
    var mask := 0x40;
    n := 0;
    while mask > 0 && b / mask % 2 == 1
      invariant mask >= 0 && n + Ones(b, mask) == Ones(b, 0x40)
      decreases mask
    {
      n := n + 1;
      mask := mask / 2;
    }
  }

  lemma OnesStep(b: Octet, mask: nat)
    requires mask > 0
    ensures Ones(b, mask) == if b / mask % 2 == 1 then 1 + Ones(b, mask / 2) else 0
  {
  }

  lemma OnesOfLead(b: Octet)
    requires SizeOfLead(b) >= 2
    ensures Ones(b, 0x40) == SizeOfLead(b) - 1
  {
    hide Ones;
    OnesStep(b, 0x40);
    OnesStep(b, 0x20);
    OnesStep(b, 0x10);
    OnesStep(b, 0x08);
    OnesStep(b, 0x04);
    OnesStep(b, 0x02);
  }

  /** How many octets must follow an octet, if it can be the first of a character. */
  function Following(b: Octet): Option<nat> {
    if b < 0x80 then Some(0)
    else if b < 0xC0 then None
    else if b < 0xE0 then Some(1)
    else if b < 0xF0 then Some(2)
    else if b < 0xF8 then Some(3)
    else if b < 0xFC then Some(4)
    else if b < 0xFE then Some(5)
    else if b < 0xFF then Some(6)
    else Some(7)
  }

  /** First octets, each followed by as many from 0x80 to 0xBF as it needs. */
  predicate IsSequence(s: seq<Octet>)
    decreases |s|
  {
    s == [] ||
    var n := Following(s[0]);
    n.Some? && n.value < |s| && (forall i :: 1 <= i <= n.value ==> 0x80 <= s[i] < 0xC0) && IsSequence(s[n.value + 1..])
  }

  lemma OnesAre(b: Octet)
    requires b >= 0x80
    ensures Following(b) == if Ones(b, 0x40) == 0 then None else Some(Ones(b, 0x40))
  {
    hide Ones;
    OnesStep(b, 0x40);
    OnesStep(b, 0x20);
    OnesStep(b, 0x10);
    OnesStep(b, 0x08);
    OnesStep(b, 0x04);
    OnesStep(b, 0x02);
    OnesStep(b, 0x01);
    NoOnes(b);
  }

  lemma NoOnes(b: Octet)
    ensures Ones(b, 0) == 0
  {
  }

  lemma ContinuingAre(s: seq<Octet>, n: nat)
    requires n < |s|
    ensures AllContinuing(s[1..n + 1]) <==> forall i :: 1 <= i <= n ==> 0x80 <= s[i] < 0xC0
  {
    assert forall i :: 1 <= i <= n ==> s[1..n + 1][i - 1] == s[i];
  }

  /** What is classified as UTF-8, by the values of the octets. */
  lemma {:induction false} ShapedExactly(s: seq<Octet>)
    ensures Shaped(s) <==> IsSequence(s)
    decreases |s|
  {
    hide Ones, AllContinuing, Following;
    if s != [] {
      var n := if s[0] < 0x80 then 0 else Ones(s[0], 0x40);
      ShapedStep(s, 0, n);
      assert s[0..] == s;
      FirstIs(s[0]);
      if n < |s| {
        ContinuingAre(s, n);
        ShapedExactly(s[n + 1..]);
      }
    }
  }

  lemma FirstIs(b: Octet)
    ensures Following(b) == if b >= 0x80 && Ones(b, 0x40) == 0 then None else Some(if b < 0x80 then 0 else Ones(b, 0x40))
  {
    hide Ones;
    if b >= 0x80 {
      OnesAre(b);
    }
  }

  /** Octets that can be decoded are classified as UTF-8. */
  lemma {:induction false} DecodableIsShaped(s: seq<Octet>)
    requires DecodeAll(s).Some?
    ensures Shaped(s)
    decreases |s|
  {
    hide Ones;
    if s != [] {
      var n := Read(s).size;
      DecodableIsShaped(s[n..]);
      if n > 1 {
        OnesOfLead(s[0]);
      }
    }
  }

  /** Octets that are decoded without an error, a byte order mark included, are classified as UTF-8. */
  lemma DecodedIsUtf8(s: seq<Octet>)
    requires DecodeAll(AfterBom(s)).Some?
    ensures Shaped(s)
  {
    hide Ones, DecodeAll, Read;
    DecodableIsShaped(AfterBom(s));
    if HasBom(s) {
      OnesOfLead(0xEF);
      assert s[1..3] == [s[1], s[2]];
    }
  }
}
