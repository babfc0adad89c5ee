/**
  The number format that common/JSON_Tokenizer.cc accepts, as a grammar and as the automaton that the
  five flags of `check_for_number` encode, with the proof that both accept the same texts.
*/
module JsonNumber {
  import opened Options

  predicate IsDigit(c: char) {
    '0' <= c <= '9'
  }

  /** The characters `check_for_number` does not stop at. */
  predicate IsNumberChar(c: char) {
    IsDigit(c) || c in {'.', 'e', 'E', '-', '+'}
  }

  // ---------------------------------------------------------------- the grammar

  predicate Digits(s: string) {
    forall i :: 0 <= i < |s| ==> IsDigit(s[i])
  }

  predicate Positive(s: string) {
    s != "" && s[0] != '0' && Digits(s)
  }

  predicate IntegerPart(s: string) {
    s == "0" || Positive(s)
  }

  predicate FractionPart(s: string) {
    s == "" || (|s| > 1 && s[0] == '.' && Digits(s[1..]))
  }

  /** Unlike section 6 of RFC 8259, an exponent does not begin with a zero. */
  predicate Exponent(s: string) {
    Positive(s) || (s != "" && s[0] in {'-', '+'} && Positive(s[1..]))
  }

  predicate ExponentPart(s: string) {
    s == "" || (s[0] in {'e', 'E'} && Exponent(s[1..]))
  }

  /** `s` is a number: sign up to `a`, integer up to `b`, fraction up to `c`, exponent. */
  predicate IsNumberSplit(s: string, a: nat, b: nat, c: nat) {
    && a <= b <= c <= |s|
    && (s[..a] == "" || s[..a] == "-")
    && IntegerPart(s[a..b]) && FractionPart(s[b..c]) && ExponentPart(s[c..])
  }

  ghost predicate IsNumber(s: string) {
    exists a: nat, b: nat, c: nat :: IsNumberSplit(s, a, b, c)
  }

  // ---------------------------------------------------------------- the automaton

  /** What has been read: nothing, an integer, a point, fraction digits, an exponent mark, its sign, its digits. */
  datatype Phase = Start | Zero | Integer | Point | Fraction | Mark | Sign | Power

  function Step(q: Phase, c: char): Option<Phase> {
    match q
    case Start => if c == '0' then Some(Zero) else if IsDigit(c) then Some(Integer) else None
    case Zero => if c == '.' then Some(Point) else if c in {'e', 'E'} then Some(Mark) else None
    case Integer =>
      if IsDigit(c) then Some(Integer) else if c == '.' then Some(Point) else if c in {'e', 'E'} then Some(Mark) else None
    case Point => if IsDigit(c) then Some(Fraction) else None
    case Fraction => if IsDigit(c) then Some(Fraction) else if c in {'e', 'E'} then Some(Mark) else None
    case Mark =>
      if IsDigit(c) && c != '0' then Some(Power) else if c in {'-', '+'} then Some(Sign) else None
    case Sign => if IsDigit(c) && c != '0' then Some(Power) else None
    case Power => if IsDigit(c) then Some(Power) else None
  }

  predicate Final(q: Phase) {
    q in {Zero, Integer, Fraction, Power}
  }

  predicate Accepts(q: Phase, s: string)
    decreases |s|
  {
    if s == "" then Final(q)
    else
      var next := Step(q, s[0]);
      next.Some? && Accepts(next.value, s[1..])
  }

  // ---------------------------------------------------------------- their equivalence, phase by phase

  lemma {:induction false} PowerRest(s: string)
    ensures Accepts(Power, s) <==> Digits(s)
  {
    if s != "" {
      PowerRest(s[1..]);
      assert s == [s[0]] + s[1..];
    }
  }

  lemma SignRest(s: string)
    ensures Accepts(Sign, s) <==> Positive(s)
  {
    if s != "" {
      PowerRest(s[1..]);
      assert s == [s[0]] + s[1..];
    }
  }

  lemma MarkRest(s: string)
    ensures Accepts(Mark, s) <==> Exponent(s)
  {
    if s != "" {
      PowerRest(s[1..]);
      SignRest(s[1..]);
      assert s == [s[0]] + s[1..];
    }
  }

  lemma NoLeadingDigits(s: string, n: nat)
    requires s != "" && !IsDigit(s[0]) && n <= |s|
    ensures Digits(s[..n]) <==> n == 0
  {
    assert n == 0 || s[..n][0] == s[0];
  }

  /** Fraction digits up to `c`, then an exponent. */
  ghost predicate FractionRestAt(s: string, c: nat) {
    c <= |s| && Digits(s[..c]) && ExponentPart(s[c..])
  }

  lemma FractionShift(s: string, c: nat)
    requires s != "" && c > 0
    ensures FractionRestAt(s, c) <==> IsDigit(s[0]) && FractionRestAt(s[1..], c - 1)
  {
    if c <= |s| {
      DigitsShift(s[..c]);
      assert s[..c][1..] == s[1..][..c - 1];
      assert s[1..][c - 1..] == s[c..];
    }
  }

  lemma DigitsShift(s: string)
    requires s != ""
    ensures Digits(s) <==> IsDigit(s[0]) && Digits(s[1..])
  {
    if IsDigit(s[0]) && Digits(s[1..]) {
      forall i | 0 <= i < |s| ensures IsDigit(s[i]) {
        assert i > 0 ==> s[i] == s[1..][i - 1];
      }
    }
  }

  lemma {:induction false} FractionRest(s: string)
    ensures Accepts(Fraction, s) <==> exists c: nat :: FractionRestAt(s, c)
  {
    if s == "" {
      assert FractionRestAt(s, 0);
    } else {
      FractionRest(s[1..]);
      MarkRest(s[1..]);
      if IsDigit(s[0]) {
        forall c: nat | FractionRestAt(s[1..], c) ensures FractionRestAt(s, c + 1) {
          FractionShift(s, c + 1);
        }
        forall c: nat | FractionRestAt(s, c) ensures c > 0 && FractionRestAt(s[1..], c - 1) {
          if c > 0 {
            FractionShift(s, c);
          }
        }
      } else {
        assert FractionRestAt(s, 0) <==> ExponentPart(s[0..]);
        assert s[0..] == s;
        forall c: nat | c <= |s| {
          NoLeadingDigits(s, c);
        }
      }
    }
  }

  lemma PointRest(s: string)
    ensures Accepts(Point, s) <==> exists c: nat :: c > 0 && FractionRestAt(s, c)
  {
    if s == "" {
      assert forall c: nat :: c > 0 ==> !FractionRestAt(s, c);
    } else {
      PointRestOf(s);
    }
  }

  lemma PointRestOf(s: string)
    requires s != ""
    ensures Accepts(Point, s) <==> exists c: nat :: c > 0 && FractionRestAt(s, c)
  {
    hide FractionRestAt;
    FractionRest(s[1..]);
    forall c: nat | FractionRestAt(s[1..], c) ensures IsDigit(s[0]) ==> FractionRestAt(s, c + 1) {
      FractionShift(s, c + 1);
    }
    forall c: nat | c > 0 && FractionRestAt(s, c) ensures IsDigit(s[0]) && FractionRestAt(s[1..], c - 1) {
      FractionShift(s, c);
    }
  }

  /** A fraction up to `c`, then an exponent. */
  ghost predicate AfterIntegerAt(s: string, c: nat) {
    c <= |s| && FractionPart(s[..c]) && ExponentPart(s[c..])
  }

  lemma ZeroRest(s: string)
    ensures Accepts(Zero, s) <==> exists c: nat :: AfterIntegerAt(s, c)
  {
    if s == "" {
      assert AfterIntegerAt(s, 0);
    } else {
      PointRest(s[1..]);
      MarkRest(s[1..]);
      assert s[..0] == "" && s[0..] == s;
      assert AfterIntegerAt(s, 0) <==> ExponentPart(s);
      forall c: nat | c > 0 && FractionRestAt(s[1..], c) && s[0] == '.' ensures AfterIntegerAt(s, c + 1) {
        assert s[..c + 1][1..] == s[1..][..c];
        assert s[c + 1..] == s[1..][c..];
      }
      forall c: nat | c > 0 && AfterIntegerAt(s, c) ensures s[0] == '.' && c > 1 && FractionRestAt(s[1..], c - 1) {
        assert s[..c][1..] == s[1..][..c - 1];
        assert s[c..] == s[1..][c - 1..];
      }
    }
  }

  /** Further integer digits up to `b`, then a fraction up to `c`, then an exponent. */
  ghost predicate IntegerRestAt(s: string, b: nat, c: nat) {
    b <= |s| && Digits(s[..b]) && AfterIntegerAt(s[b..], c)
  }

  lemma IntegerShift(s: string, b: nat, c: nat)
    requires s != "" && b > 0
    ensures IntegerRestAt(s, b, c) <==> IsDigit(s[0]) && IntegerRestAt(s[1..], b - 1, c)
  {
    hide AfterIntegerAt, Digits;
    if b <= |s| {
      DigitsShift(s[..b]);
      assert s[..b][1..] == s[1..][..b - 1];
      assert s[1..][b - 1..] == s[b..];
    }
  }

  lemma {:induction false} IntegerRest(s: string)
    ensures Accepts(Integer, s) <==> exists b: nat, c: nat :: IntegerRestAt(s, b, c)
  {
    assert s[0..] == s;
    if s == "" {
      assert AfterIntegerAt(s, 0);
      assert IntegerRestAt(s, 0, 0);
    } else if IsDigit(s[0]) {
      IntegerRest(s[1..]);
      forall b: nat, c: nat | IntegerRestAt(s[1..], b, c) ensures IntegerRestAt(s, b + 1, c) {
        IntegerShift(s, b + 1, c);
      }
      forall b: nat, c: nat | IntegerRestAt(s, b, c) ensures b > 0 && IntegerRestAt(s[1..], b - 1, c) {
        assert c == 0 || s[b..][..c][0] == s[b];
        if b > 0 {
          IntegerShift(s, b, c);
        }
      }
    } else {
      ZeroRest(s);
      forall c: nat | AfterIntegerAt(s, c) ensures IntegerRestAt(s, 0, c) {
      }
      forall b: nat, c: nat | IntegerRestAt(s, b, c) ensures AfterIntegerAt(s, c) {
        NoLeadingDigits(s, b);
      }
    }
  }

  /** An unsigned number: integer up to `b`, fraction up to `c`, exponent. */
  ghost predicate UnsignedAt(s: string, b: nat, c: nat) {
    b <= |s| && IntegerPart(s[..b]) && AfterIntegerAt(s[b..], c)
  }

  lemma StartWithZero(s: string)
    requires s != "" && s[0] == '0'
    ensures Accepts(Zero, s[1..]) <==> exists b: nat, c: nat :: UnsignedAt(s, b, c)
  {
    ZeroRest(s[1..]);
    assert s[..1] == "0";
    forall c: nat | AfterIntegerAt(s[1..], c) ensures UnsignedAt(s, 1, c) {
    }
    forall b: nat, c: nat | UnsignedAt(s, b, c) ensures AfterIntegerAt(s[1..], c) {
      assert s[..b][0] == s[0];
      assert b == 1;
    }
  }

  lemma StartWithOther(s: string)
    requires s != "" && s[0] != '0'
    ensures IsDigit(s[0]) && Accepts(Integer, s[1..]) <==> exists b: nat, c: nat :: UnsignedAt(s, b, c)
  {
    hide UnsignedAt, IntegerRestAt;
    IntegerRest(s[1..]);
    forall b: nat, c: nat | IntegerRestAt(s[1..], b, c) ensures IsDigit(s[0]) ==> UnsignedAt(s, b + 1, c) {
      PositiveShift(s, b + 1, c);
    }
    forall b: nat, c: nat | UnsignedAt(s, b, c) ensures b > 0 && IsDigit(s[0]) && IntegerRestAt(s[1..], b - 1, c) {
      PositiveShift(s, b, c);
    }
  }

  lemma PositiveShift(s: string, b: nat, c: nat)
    requires s != "" && s[0] != '0'
    ensures UnsignedAt(s, b, c) <==> b > 0 && IsDigit(s[0]) && IntegerRestAt(s[1..], b - 1, c)
  {
    hide AfterIntegerAt;
    if 0 < b <= |s| {
      IntegerShift(s, b, c);
      assert s[..b][0] == s[0];
    }
  }

  lemma StartRest(s: string)
    ensures Accepts(Start, s) <==> exists b: nat, c: nat :: UnsignedAt(s, b, c)
  {
    if s != "" && s[0] == '0' {
      StartWithZero(s);
    } else if s != "" {
      StartWithOther(s);
    }
  }

  /** The number after its optional sign. */
  function Unsigned(s: string): string {
    if s != "" && s[0] == '-' then s[1..] else s
  }

  lemma SplitOfUnsigned(s: string, b: nat, c: nat)
    requires UnsignedAt(Unsigned(s), b, c)
    ensures IsNumber(s)
  {
    var u := Unsigned(s);
    var n := |s| - |u|;
    assert s[n..n + b] == u[..b] && s[n + b..n + b + c] == u[b..][..c] && s[n + b + c..] == u[b..][c..];
    assert IsNumberSplit(s, n, n + b, n + b + c);
  }

  /** The parts of a string as parts of its tail. */
  lemma TailParts(s: string, a: nat, b: nat, c: nat)
    requires a <= b <= c <= |s|
    ensures s[a..][..b - a] == s[a..b] && s[a..][b - a..] == s[b..]
    ensures s[b..][..c - b] == s[b..c] && s[b..][c - b..] == s[c..]
  {
  }

  lemma UnsignedIsTail(s: string, a: nat, b: nat, c: nat)
    requires IsNumberSplit(s, a, b, c)
    ensures a <= b <= c <= |s| && Unsigned(s) == s[a..]
  {
    assert s[a..b][0] == s[a];
  }

  lemma UnsignedOfSplit(s: string, a: nat, b: nat, c: nat)
    requires IsNumberSplit(s, a, b, c)
    ensures UnsignedAt(Unsigned(s), b - a, c - b)
  {
    hide IntegerPart, FractionPart, ExponentPart;
    UnsignedIsTail(s, a, b, c);
    TailParts(s, a, b, c);
  }

  /** The automaton accepts exactly the numbers of the grammar. */
  lemma AcceptsExactlyNumbers(s: string)
    ensures Accepts(Start, Unsigned(s)) <==> IsNumber(s)
  {
    StartRest(Unsigned(s));
    if b: nat, c: nat :| UnsignedAt(Unsigned(s), b, c) {
      SplitOfUnsigned(s, b, c);
    }
    if a: nat, b: nat, c: nat :| IsNumberSplit(s, a, b, c) {
      UnsignedOfSplit(s, a, b, c);
    }
  }

  /** A number has a fraction or an exponent exactly when it has a point or an exponent mark. */
  lemma FractionOrExponent(s: string, a: nat, b: nat, c: nat)
    requires IsNumberSplit(s, a, b, c)
    ensures b < |s| <==> exists i :: 0 <= i < |s| && s[i] in {'.', 'e', 'E'}
  {
    if b < c {
      assert s[b..c][0] == s[b];
    } else if c < |s| {
      assert s[c..][0] == s[c];
    } else {
      forall i | 0 <= i < |s| ensures s[i] !in {'.', 'e', 'E'} {
        if i < a {
          assert s[..a][i] == s[i];
        } else {
          assert s[a..b][i - a] == s[i];
        }
      }
    }
  }

  /** Something follows the integer part of the number. */
  ghost predicate HasFractionOrExponent(s: string) {
    exists a: nat, b: nat, c: nat :: IsNumberSplit(s, a, b, c) && b < |s|
  }
}
