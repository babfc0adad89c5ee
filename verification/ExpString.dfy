/**
 Expandable strings of common/memory.c: buffers whose length is a power of two and whose
 unused part is filled with zeros, so that the end can be found by binary search.
 */
module ExpString {
  import opened Options
  const NUL: char := '\0'

  // ---------------------------------------------------------------- sizes

  predicate IsPow2(n: nat) {
    n == 1 || (n > 1 && n % 2 == 0 && IsPow2(n / 2))
  }

  lemma {:induction false} Pow2Gap(p: nat, q: nat)
    requires IsPow2(p) && IsPow2(q) && p < q
    ensures 2 * p <= q
  {
    if p > 1 {
      Pow2Gap(p / 2, q / 2);
    }
  }

  lemma DoublePow2(p: nat)
    requires IsPow2(p)
    ensures IsPow2(2 * p) && p > 0
  {
  }

  /** The least power of two above `len`. */
  predicate IsRoundup(len: nat, size: nat) {
    IsPow2(size) && len < size && (size == 1 || size / 2 <= len)
  }

  lemma RoundupUnique(len: nat, size: nat, other: nat)
    requires IsRoundup(len, size) && IsPow2(other) && len < other
    ensures size <= other
    ensures IsRoundup(len, other) ==> size == other
  {
    if other < size {
      Pow2Gap(other, size);
    } else if size < other {
      Pow2Gap(size, other);
    }
  }

  /** `roundup_size` */
  method RoundupSize(len: nat) returns (size: nat)
    ensures IsRoundup(len, size)
  {
    size := 1;
    while len >= size
      invariant IsPow2(size) && (size == 1 || size / 2 <= len)
      decreases 2 * len - size
    {
      size := size * 2;
    }
  }

  // ---------------------------------------------------------------- contents

  /** `strlen` of the characters of a buffer */
  function Len(s: seq<char>): (n: nat)
    ensures n <= |s| && NUL !in s[..n] && (n < |s| ==> s[n] == NUL)
  {
    if s == [] || s[0] == NUL then 0 else
      assert forall n :: 0 <= n <= |s[1..]| ==> s[..n + 1] == [s[0]] + s[1..][..n];
      1 + Len(s[1..])
  }

  /** What every operation keeps: a power of two, some zero at the end, nothing but zeros after the first. */
  predicate Padded(s: seq<char>) {
    IsPow2(|s|) && Len(s) < |s| && forall i :: Len(s) <= i < |s| ==> s[i] == NUL
  }

  function Text(s: seq<char>): (t: string)
    ensures NUL !in t && t <= s
  {
    s[..Len(s)]
  }

  /** `text` followed by zeros. */
  predicate Holds(s: seq<char>, text: string) {
    |text| < |s| && s[..|text|] == text && forall i :: |text| <= i < |s| ==> s[i] == NUL
  }

  lemma LenIs(s: seq<char>, n: nat)
    requires n < |s| && NUL !in s[..n] && s[n] == NUL
    ensures Len(s) == n
  {
  }

  /** Written with a text and zeros, a buffer is padded exactly when the text has no zero in it. */
  lemma PaddedExactly(s: seq<char>, text: string)
    requires Holds(s, text) && IsPow2(|s|)
    ensures Padded(s) && Text(s) == text <==> NUL !in text
  {
    if NUL !in text {
      LenIs(s, |text|);
    }
  }

  lemma TextHolds(s: seq<char>)
    requires Padded(s)
    ensures Holds(s, Text(s)) && |Text(s)| == Len(s) && IsPow2(|s|)
  {
  }

  // ---------------------------------------------------------------- length

  /** `fast_strlen`: the linear length, and the least size of a buffer for it. */
  method FastStrlen(str: array<char>) returns (len: nat, bufsize: nat)
    requires Padded(str[..])
    ensures len == Len(str[..]) && IsRoundup(len, bufsize) && bufsize <= str.Length
  {
    hide IsPow2, Len;
    ghost var n := Len(str[..]);
    NonZeroBefore(str[..]);
    bufsize := FindSize(str, n);
    if bufsize == 1 {
      return 0, bufsize;
    }
    var min, max := bufsize / 2 - 1, bufsize - 1;
    while max - min > 1
      invariant min < n <= max < bufsize
    {
      var med := (min + max) / 2;
      if str[med] != NUL {
        min := med;
      } else {
        max := med;
      }
    }
    len := max;
  }

  /** The first loop of `fast_strlen`: the first power of two whose last character is zero. */
  method FindSize(str: array<char>, ghost n: nat) returns (size: nat)
    requires IsPow2(str.Length) && n < str.Length
    requires forall i :: 0 <= i < str.Length ==> (str[i] == NUL <==> n <= i)
    ensures IsRoundup(n, size) && size <= str.Length
  {
    hide IsPow2;
    size := 1;
    OneIsPow2();
    while str[size - 1] != NUL
      invariant 1 <= size <= str.Length && IsPow2(size) && (size == 1 || size / 2 <= n)
      decreases str.Length - size
    {
      Pow2Gap(size, str.Length);
      DoublePow2(size);
      size := size * 2;
    }
  }

  lemma OneIsPow2()
    ensures IsPow2(1)
  {
  }

  lemma NonZeroBefore(s: seq<char>)
    requires Padded(s)
    ensures forall i :: 0 <= i < |s| ==> (s[i] == NUL <==> Len(s) <= i)
  {
    forall i | 0 <= i < Len(s) ensures s[i] != NUL {
      assert s[..Len(s)][i] == s[i];
    }
  }

  /** `mstrlen` */
  method StrLen(str: array?<char>) returns (len: nat)
    requires str != null ==> Padded(str[..])
    ensures len == if str == null then 0 else Len(str[..])
  {
    if str != null {
      var size;
      len, size := FastStrlen(str);
    } else {
      len := 0;
    }
  }

  // ---------------------------------------------------------------- memory

  /** `realloc`: a buffer of another size with the same beginning, and anything after it */
  method Realloc(str: array<char>, size: nat) returns (r: array<char>)
    ensures fresh(r) && r.Length == size
    ensures size <= str.Length ==> r[..] == old(str[..size])
    ensures str.Length <= size ==> r[..str.Length] == old(str[..])
  {
    r := new char[size];
    var n := if size <= str.Length then size else str.Length;
    for i := 0 to n
      invariant r[..i] == old(str[..i])
    {
      r[i] := str[i];
    }
  }

  /** `memcpy` */
  method CopyTo(str: array<char>, at: nat, text: string)
    requires at + |text| <= str.Length
    modifies str
    ensures str[..] == old(str[..at]) + text + old(str[at + |text|..])
  {
    for i := 0 to |text|
      invariant str[..at] == old(str[..at]) && str[at..at + i] == text[..i]
      invariant str[at + i..] == old(str[at + i..])
    {
      str[at + i] := text[i];
    }
    assert str[..] == str[..at] + str[at..at + |text|] + str[at + |text|..];
  }

  /** `memset` to zero */
  method Clear(str: array<char>, from: nat, to: nat)
    requires from <= to <= str.Length
    modifies str
    ensures str[..from] == old(str[..from]) && str[to..] == old(str[to..])
    ensures forall i :: from <= i < to ==> str[i] == NUL
  {
    for i := from to to
      invariant str[..from] == old(str[..from]) && str[to..] == old(str[to..])
      invariant forall k :: from <= k < i ==> str[k] == NUL
    {
      str[i] := NUL;
    }
  }

  // ---------------------------------------------------------------- operations

  /** The text of a buffer or of none. */
  function TextOf(str: array?<char>): string
    reads str
  {
    if str == null then "" else Text(str[..])
  }

  /** `memptystr` */
  method EmptyStr() returns (r: array<char>)
    ensures fresh(r) && IsRoundup(0, r.Length) && Holds(r[..], "")
  {
    r := new char[1];
    r[0] := NUL;
  }

  /** `mcopystrn` of `len` characters, and `mcopystr` when they are all there are up to the first zero */
  method CopyStrn(str: Option<string>, len: nat) returns (r: array<char>)
    requires str.Some? ==> len <= |str.value|
    ensures fresh(r)
    ensures str.None? ==> Holds(r[..], "") && IsRoundup(0, r.Length)
    ensures str.Some? ==> Holds(r[..], str.value[..len]) && IsRoundup(len, r.Length)
  {
    if len != 0 && str.Some? {
      var size := RoundupSize(len);
      r := new char[size];
      CopyTo(r, 0, str.value[..len]);
      Clear(r, len, size);
    } else {
      r := EmptyStr();
    }
  }

  /** `mcopystr` */
  method CopyStr(str: Option<string>) returns (r: array<char>)
    requires NUL !in Given(str)
    ensures fresh(r) && Padded(r[..]) && Minimal(r[..]) && TextOf(r) == Given(str)
  {
    hide Len, IsPow2;
    var text := Given(str);
    assert text[..|text|] == text;
    r := CopyStrn(str, |text|);
    PaddedExactly(r[..], text);
  }

  /** The text of an argument, none at all being the same as an empty one. */
  function Given(str: Option<string>): string {
    if str.Some? then str.value else ""
  }

  /** Whether a buffer has the least size for its text. */
  predicate Minimal(s: seq<char>) {
    IsRoundup(Len(s), |s|)
  }

  /** The common part of `mputstr`, `mputstrn` and `mputprintf`: the text at the end of a buffer */
  method Append(str: array<char>, text: string) returns (r: array<char>)
    requires Padded(str[..])
    modifies str
    ensures r == str || fresh(r)
    ensures Holds(r[..], old(Text(str[..])) + text) && IsPow2(r.Length)
    ensures old(Minimal(str[..])) ==> IsRoundup(old(Len(str[..])) + |text|, r.Length)
  {
    hide Len, IsPow2, Padded, Holds, Minimal, IsRoundup;
    ghost var was := Text(str[..]);
    var len, size := FastStrlen(str);
    TextHolds(str[..]);
    r := MakeRoom(str, len, size, len + |text|);
    ghost var rest := r[len + |text|..];
    CopyTo(r, len, text);
    WrittenHolds(was, text, rest);
  }

  lemma WrittenHolds(was: string, text: string, rest: seq<char>)
    requires rest != [] && forall i :: 0 <= i < |rest| ==> rest[i] == NUL
    ensures Holds(was + text + rest, was + text)
  {
  }

  /** A buffer that has room for `newlen` characters, with zeros after them. */
  method MakeRoom(str: array<char>, len: nat, size: nat, newlen: nat) returns (r: array<char>)
    requires Padded(str[..]) && len == Len(str[..]) && IsRoundup(len, size) && size <= str.Length && len <= newlen
    ensures r == str || fresh(r)
    ensures newlen < r.Length && IsPow2(r.Length)
    ensures str[..] == old(str[..]) && r[..len] == str[..len]
    ensures forall i :: newlen <= i < r.Length ==> r[i] == NUL
    ensures old(Minimal(str[..])) ==> IsRoundup(newlen, r.Length)
  {
    hide Len, IsPow2, Padded;
    TextHolds(str[..]);
    RoundupUnique(len, size, str.Length);
    r := str;
    if size <= newlen {
      var newsize := RoundupSize(newlen);
      GrowsPast(len, size, newlen, newsize);
      r := Realloc(str, newsize);
      Clear(r, newlen, newsize);
    }
  }

  lemma GrowsPast(len: nat, size: nat, newlen: nat, newsize: nat)
    requires IsRoundup(len, size) && size <= newlen && IsRoundup(newlen, newsize)
    ensures len < newsize
  {
  }

  /** `mputstr` */
  method PutStr(str: array?<char>, str2: Option<string>) returns (r: array?<char>)
    requires str != null ==> Padded(str[..])
    requires str2.Some? ==> NUL !in str2.value
    modifies str
    ensures r == str || fresh(r)
    ensures str2.None? ==> r == str && TextOf(r) == old(TextOf(str))
    ensures str2.Some? ==> r != null && TextOf(r) == old(TextOf(str)) + str2.value
    ensures r != null ==> Padded(r[..])
    ensures r != null && (str == null || old(Minimal(str[..]))) ==> Minimal(r[..])
  {
    r := str;
    if str2.Some? {
      if str != null {
        r := Append(str, str2.value);
        PaddedExactly(r[..], old(Text(str[..])) + str2.value);
      } else {
        r := CopyStrn(str2, |str2.value|);
        assert str2.value[..|str2.value|] == str2.value;
        PaddedExactly(r[..], str2.value);
      }
    }
  }

  /** `mputstrn`; the result is padded exactly when no zero was among the characters. */
  method PutStrn(str: array?<char>, str2: Option<string>, len2: nat) returns (r: array?<char>)
    requires str != null ==> Padded(str[..])
    requires str2.Some? ==> len2 <= |str2.value|
    modifies str
    ensures r == str || fresh(r)
    ensures str2.None? || len2 == 0 ==> r == str && TextOf(r) == old(TextOf(str)) && (r != null ==> Padded(r[..]))
    ensures str2.Some? && len2 > 0 ==> r != null && IsPow2(r.Length)
    ensures str2.Some? && len2 > 0 ==> Holds(r[..], old(TextOf(str)) + str2.value[..len2])
    ensures str2.Some? && len2 > 0 ==>
      (Padded(r[..]) && TextOf(r) == old(TextOf(str)) + str2.value[..len2] <==> NUL !in str2.value[..len2])
    ensures r != null && (str2.Some? ==> NUL !in str2.value[..len2]) && (str == null || old(Minimal(str[..]))) ==>
      Minimal(r[..])
  {
    r := str;
    if len2 != 0 && str2.Some? {
      var text := str2.value[..len2];
      if str != null {
        r := Append(str, text);
        PaddedExactly(r[..], old(Text(str[..])) + text);
      } else {
        r := CopyStrn(str2, len2);
        PaddedExactly(r[..], text);
      }
    }
  }

  /** `mputc` */
  method PutC(str: array?<char>, c: char) returns (r: array<char>)
    requires str != null ==> Padded(str[..])
    modifies str
    ensures r == str || fresh(r)
    ensures Padded(r[..]) && TextOf(r) == old(TextOf(str)) + (if c == NUL then "" else [c])
    ensures str == null || old(Minimal(str[..])) ==> Minimal(r[..])
  {
    if str == null {
      if c != NUL {
        r := new char[2];
        r[0], r[1] := c, NUL;
        PaddedExactly(r[..], [c]);
      } else {
        r := EmptyStr();
        PaddedExactly(r[..], "");
      }
    } else {
      r := str;
      if c != NUL {
        r := PutNonZero(str, c);
      }
    }
  }

  method PutNonZero(str: array<char>, c: char) returns (r: array<char>)
    requires Padded(str[..]) && c != NUL
    modifies str
    ensures r == str || fresh(r)
    ensures Padded(r[..]) && Text(r[..]) == old(Text(str[..])) + [c]
    ensures old(Minimal(str[..])) ==> Minimal(r[..])
  {
    hide Len, IsPow2, Padded;
    ghost var was := Text(str[..]);
    TextHolds(str[..]);
    var len, size := FastStrlen(str);
    RoundupUnique(len, size, str.Length);
    DoublePow2(size);
    r := str;
    if size <= len + 1 {
      r := Realloc(str, 2 * size);
      assert r[..len] == was;
      Clear(r, size, 2 * size);
    }
    assert r[..len] == was;
    r[len] := c;
    assert r[..len + 1] == was + [c];
    PaddedExactly(r[..], was + [c]);
  }

  /** `mtruncstr` */
  method TruncStr(str: array?<char>, newlen: nat) returns (r: array?<char>)
    requires str != null ==> Padded(str[..])
    modifies str
    ensures r == str || fresh(r)
    ensures (r == null <==> str == null) && (r != null ==> Padded(r[..]))
    ensures TextOf(r) == if newlen < |old(TextOf(str))| then old(TextOf(str))[..newlen] else old(TextOf(str))
    ensures str != null && old(Minimal(str[..])) ==> Minimal(r[..])
  {
    r := str;
    if str != null {
      r := Truncate(str, newlen);
    }
  }

  method Truncate(str: array<char>, newlen: nat) returns (r: array<char>)
    requires Padded(str[..])
    modifies str
    ensures r == str || fresh(r)
    ensures Padded(r[..])
    ensures Text(r[..]) == if newlen < |old(Text(str[..]))| then old(Text(str[..]))[..newlen] else old(Text(str[..]))
    ensures old(Minimal(str[..])) ==> Minimal(r[..])
  {
    hide Len, IsPow2, Padded;
    ghost var was := Text(str[..]);
    TextHolds(str[..]);
    r := str;
    var len, size := FastStrlen(str);
    RoundupUnique(len, size, str.Length);
    if newlen < len {
      var newsize := RoundupSize(newlen);
      RoundupUnique(newlen, newsize, size);
      if newsize < size {
        r := Realloc(str, newsize);
      }
      assert r[..newlen] == was[..newlen];
      Clear(r, newlen, newsize);
      PaddedExactly(r[..], was[..newlen]);
    }
  }

  // ---------------------------------------------------------------- runs

  /** The operations that make a string of another one, and those that begin a new one. */
  datatype Op =
    | PutStr(text: Option<string>)
    | PutStrn(text: Option<string>, len: nat)
    | PutC(c: char)
    | TruncStr(newlen: nat)
    | CopyStr(text: Option<string>)
    | CopyStrn(text: Option<string>, len: nat)
  {
    /** The characters that are given to an operation. */
    function Chars(): string {
      match this
      case PutStr(text) => Given(text)
      case PutStrn(text, len) => if len <= |Given(text)| then Given(text)[..len] else Given(text)
      case PutC(c) => if c == NUL then "" else [c]
      case TruncStr(newlen) => ""
      case CopyStr(text) => Given(text)
      case CopyStrn(text, len) => if len <= |Given(text)| then Given(text)[..len] else Given(text)
    }
  }

  /** As many characters are there as are asked for, and none of them is a zero. */
  predicate Wellformed(op: Op) {
    NUL !in op.Chars() && ((op.PutStrn? || op.CopyStrn?) && op.text.Some? ==> op.len <= |op.text.value|)
  }

  /** What an operation does to a plain string. */
  function Apply(text: string, op: Op): string {
    if op.TruncStr? then
      if op.newlen < |text| then text[..op.newlen] else text
    else if op.CopyStr? || op.CopyStrn? then op.Chars()
    else text + op.Chars()
  }

  function ApplyAll(text: string, ops: seq<Op>): string
    decreases |ops|
  {
    if ops == [] then text else Apply(ApplyAll(text, ops[..|ops| - 1]), ops[|ops| - 1])
  }

  /** One operation on a buffer or on none. */
  method Perform(str: array?<char>, op: Op) returns (r: array?<char>)
    requires Wellformed(op) && (str != null ==> Padded(str[..]) && Minimal(str[..]))
    modifies str
    ensures r == str || fresh(r)
    ensures r != null ==> Padded(r[..]) && Minimal(r[..])
    ensures TextOf(r) == Apply(old(TextOf(str)), op)
  {
    hide Padded, Minimal, Text;
    assert TextOf(str) + "" == TextOf(str);
    match op {
      case PutStr(text) => r := PutStr(str, text);
      case PutStrn(text, len) => r := PutStrn(str, text, len);
      case PutC(c) => r := PutC(str, c);
      case TruncStr(newlen) => r := TruncStr(str, newlen);
      case CopyStr(text) => r := CopyStr(text);
      case CopyStrn(text, len) =>
        r := CopyStrn(text, len);
        CopyIsPadded(r[..], op.Chars());
    }
  }

  lemma CopyIsPadded(s: seq<char>, text: string)
    requires Holds(s, text) && IsRoundup(|text|, |s|) && NUL !in text
    ensures Padded(s) && Minimal(s) && Text(s) == text
  {
    hide Len, IsPow2;
    PaddedExactly(s, text);
  }

  /** Whatever is done to a string, its text and its length are those of the plain string. */
  method Run(ops: seq<Op>) returns (r: array?<char>, len: nat)
    requires forall i :: 0 <= i < |ops| ==> Wellformed(ops[i])
    ensures r != null ==> fresh(r) && Padded(r[..]) && Minimal(r[..])
    ensures TextOf(r) == ApplyAll("", ops) && len == |ApplyAll("", ops)|
  {
    hide Padded, Minimal, Apply, Wellformed;
    r := null;
    assert ops[..0] == [];
    for i := 0 to |ops|
      invariant r != null ==> fresh(r) && Padded(r[..]) && Minimal(r[..])
      invariant TextOf(r) == ApplyAll("", ops[..i])
    {
      assert ops[..i + 1][..i] == ops[..i];
      r := Perform(r, ops[i]);
    }
    assert ops[..|ops|] == ops;
    len := StrLen(r);
  }
}
