/**
 The conversions between TTCN-3 and ASN.1 identifiers and C++ names, of compiler2/Identifier.cc.
 */
module NameMangling {
  import opened Results

  // ---------------------------------------------------------------- finding and replacing

  /** `string::find` of a character */
  method FindChar(s: string, c: char, from: nat) returns (r: nat)
    requires from <= |s|
    ensures from <= r <= |s| && c !in s[from..r] && (r < |s| ==> s[r] == c)
  {
    r := from;
    while r < |s| && s[r] != c
      invariant from <= r <= |s| && c !in s[from..r]
    {
      r := r + 1;
    }
  }

  /** `a` followed by `b` at position `i` */
  predicate PairAt(s: string, a: char, b: char, i: nat) {
    i + 1 < |s| && s[i] == a && s[i + 1] == b
  }

  /** The first place of a pair, or the end. */
  function IndexOf(s: string, a: char, b: char): (r: nat)
    ensures r <= |s| && (r < |s| ==> PairAt(s, a, b, r))
  {
    if s == "" || PairAt(s, a, b, 0) then 0 else 1 + IndexOf(s[1..], a, b)
  }

  /** `string::find` of two characters, which does not start at the end */
  method FindPair(s: string, a: char, b: char, from: nat) returns (r: Result<nat>)
    requires from <= |s|
    ensures r.Fatal? <==> from == |s|
    ensures r.Ok? ==> r.value == from + IndexOf(s[from..], a, b)
    ensures r.Ok? ==> forall i :: from <= i < r.value ==> !PairAt(s, a, b, i)
  {
    if from >= |s| {
      return Fatal;
    }
    var i := from;
    while i < |s| && !(i + 1 < |s| && s[i] == a && s[i + 1] == b)
      invariant from <= i <= |s| && from + IndexOf(s[from..], a, b) == i + IndexOf(s[i..], a, b)
      invariant forall k :: from <= k < i ==> !PairAt(s, a, b, k)
    {
      assert s[i..][1..] == s[i + 1..];
      i := i + 1;
    }
    r := Ok(i);
  }

  /** Every `c` replaced by `with`. */
  function Substitute(s: string, c: char, with: string): string {
    if s == "" then "" else (if s[0] == c then with else [s[0]]) + Substitute(s[1..], c, with)
  }

  /** Up to the first `c` nothing is replaced. */
  lemma {:induction false} SubstituteFirst(s: string, n: nat, c: char, with: string)
    requires n <= |s| && c !in s[..n] && (n < |s| ==> s[n] == c)
    ensures n == |s| ==> Substitute(s, c, with) == s
    ensures n < |s| ==> Substitute(s, c, with) == s[..n] + with + Substitute(s[n + 1..], c, with)
  {
    if n > 0 {
      var t := s[1..];
      assert s[0] == s[..n][0] && t[..n - 1] == s[..n][1..];
      SubstituteFirst(t, n - 1, c, with);
      assert s == [s[0]] + t;
      if n < |s| {
        assert t[n..] == s[n + 1..] && s[..n] == [s[0]] + t[..n - 1];
        Assoc([s[0]], t[..n - 1], with, Substitute(t[n..], c, with));
      }
    }
  }

  lemma Assoc(a: string, b: string, c: string, d: string)
    ensures a + (b + c + d) == (a + b) + c + d
  {
  }

  /** A replacement of `n` characters in the second part of a string. */
  lemma Splice(done: string, rest: string, i: nat, n: nat, with: string)
    requires i + n <= |rest|
    ensures var s, pos := done + rest, |done| + i;
      s[..pos] + with + s[pos + n..] == (done + rest[..i] + with) + rest[i + n..]
  {
  }

  /** The loops that look for a character, replace it and go on after it */
  method ReplaceAll(from: string, c: char, with: string) returns (to: string)
    ensures to == Substitute(from, c, with)
  {
    hide Substitute;
    to := from;
    var pos := 0;
    ghost var done, rest := "", from;
    assert "" + from == from && "" + Substitute(from, c, with) == Substitute(from, c, with);
    while true
      invariant to == done + rest && pos == |done|
      invariant Substitute(from, c, with) == done + Substitute(rest, c, with)
      decreases |rest|
    {
      pos := FindChar(to, c, pos);
      ghost var n := pos - |done|;
      assert rest[..n] == to[|done|..pos];
      SubstituteFirst(rest, n, c, with);
      if pos >= |to| {
        break;
      }
      Splice(done, rest, n, 1, with);
      Assoc(done, rest[..n], with, Substitute(rest[n + 1..], c, with));
      to := to[..pos] + with + to[pos + 1..];
      pos := pos + |with|;
      done, rest := done + rest[..n] + with, rest[n + 1..];
    }
  }

  // ---------------------------------------------------------------- pairs of underscores

  /** Every pair of underscores, from the left, replaced by one character. */
  function Collapse(s: string, with: char): string {
    if s == "" then ""
    else if PairAt(s, '_', '_', 0) then [with] + Collapse(s[2..], with)
    else [s[0]] + Collapse(s[1..], with)
  }

  lemma {:induction false} CollapseFirst(s: string, with: char)
    ensures var n := IndexOf(s, '_', '_');
      Collapse(s, with) == if n == |s| then s else s[..n] + [with] + Collapse(s[n + 2..], with)
  {
    var n := IndexOf(s, '_', '_');
    if s != "" && !PairAt(s, '_', '_', 0) {
      var t := s[1..];
      CollapseFirst(t, with);
      assert s == [s[0]] + t;
      if n < |s| {
        assert t[n + 1..] == s[n + 2..] && s[..n] == [s[0]] + t[..n - 1];
        Assoc([s[0]], t[..n - 1], [with], Collapse(t[n + 1..], with));
      }
    }
  }

  /** A string that does not end in an underscore. */
  predicate EndsWell(s: string) {
    s != "" && s[|s| - 1] != '_'
  }

  /** One replacement in `done + rest`, at the first pair in `rest`. */
  lemma CollapseStep(done: string, rest: string, with: char)
    ensures var n := IndexOf(rest, '_', '_'); n == |rest| ==> Collapse(rest, with) == rest
    ensures var n := IndexOf(rest, '_', '_'); n < |rest| ==> n + 2 <= |rest|
    ensures var n := IndexOf(rest, '_', '_'); n < |rest| ==>
      done + Collapse(rest, with) == (done + rest[..n] + [with]) + Collapse(rest[n + 2..], with)
    ensures var n := IndexOf(rest, '_', '_'); n < |rest| ==>
      (done + rest)[..|done| + n] + [with] + (done + rest)[|done| + n + 2..] == (done + rest[..n] + [with]) + rest[n + 2..]
    ensures var n := IndexOf(rest, '_', '_'); n < |rest| && EndsWell(rest) ==> EndsWell(rest[n + 2..])
  {
    hide Collapse, IndexOf;
    var n := IndexOf(rest, '_', '_');
    CollapseFirst(rest, with);
    if n < |rest| {
      assert PairAt(rest, '_', '_', n);
      Splice(done, rest, n, 2, [with]);
      Assoc(done, rest[..n], [with], Collapse(rest[n + 2..], with));
    }
  }

  /** The loops that look for a pair of underscores; the string does not end in one. */
  method CollapseAll(from: string, with: char) returns (to: Result<string>)
    requires from != "" ==> EndsWell(from)
    ensures to == if from == "" then Fatal else Ok(Collapse(from, with))
  {
    hide Collapse, IndexOf, EndsWell, PairAt;
    if from == "" {
      return Fatal;
    }
    var s := from;
    var pos := 0;
    ghost var done, rest := "", from;
    assert "" + from == from && "" + Collapse(from, with) == Collapse(from, with);
    NotEmpty(from);
    while true
      invariant s == done + rest && pos == |done| && rest != "" && EndsWell(rest)
      invariant Collapse(from, with) == done + Collapse(rest, with)
      decreases |rest|
    {
      var found := FindPair(s, '_', '_', pos);
      assert s[pos..] == rest;
      CollapseStep(done, rest, with);
      ghost var n := IndexOf(rest, '_', '_');
      pos := found.value;
      if pos >= |s| {
        return Ok(s);
      }
      NotEmpty(rest[n + 2..]);
      s := s[..pos] + [with] + s[pos + 2..];
      pos := pos + 1;
      done, rest := done + rest[..n] + [with], rest[n + 2..];
    }
  }

  lemma NotEmpty(s: string)
    ensures EndsWell(s) ==> s != ""
  {
  }

  // ---------------------------------------------------------------- stripping

  function StripLeft(s: string, c: char): string {
    if s != "" && s[0] == c then StripLeft(s[1..], c) else s
  }

  function StripRight(s: string, c: char): (t: string)
    ensures t != "" ==> t[|t| - 1] != c
  {
    if s != "" && s[|s| - 1] == c then StripRight(s[..|s| - 1], c) else s
  }

  function Strip(s: string, c: char): (t: string)
    ensures t != "" ==> t[|t| - 1] != c
  {
    StripRight(StripLeft(s, c), c)
  }

  /** The removal of leading and trailing underscores */
  method StripUnderscores(from: string) returns (to: string)
    ensures to == Strip(from, '_')
  {
    var pos := 0;
    assert from[0..] == from;
    while pos < |from| && from[pos] == '_'
      invariant 0 <= pos <= |from| && StripLeft(from, '_') == StripLeft(from[pos..], '_')
    {
      assert from[pos..][1..] == from[pos + 1..];
      pos := pos + 1;
    }
    to := from[pos..];
    pos := |to|;
    assert to[..pos] == to;
    while pos > 0 && to[pos - 1] == '_'
      invariant 0 <= pos <= |to| && StripRight(to, '_') == StripRight(to[..pos], '_')
    {
      assert to[..pos][..pos - 1] == to[..pos - 1];
      pos := pos - 1;
    }
    to := to[..pos];
  }

  // ---------------------------------------------------------------- TTCN-3 names

  /** `ttcn_2_name` */
  method TtcnToName(from: string) returns (to: string)
    ensures to == Substitute(from, '_', "__")
  {
    to := ReplaceAll(from, '_', "__");
  }

  /** `name_2_ttcn`; nothing but underscores is a fatal error. */
  method NameToTtcn(from: string) returns (to: Result<string>)
    ensures to == if Strip(from, '_') == "" then Fatal else Ok(Collapse(Strip(from, '_'), '_'))
  {
    hide Strip;
    var s := StripUnderscores(from);
    to := CollapseAll(s, '_');
  }

  // ---------------------------------------------------------------- ASN.1 names

  /** A leading '@' replaced. */
  function Rooted(s: string): string {
    if s != "" && s[0] == '@' then "_root_" + s[1..] else s
  }

  /** Where a hidden part begins, if there is one. */
  function HiddenFrom(s: string): (i: nat)
    ensures i <= |s|
  {
    IndexOf(s, '.', '<')
  }

  /** Where the hidden part that begins at `i` ends, if it does. */
  function HiddenTo(s: string, i: nat): (j: nat)
    requires i <= |s|
    ensures i <= j <= |s| && (j < |s| ==> j + 1 < |s|)
  {
    i + IndexOf(s[i..], '>', '.')
  }

  /** Everything from ".<" to the next ">" left out, as long as there is one followed by a dot. */
  function Unhidden(s: string): string
    decreases |s|
  {
    var i := HiddenFrom(s);
    var j := HiddenTo(s, i);
    if i == |s| || j == |s| then s else s[..i] + Unhidden(s[j + 1..])
  }

  /** The first ".<" from `pos` on and the first ">." after it. */
  method FindHidden(s: string, pos: nat, ghost rest: string) returns (begin: nat, end: nat)
    requires pos < |s| && rest == s[pos..]
    ensures begin == pos + HiddenFrom(rest)
    ensures end == pos + HiddenTo(rest, HiddenFrom(rest))
  {
    hide IndexOf, PairAt;
    var found := FindPair(s, '.', '<', pos);
    begin := found.value;
    if begin == |s| {
      NoPairInNothing('>', '.');
      return begin, begin;
    }
    assert s[begin..] == rest[HiddenFrom(rest)..];
    found := FindPair(s, '>', '.', begin);
    end := found.value;
  }

  lemma NoPairInNothing(a: char, b: char)
    ensures IndexOf("", a, b) == 0
  {
  }

  /** The loop that leaves out hidden parts */
  method Unhide(from: string) returns (to: Result<string>)
    ensures to == if from == "" then Fatal else Ok(Unhidden(from))
  {
    hide Unhidden, HiddenFrom, HiddenTo;
    if from == "" {
      return Fatal;
    }
    var s := from;
    var pos := 0;
    ghost var done, rest := "", from;
    assert "" + from == from && "" + Unhidden(from) == Unhidden(from);
    while true
      invariant s == done + rest && pos == |done| && rest != ""
      invariant Unhidden(from) == done + Unhidden(rest)
      decreases |rest|
    {
      assert s[pos..] == rest;
      var begin, end := FindHidden(s, pos, rest);
      ghost var i, j := begin - pos, end - pos;
      UnhiddenStep(done, rest);
      if begin >= |s| || end >= |s| {
        return Ok(s);
      }
      Removal(done, rest, i, j + 1 - i);
      pos := begin;
      s := s[..pos] + s[end + 1..];
      done, rest := done + rest[..i], rest[j + 1..];
    }
  }

  lemma UnhiddenUnfold(s: string)
    ensures var i := HiddenFrom(s); var j := HiddenTo(s, i);
      Unhidden(s) == if i == |s| || j == |s| then s else s[..i] + Unhidden(s[j + 1..])
  {
    hide HiddenFrom, HiddenTo;
  }

  lemma UnhiddenStep(done: string, rest: string)
    ensures var i := HiddenFrom(rest); var j := HiddenTo(rest, i);
      if i == |rest| || j == |rest| then Unhidden(rest) == rest
      else done + Unhidden(rest) == (done + rest[..i]) + Unhidden(rest[j + 1..])
  {
    hide HiddenFrom, HiddenTo, Unhidden;
    var i := HiddenFrom(rest);
    var j := HiddenTo(rest, i);
    UnhiddenUnfold(rest);
    if i < |rest| && j < |rest| {
      Regroup(done, rest[..i], Unhidden(rest[j + 1..]));
    }
  }

  lemma Regroup(a: string, b: string, c: string)
    ensures a + (b + c) == (a + b) + c
  {
  }

  /** A removal of `n` characters in the second part of a string. */
  lemma Removal(done: string, rest: string, i: nat, n: nat)
    requires i + n <= |rest|
    ensures var s, pos := done + rest, |done| + i;
      s[..pos] + s[pos + n..] == (done + rest[..i]) + rest[i + n..]
  {
  }

  /** The C++ name of an ASN.1 name. */
  function AsnName(s: string): string {
    Substitute(Substitute(Substitute(Unhidden(Rooted(s)), '-', "__"), '.', "_"), '&', "")
  }

  /** `asn_2_name` */
  method AsnToName(from: string) returns (to: Result<string>)
    ensures to == if from == "" then Fatal else Ok(AsnName(from))
  {
    hide Substitute, Unhidden;
    var s := from;
    if |s| > 0 && s[0] == '@' {
      s := "_root_" + s[1..];
    }
    var u := Unhide(s);
    if u.Fatal? {
      return Fatal;
    }
    s := ReplaceAll(u.value, '-', "__");
    s := ReplaceAll(s, '.', "_");
    s := ReplaceAll(s, '&', "");
    to := Ok(s);
  }

  /** `name_2_asn`; nothing but underscores is a fatal error. */
  method NameToAsn(from: string) returns (to: Result<string>)
    ensures to == if Strip(from, '_') == "" then Fatal else Ok(Substitute(Collapse(Strip(from, '_'), '-'), '_', "-"))
  {
    hide Strip, Collapse, Substitute;
    var s := StripUnderscores(from);
    var t := CollapseAll(s, '-');
    if t.Fatal? {
      return Fatal;
    }
    var r := ReplaceAll(t.value, '_', "-");
    to := Ok(r);
  }

  // ---------------------------------------------------------------- round trips

  /** Doubling can be undone: `c` is the underscore itself, or there are no underscores. */
  predicate Doubles(s: string, c: char) {
    c == '_' || '_' !in s
  }

  /** `c` replaced by two underscores. */
  function Double(s: string, c: char): string {
    Substitute(s, c, "__")
  }

  lemma {:induction false} DoubleSnoc(s: string, x: char, c: char)
    ensures Double(s + [x], c) == Double(s, c) + if x == c then "__" else [x]
  {
    if s == "" {
      assert s + [x] == [x] && [x][1..] == "";
      assert Double([x], c) == (if x == c then "__" else [x]) + "";
    } else {
      DoubleSnoc(s[1..], x, c);
      assert (s + [x])[1..] == s[1..] + [x];
    }
  }

  lemma {:induction false} CollapseDouble(s: string, c: char)
    requires Doubles(s, c)
    ensures Collapse(Double(s, c), c) == s
  {
    if s != "" {
      var rest := Double(s[1..], c);
      CollapseDouble(s[1..], c);
      var d := Double(s, c);
      if s[0] == c {
        assert d == "__" + rest && d[2..] == rest;
      } else {
        assert d == [s[0]] + rest && d[1..] == rest && d[0] != '_';
      }
    }
  }

  lemma {:induction false} StripLeftDouble(s: string, c: char)
    requires Doubles(s, c)
    ensures StripLeft(Double(s, c), '_') == Double(StripLeft(s, c), c)
  {
    if s != "" {
      var rest := Double(s[1..], c);
      var d := Double(s, c);
      if s[0] == c {
        StripLeftDouble(s[1..], c);
        assert d == "__" + rest && d[1..] == "_" + rest && d[1..][1..] == rest;
      } else {
        assert d[0] == s[0] != '_';
      }
    }
  }

  lemma {:induction false} StripRightDouble(s: string, c: char)
    requires Doubles(s, c)
    ensures StripRight(Double(s, c), '_') == Double(StripRight(s, c), c)
  {
    hide Double;
    DoubleEmpty(s, c);
    if s != "" {
      var n := |s| - 1;
      var init := Double(s[..n], c);
      var d := Double(s, c);
      DoubleSnoc(s[..n], s[n], c);
      assert s == s[..n] + [s[n]];
      if s[n] == c {
        StripRightDouble(s[..n], c);
        assert d == init + "__" && d[..|d| - 1] == init + "_" && d[..|d| - 1][..|d| - 2] == init;
      } else {
        assert d[|d| - 1] == s[n] != '_';
      }
    }
  }

  lemma {:induction false} StripLeftKeeps(s: string, c: char, x: char)
    requires x !in s
    ensures x !in StripLeft(s, c)
  {
    if s != "" && s[0] == c {
      StripLeftKeeps(s[1..], c, x);
    }
  }

  lemma {:induction false} StripRightKeeps(s: string, c: char, x: char)
    requires x !in s
    ensures x !in StripRight(s, c)
  {
    if s != "" && s[|s| - 1] == c {
      StripRightKeeps(s[..|s| - 1], c, x);
    }
  }

  /** Names with doubled characters are stripped like the original, and collapse to it. */
  lemma StripDouble(s: string, c: char)
    requires Doubles(s, c)
    ensures Strip(Double(s, c), '_') == Double(Strip(s, c), c)
    ensures Doubles(Strip(s, c), c) && Collapse(Strip(Double(s, c), '_'), c) == Strip(s, c)
    ensures Strip(Double(s, c), '_') == "" <==> Strip(s, c) == ""
  {
    hide Double, StripLeft, StripRight, Collapse;
    var l := StripLeft(s, c);
    if c != '_' {
      StripLeftKeeps(s, c, '_');
      StripRightKeeps(l, c, '_');
    }
    StripLeftDouble(s, c);
    StripRightDouble(l, c);
    CollapseDouble(Strip(s, c), c);
    DoubleEmpty(Strip(s, c), c);
  }

  lemma DoubleEmpty(s: string, c: char)
    ensures Double(s, c) == "" <==> s == ""
  {
  }

  /** What neither begins nor ends in `c`, and is not empty, is what stripping leaves alone. */
  lemma StripNothing(s: string, c: char)
    ensures (Strip(s, c) == s && s != "") <==> (s != "" && s[0] != c && s[|s| - 1] != c)
  {
    if s != "" && s[0] == c {
      StripLeftShorter(s[1..], c);
      StripRightShorter(StripLeft(s, c), c);
    } else if s != "" && s[|s| - 1] == c {
      StripRightShorter(s[..|s| - 1], c);
    }
  }

  lemma {:induction false} StripLeftShorter(s: string, c: char)
    ensures |StripLeft(s, c)| <= |s|
  {
    if s != "" && s[0] == c {
      StripLeftShorter(s[1..], c);
    }
  }

  lemma {:induction false} StripRightShorter(s: string, c: char)
    ensures |StripRight(s, c)| <= |s|
  {
    if s != "" && s[|s| - 1] == c {
      StripRightShorter(s[..|s| - 1], c);
    }
  }

  /**
   From a TTCN-3 name to C++ and back: leading and trailing underscores are lost, so the name itself
   comes back exactly when it has none of them (and is not empty).
   */
  method TtcnRoundTrip(s: string) returns (r: Result<string>)
    ensures r == if Strip(s, '_') == "" then Fatal else Ok(Strip(s, '_'))
    ensures r == Ok(s) <==> s != "" && s[0] != '_' && s[|s| - 1] != '_'
  {
    hide Strip, Collapse, Substitute;
    var name := TtcnToName(s);
    r := NameToTtcn(name);
    StripDouble(s, '_');
    StripNothing(s, '_');
  }

  /** Different TTCN-3 names have different C++ names. */
  lemma TtcnToNameInjective(s: string, t: string)
    requires Double(s, '_') == Double(t, '_')
    ensures s == t
  {
    CollapseDouble(s, '_');
    CollapseDouble(t, '_');
  }

  /** None of the characters that have a meaning of their own in ASN.1 names: letters, digits and hyphens, say. */
  predicate Plain(s: string) {
    s != "" && '_' !in s && '@' !in s && '.' !in s && '&' !in s
  }

  lemma PlainName(s: string)
    requires Plain(s)
    ensures Unhidden(Rooted(s)) == s
    ensures Substitute(Substitute(Double(s, '-'), '.', "_"), '&', "") == Double(s, '-')
  {
    hide Double, Substitute;
    var d := Double(s, '-');
    assert s[0] in s;
    DoubleKeeps(s, '-', '.');
    DoubleKeeps(s, '-', '&');
    assert d[..|d|] == d && s[..|s|] == s;
    SubstituteFirst(d, |d|, '.', "_");
    SubstituteFirst(d, |d|, '&', "");
  }

  lemma {:induction false} DoubleKeeps(s: string, c: char, x: char)
    requires x !in s && x != '_'
    ensures x !in Double(s, c)
  {
    if s != "" {
      DoubleKeeps(s[1..], c, x);
    }
  }

  /**
   From an ASN.1 name to C++ and back: leading and trailing hyphens are lost, so the name itself comes
   back exactly when it has none of them.
   */
  method AsnRoundTrip(s: string) returns (r: Result<string>)
    requires Plain(s)
    ensures r == if Strip(s, '-') == "" then Fatal else Ok(Strip(s, '-'))
    ensures r == Ok(s) <==> s[0] != '-' && s[|s| - 1] != '-'
  {
    hide Strip, Collapse, Substitute;
    PlainName(s);
    var name := AsnToName(s);
    r := NameToAsn(name.value);
    StripDouble(s, '-');
    StripNothing(s, '-');
    ghost var t := Strip(s, '-');
    assert t[..|t|] == t;
    SubstituteFirst(t, |t|, '_', "-");
  }

  // ---------------------------------------------------------------- names that are not empty

  lemma SubstituteHead(s: string, c: char, with: string)
    requires s != "" && (s[0] == c ==> with != "")
    ensures Substitute(s, c, with) != ""
    ensures Substitute(s, c, with)[0] == if s[0] == c then with[0] else s[0]
  {
  }

  /** Only a name that begins with '&' can have an empty C++ name. */
  lemma AsnNameNotEmpty(s: string)
    requires s != "" && s[0] != '&'
    ensures AsnName(s) != ""
  {
    hide Substitute, IndexOf;
    var u := Unhidden(Rooted(s));
    UnhiddenHead(Rooted(s));
    SubstituteHead(u, '-', "__");
    var v := Substitute(u, '-', "__");
    SubstituteHead(v, '.', "_");
    SubstituteHead(Substitute(v, '.', "_"), '&', "");
  }

  lemma UnhiddenHead(s: string)
    requires s != ""
    ensures Unhidden(s) != "" && Unhidden(s)[0] == s[0]
    decreases |s|
  {
    hide HiddenFrom;
    var i := HiddenFrom(s);
    var j := HiddenTo(s, i);
    if i == 0 && j < |s| {
      HiddenFromDot(s);
      UnhiddenHead(s[j + 1..]);
    }
  }

  lemma HiddenFromDot(s: string)
    requires HiddenFrom(s) < |s|
    ensures s[HiddenFrom(s)] == '.'
  {
  }

  lemma NamesNotEmpty(s: string, with: char)
    requires s != ""
    ensures Collapse(s, with) != "" && Substitute(s, '_', "-") != "" && Double(s, '_') != ""
  {
  }

  // ---------------------------------------------------------------- the parts of an ASN.1 name

  /** What becomes of a character. */
  function Image(c: char): string {
    if c == '-' then "__" else if c == '.' then "_" else if c == '&' then "" else [c]
  }

  function Images(s: string): string {
    if s == "" then "" else Image(s[0]) + Images(s[1..])
  }

  lemma {:induction false} SubstituteConcat(a: string, b: string, c: char, with: string)
    ensures Substitute(a + b, c, with) == Substitute(a, c, with) + Substitute(b, c, with)
  {
    hide Substitute;
    SubstituteUnfold(a, c, with);
    if a == "" {
      assert a + b == b;
    } else {
      SubstituteConcat(a[1..], b, c, with);
      assert (a + b)[1..] == a[1..] + b;
      SubstituteUnfold(a + b, c, with);
      Regroup(if a[0] == c then with else [a[0]], Substitute(a[1..], c, with), Substitute(b, c, with));
    }
  }

  lemma SubstituteUnfold(s: string, c: char, with: string)
    ensures Substitute(s, c, with) ==
      if s == "" then "" else (if s[0] == c then with else [s[0]]) + Substitute(s[1..], c, with)
  {
  }

  /** The three replacements do to every character what they do to it alone. */
  lemma {:induction false} ReplacementsAre(s: string)
    ensures Substitute(Substitute(Substitute(s, '-', "__"), '.', "_"), '&', "") == Images(s)
  {
    if s != "" {
      var c, t := [s[0]], s[1..];
      ReplacementsAre(t);
      ReplacementsOfOne(s[0]);
      assert s == c + t;
      SubstituteConcat(c, t, '-', "__");
      var c', t' := Substitute(c, '-', "__"), Substitute(t, '-', "__");
      SubstituteConcat(c', t', '.', "_");
      SubstituteConcat(Substitute(c', '.', "_"), Substitute(t', '.', "_"), '&', "");
    }
  }

  lemma ReplacementsOfOne(c: char)
    ensures Substitute(Substitute(Substitute([c], '-', "__"), '.', "_"), '&', "") == Image(c)
  {
    if c == '-' {
      var two := "__";
      assert two[1..] == "_" && two[1..][1..] == "";
      assert Substitute("-", '-', two) == two;
      SubstituteFirst(two, 2, '.', "_");
      SubstituteFirst(two, 2, '&', "");
    } else if c == '.' {
      assert Substitute(".", '.', "_") == "_";
    }
  }

  ghost predicate NoPair(s: string, a: char, b: char) {
    forall i: nat :: !PairAt(s, a, b, i)
  }

  /** The first pair is the one after a part without any, if that part cannot begin one. */
  lemma {:induction false} IndexAfter(s: string, t: string, a: char, b: char)
    requires NoPair(s, a, b) && (t == "" || t[0] != b || s == "")
    ensures IndexOf(s + t, a, b) == |s| + IndexOf(t, a, b)
  {
    if s == "" {
      assert s + t == t;
    } else {
      assert !PairAt(s, a, b, 0) && !PairAt(s + t, a, b, 0);
      forall i: nat ensures !PairAt(s[1..], a, b, i) {
        assert !PairAt(s, a, b, i + 1);
      }
      IndexAfter(s[1..], t, a, b);
      assert (s + t)[1..] == s[1..] + t;
    }
  }

  lemma IndexOfNone(s: string, a: char, b: char)
    requires NoPair(s, a, b)
    ensures IndexOf(s, a, b) == |s|
  {
    IndexAfter(s, "", a, b);
    assert s + "" == s;
  }

  /** A part without ".<" stays in front of what follows. */
  lemma UnhiddenAfter(a: string, t: string)
    requires NoPair(a, '.', '<') && t != "" && t[0] == '.'
    ensures Unhidden(a + t) == a + Unhidden(t)
  {
    hide IndexOf, Unhidden, NoPair, HiddenFrom, HiddenTo;
    HiddenAfter(a, t);
    var i := HiddenFrom(t);
    var j := HiddenTo(t, i);
    UnhiddenUnfold(a + t);
    UnhiddenUnfold(t);
    if i < |t| && j < |t| {
      Slices(a, t, i, j + 1);
      Regroup(a, t[..i], Unhidden(t[j + 1..]));
    }
  }

  lemma HiddenAfter(a: string, t: string)
    requires NoPair(a, '.', '<') && t != "" && t[0] == '.'
    ensures HiddenFrom(a + t) == |a| + HiddenFrom(t)
    ensures HiddenTo(a + t, |a| + HiddenFrom(t)) == |a| + HiddenTo(t, HiddenFrom(t))
  {
    hide IndexOf, NoPair;
    IndexAfter(a, t, '.', '<');
    Slices(a, t, HiddenFrom(t), HiddenFrom(t));
  }

  lemma Slices(a: string, t: string, i: nat, j: nat)
    requires i <= |t| && j <= |t|
    ensures (a + t)[..|a| + i] == a + t[..i] && (a + t)[|a| + j..] == t[j..]
  {
  }

  /** A hidden part, from ".<" to ">", is left out. */
  lemma UnhiddenPart(x: string, b: string)
    requires NoPair(x, '>', '.')
    ensures Unhidden(".<" + x + ">." + b) == Unhidden("." + b)
  {
    hide IndexOf, Unhidden, PairAt;
    var s := ".<" + x + ">." + b;
    HiddenHere(x, b);
    UnhiddenUnfold(s);
    assert s[|x| + 3..] == "." + b;
    assert s[..0] + Unhidden("." + b) == Unhidden("." + b);
  }

  lemma HiddenHere(x: string, b: string)
    requires NoPair(x, '>', '.')
    ensures var s := ".<" + x + ">." + b; HiddenFrom(s) == 0 && HiddenTo(s, 0) == |x| + 2
  {
    hide IndexOf;
    var s, y, t := ".<" + x + ">." + b, ".<" + x, ">." + b;
    assert s == y + t && s[0..] == s;
    forall i: nat ensures !PairAt(y, '>', '.', i) {
      assert i >= 2 ==> !PairAt(x, '>', '.', i - 2);
    }
    IndexAfter(y, t, '>', '.');
    IndexAtOnce(t, '>', '.');
    IndexAtOnce(s, '.', '<');
  }

  lemma IndexAtOnce(s: string, a: char, b: char)
    requires PairAt(s, a, b, 0)
    ensures IndexOf(s, a, b) == 0
  {
  }

  lemma RootedConcat(a: string, t: string)
    requires t != "" && t[0] != '@' && NoPair(a, '.', '<')
    ensures Rooted(a + t) == Rooted(a) + t && NoPair(Rooted(a), '.', '<')
  {
    hide NoPair;
    if a != "" && a[0] == '@' {
      assert (a + t)[1..] == a[1..] + t;
      Regroup("_root_", a[1..], t);
      RootHasNoPair(a);
    } else {
      assert a == "" ==> a + t == t;
    }
  }

  lemma RootHasNoPair(a: string)
    requires a != "" && NoPair(a, '.', '<')
    ensures NoPair("_root_" + a[1..], '.', '<')
  {
    var r := "_root_" + a[1..];
    forall i: nat ensures !PairAt(r, '.', '<', i) {
      assert i >= 6 ==> !PairAt(a, '.', '<', i - 5);
    }
  }

  /** Without a hidden part: the root spelled out, and every character replaced as it is for itself. */
  lemma AsnCharacters(s: string)
    requires NoPair(Rooted(s), '.', '<')
    ensures AsnName(s) == Images(Rooted(s))
    ensures s != "" && s[0] == '@' ==> AsnName(s) == "_root_" + Images(s[1..])
  {
    hide Substitute, Unhidden, IndexOf, Images;
    var r := Rooted(s);
    IndexOfNone(r, '.', '<');
    UnhiddenUnfold(r);
    ReplacementsAre(r);
    if s != "" && s[0] == '@' {
      ImagesConcat("_root_", s[1..]);
      PlainImages("_root_");
    }
  }

  lemma {:induction false} ImagesConcat(a: string, b: string)
    ensures Images(a + b) == Images(a) + Images(b)
  {
    hide Image, Images;
    ImagesUnfold(a);
    if a == "" {
      assert a + b == b;
    } else {
      ImagesConcat(a[1..], b);
      assert (a + b)[1..] == a[1..] + b;
      ImagesUnfold(a + b);
      Regroup(Image(a[0]), Images(a[1..]), Images(b));
    }
  }

  lemma ImagesUnfold(s: string)
    ensures Images(s) == if s == "" then "" else Image(s[0]) + Images(s[1..])
  {
  }

  lemma {:induction false} PlainImages(s: string)
    requires '-' !in s && '.' !in s && '&' !in s
    ensures Images(s) == s
  {
    if s != "" {
      assert s[0] in s;
      PlainImages(s[1..]);
      assert s == [s[0]] + s[1..];
    }
  }

  /** A hidden part makes no difference to the C++ name. */
  lemma AsnHiddenPart(a: string, x: string, b: string)
    requires NoPair(a, '.', '<') && NoPair(x, '>', '.')
    ensures AsnName(a + (".<" + x + ">." + b)) == AsnName(a + ("." + b))
  {
    hide Substitute, Unhidden, NoPair, PairAt;
    var t, u := ".<" + x + ">." + b, "." + b;
    RootedConcat(a, t);
    RootedConcat(a, u);
    UnhiddenAfter(Rooted(a), t);
    UnhiddenAfter(Rooted(a), u);
    UnhiddenPart(x, b);
  }
}
