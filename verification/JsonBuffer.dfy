/** `JSON_Tokenizer` itself: a buffer that is written at its end and read at a position. */
module JsonBuffer {
  import opened Options
  import opened JsonNumber
  import opened JsonTokenizer
  import JsonDocument
  import JsonText

  /** The five flags of `check_for_number` and the phase of the automaton that they encode. */
  datatype Flags = Flags(firstDigit: bool, zero: bool, decimalPoint: bool, exponentMark: bool, exponentSign: bool) {
    predicate Consistent() {
      (exponentMark && zero ==> firstDigit) && (exponentSign ==> exponentMark)
    }

    predicate IsFloat() {
      decimalPoint || exponentMark
    }

    function Phase(): Phase {
      if exponentMark then (if firstDigit then Power else if exponentSign then Sign else Mark)
      else if decimalPoint then (if firstDigit || zero then Fraction else Point)
      else if firstDigit then Integer
      else if zero then Zero
      else Start
    }
  }

  lemma TailOfTail(s: string, i: nat, j: nat)
    requires i + j <= |s|
    ensures s[i..][j..] == s[i + j..]
  {
  }

  lemma SliceOfTail(s: string, i: nat, j: nat, k: nat)
    requires i + j <= i + k <= |s|
    ensures s[i..][j..k] == s[i + j..i + k]
  {
  }

  /** How a string of `e` characters, quotes included, is read. */
  lemma StringRead(s: string, e: nat)
    requires s != "" && s[0] == '\"' && e == StringStop(s[1..]) + 2 <= |s|
    ensures var b := e + Blank(s[e..]);
      var after := Separator(s[b..]);
      ReadString(s) ==
      if b < |s| && s[b] == ':' then Read(Token(NAME, s[1..e - 1]), b + 1)
      else if after.Some? then Read(Token(STRING, s[0..e]), b + after.value)
      else Read(FAILED, b)
  {
    hide StringStop, Blank, Separator;
    TailOfTail(s, e, Blank(s[e..]));
    assert s[..e] == s[0..e];
  }

  /** How a string from `start` to `end` of the buffer, quotes included, is read. */
  lemma AfterQuotes(buf: string, start: nat, end: nat)
    requires start < |buf| && buf[start] == '\"' && end == start + StringStop(buf[start..][1..]) + 2 <= |buf|
    ensures var b := end + Blank(buf[end..]);
      var after := Separator(buf[b..]);
      ReadString(buf[start..]) ==
      if b < |buf| && buf[b] == ':' then Read(Token(NAME, buf[start + 1..end - 1]), b + 1 - start)
      else if after.Some? then Read(Token(STRING, buf[start..end]), b + after.value - start)
      else Read(FAILED, b - start)
  {
    hide ReadString, StringStop, Blank, Separator;
    var e := end - start;
    var b := Blank(buf[end..]);
    StringRead(buf[start..], e);
    TailOfTail(buf, start, e);
    TailOfTail(buf, start, e + b);
    SliceOfTail(buf, start, 0, e);
    SliceOfTail(buf, start, 1, e - 1);
  }

  class Tokenizer {
    var buf: string
    var pos: nat
    var depth: nat
    var previous: Kind
    var pretty: bool

    function State(): Writer
      reads this
    {
      Writer(buf, depth, previous, pretty)
    }

    /** What is still to be read; an escape cut off by the end of the buffer leaves the position beyond it. */
    function Remaining(): string
      reads this
    {
      if pos <= |buf| then buf[pos..] else ""
    }

    /** An empty buffer, to be written. */
    constructor ForWriting(pretty: bool)
      ensures State() == EmptyWriter(pretty) && pos == 0
    {
      buf, pos, depth, previous, this.pretty := "", 0, 0, NONE, pretty;
    }

    /** A given buffer, to be read. */
    constructor ForReading(buf: string)
      ensures State() == Writer(buf, 0, NONE, false) && pos == 0
    {
      this.buf, pos, depth, previous, pretty := buf, 0, 0, NONE, false;
    }

    // -------------------------------------------------------------- writing

    method PutC(c: char)
      modifies this`buf
      ensures State() == old(State()).Put([c])
    {
      buf := buf + [c];
    }

    method PutS(s: string)
      modifies this`buf
      ensures State() == old(State()).Put(s)
    {
      buf := buf + s;
    }

    method PutDepth()
      modifies this`buf
      ensures State() == old(State()).Put(Tabs(depth))
    {
      var tabs := seq(MAX_TABS, _ => '\t');
      PutS(tabs[if depth > MAX_TABS then 0 else MAX_TABS - depth..]);
      assert tabs[if depth > MAX_TABS then 0 else MAX_TABS - depth..] == Tabs(depth);
    }

    method PutSeparator()
      modifies this`buf
      ensures State() == old(State()).PutSeparator()
    {
      if previous != NAME && previous != NONE && previous != ARRAY_START && previous != OBJECT_START {
        PutC(',');
        if pretty {
          PutC('\n');
          PutDepth();
          assert buf == old(buf) + (",\n" + Tabs(depth));
        }
      }
    }

    method PutStart(c: char)
      modifies this`buf, this`depth
      ensures State() == old(State()).PutStart(c)
    {
      PutSeparator();
      PutC(c);
      if pretty {
        ghost var before := buf;
        PutC('\n');
        depth := (depth + 1) % DEPTHS;
        PutDepth();
        assert buf == before + ("\n" + Tabs(depth));
      }
    }

    method PutEnd(c: char)
      requires State().Valid()
      modifies this`buf, this`depth
      ensures State() == old(State()).PutEnd(c)
    {
      if pretty {
        if previous != OBJECT_START && previous != ARRAY_START {
          PutC('\n');
          depth := (depth - 1) % DEPTHS;
          PutDepth();
          assert buf == old(buf) + ("\n" + Tabs(depth));
        } else if MAX_TABS >= depth {
          depth := (depth - 1) % DEPTHS;
          buf := buf[..|buf| - 1];
        }
      }
      PutC(c);
    }

    /** `put_next_token`; returns the number of characters added. */
    method PutNextToken(kind: Kind, text: string) returns (n: int)
      requires State().Valid()
      modifies this`buf, this`depth, this`previous
      ensures State() == old(State()).PutToken(Token(kind, text)) && State().Valid()
      ensures n == |buf| - |old(buf)|
    {
      var startLen := |buf|;
      ghost var w := State();
      w.PutStaysValid(Token(kind, text));
      match kind {
        case OBJECT_START => PutStart('{');
        case ARRAY_START => PutStart('[');
        case OBJECT_END => PutEnd('}');
        case ARRAY_END => PutEnd(']');
        case NUMBER => PutSeparator(); PutS(text);
        case STRING => PutSeparator(); PutS(text);
        case LITERAL_TRUE => PutSeparator(); PutS("true");
        case LITERAL_FALSE => PutSeparator(); PutS("false");
        case LITERAL_NULL => PutSeparator(); PutS("null");
        case NAME =>
          PutSeparator();
          ghost var before := buf;
          PutC('\"');
          PutS(text);
          PutS(if pretty then "\" : " else "\":");
          assert buf == before + ("\"" + text + (if pretty then "\" : " else "\":"));
        case ERROR => return 0;
        case NONE => return 0;
      }
      previous := kind;
      n := |buf| - startLen;
    }

    // -------------------------------------------------------------- reading

    method SkipWhiteSpaces() returns (more: bool)
      modifies this`pos
      ensures pos == old(pos) + Blank(old(Remaining())) && (more <==> pos < |buf|)
    {
      while pos < |buf|
        invariant old(pos) <= pos && (pos <= |buf| || pos == old(pos))
        invariant pos + Blank(Remaining()) == old(pos) + Blank(old(Remaining()))
      {
        if !IsSpace(buf[pos]) {
          return true;
        }
        assert buf[pos..][1..] == buf[pos + 1..];
        pos := pos + 1;
      }
      return false;
    }

    method CheckForString() returns (ok: bool)
      requires pos < |buf|
      modifies this`pos
      ensures buf[old(pos)] != '\"' ==> !ok && pos == old(pos)
      ensures buf[old(pos)] == '\"' ==> pos == old(pos) + 1 + StringStop(buf[old(pos) + 1..]) && (ok <==> pos < |buf|)
    {
      hide StringStop;
      if '\"' == buf[pos] {
        pos := pos + 1;
      } else {
        return false;
      }
      ghost var stop := pos + StringStop(buf[pos..]);
      while pos < |buf|
        invariant pos <= |buf| ==> pos + StringStop(buf[pos..]) == stop
        invariant pos > |buf| ==> pos == stop
      {
        StringStopStep(buf, pos);
        if '\"' == buf[pos] {
          return true;
        }
        if '\\' == buf[pos] {
          pos := pos + 1;
        }
        pos := pos + 1;
      }
      if pos == |buf| {
        StringStopStep(buf, pos);
      }
      return false;
    }

    method CheckForSeparator() returns (ok: bool)
      requires pos <= |buf|
      modifies this`pos
      ensures ok <==> Separator(old(Remaining())).Some?
      ensures pos == old(pos) + if ok then Separator(old(Remaining())).value else 0
    {
      if pos < |buf| {
        match buf[pos] {
          case ',' => pos := pos + 1; return true;
          case ':' => return true;
          case '{' => return true;
          case '}' => return true;
          case '[' => return true;
          case ']' => return true;
          case _ => return false;
        }
      }
      return true;
    }

    /**
      `check_for_number`: succeeds exactly when the whole run of number characters at the position is a
      number, stops at the end of the run, and tells whether the number has a fraction or an exponent.
    */
    method CheckForNumber() returns (ok: bool, isFloat: bool)
      requires pos <= |buf|
      modifies this`pos
      ensures var s := old(Remaining());
              var run := s[..RunLength(s)];
              && (ok <==> IsNumber(run))
              && (ok ==> pos == old(pos) + |run| && (isFloat <==> HasFractionOrExponent(run)))
              && (!ok ==> pos == old(pos) + |s| - |Unsigned(s)| + NumberStop(Start, Unsigned(s)))
    {
      ghost var s := Remaining();
      if pos < |buf| && '-' == buf[pos] {
        pos := pos + 1;
      }
      assert Remaining() == Unsigned(s);
      RunOfSigned(s);
      SignIsNoFloatMark(s);
      FloatExactly(s[..RunLength(s)]);
      var n;
      ok, isFloat, n := ScanRun(Remaining());
      pos := pos + n;
    }

    /** White space, and then a separator or the end of the buffer: what must follow a value. */
    method SkipToSeparator() returns (ok: bool)
      requires pos <= |buf|
      modifies this`pos
      ensures ok <==> AfterValue(old(Remaining())).Some?
      ensures pos == old(pos) + if ok then AfterValue(old(Remaining())).value else Blank(old(Remaining()))
    {
      hide Blank;
      ghost var s := Remaining();
      var more := SkipWhiteSpaces();
      assert s[Blank(s)..] == Remaining();
      ok := true;
      if more {
        ok := CheckForSeparator();
      }
    }

    method CheckForLiteral(literal: string) returns (ok: bool)
      requires pos <= |buf|
      modifies this`pos
      ensures ok <==> IsLiteral(old(Remaining()), literal)
      ensures pos == old(pos) + if ok then |literal| + AfterValue(old(Remaining())[|literal|..]).value else 0
    {
      hide Blank, AfterValue;
      ghost var s := Remaining();
      ok := false;
      if |buf| - pos >= |literal| && buf[pos..pos + |literal|] == literal {
        assert literal <= s && buf[pos + |literal|..] == s[|literal|..];
        var startPos := pos;
        pos := pos + |literal|;
        ok := SkipToSeparator();
        if !ok {
          pos := startPos;
        }
      }
    }

    /** A value of known extent, up to the position, that must be followed by a separator. */
    method FinishValue(token: Token, ghost s: string, ghost m: nat) returns (t: Token)
      requires pos <= |buf| && m <= |s| && s[m..] == Remaining()
      modifies this`pos
      ensures t == ReadValue(s, m, token).token && pos == old(pos) + ReadValue(s, m, token).n - m
    {
      var ok := SkipToSeparator();
      t := if ok then token else FAILED;
    }

    method GetString(ghost s: string) returns (t: Token)
      requires pos < |buf| && s == buf[pos..] && s[0] == '\"'
      modifies this`pos
      ensures t == ReadString(s).token && pos == old(pos) + ReadString(s).n
    {
      hide StringStop, Blank, AfterValue;
      var startPos := pos;
      TailOfTail(buf, pos, 1);
      var ok := CheckForString();
      if !ok {
        return FAILED;
      }
      pos := pos + 1;
      t := FinishString(startPos, s);
    }

    /** What follows the closing quotes of `s` tells whether it is a name or a value. */
    method FinishString(startPos: nat, ghost s: string) returns (t: Token)
      requires startPos < |buf| && s == buf[startPos..] && s[0] == '\"'
      requires pos == startPos + StringStop(s[1..]) + 2 <= |buf|
      modifies this`pos
      ensures t == ReadString(s).token && pos == startPos + ReadString(s).n
    {
      hide ReadString, StringStop, Blank, Separator;
      var endPos := pos;
      AfterQuotes(buf, startPos, endPos);
      var more := SkipWhiteSpaces();
      if more && ':' == buf[pos] {
        t := Token(NAME, buf[startPos + 1..endPos - 1]);
        pos := pos + 1;
      } else {
        var ok := CheckForSeparator();
        t := if ok then Token(STRING, buf[startPos..endPos]) else FAILED;
      }
    }

    method GetNumber(ghost s: string) returns (t: Token)
      requires pos < |buf| && s == buf[pos..]
      modifies this`pos
      ensures t == ReadNumber(s).token && pos == old(pos) + ReadNumber(s).n
    {
      hide RunLength, NumberStop, Accepts, Blank, AfterValue;
      var startPos := pos;
      ghost var n := RunLength(s);
      AcceptsExactlyNumbers(s[..n]);
      var ok, _ := CheckForNumber();
      if !ok {
        return FAILED;
      }
      assert buf[startPos..pos] == s[..n] && buf[pos..] == s[n..];
      t := FinishValue(Token(NUMBER, buf[startPos..pos]), s, n);
    }

    method GetLiteral(ghost s: string) returns (t: Token)
      requires pos < |buf| && s == buf[pos..]
      modifies this`pos
      ensures t == ReadLiteral(s).token && pos == old(pos) + ReadLiteral(s).n
    {
      hide Blank, AfterValue;
      var ok := CheckForLiteral("true");
      if ok {
        return Token(LITERAL_TRUE, "");
      }
      ok := CheckForLiteral("false");
      if ok {
        return Token(LITERAL_FALSE, "");
      }
      ok := CheckForLiteral("null");
      if ok {
        return Token(LITERAL_NULL, "");
      }
      return FAILED;
    }

    /** `get_next_token`; `n` is the number of characters extracted. */
    method GetNextToken() returns (token: Token, n: nat)
      modifies this`pos
      ensures Read(token, n) == Next(old(Remaining())) && pos == old(pos) + n
    {
      hide Blank, ReadString, ReadNumber, ReadLiteral, ReadValue;
      var startPos := pos;
      ghost var rem := Remaining();
      token := Token(NONE, "");
      var more := SkipWhiteSpaces();
      if more {
        ghost var s := buf[pos..];
        assert s == rem[Blank(rem)..];
        var c := buf[pos];
        if c == '{' || c == '[' {
          token := Token(if '{' == c then OBJECT_START else ARRAY_START, "");
          pos := pos + 1;
        } else if c == '}' || c == ']' {
          assert s[1..] == buf[pos + 1..];
          pos := pos + 1;
          token := FinishValue(Token(if '}' == c then OBJECT_END else ARRAY_END, ""), s, 1);
        } else if c == '\"' {
          token := GetString(s);
        } else if ('0' <= c && '9' >= c) || '-' == c {
          token := GetNumber(s);
        } else {
          token := GetLiteral(s);
        }
      }
      n := pos - startPos;
    }
  }

  /** The loop of `check_for_number`; `n` is how far it moves the position. */
  method ScanRun(u: string) returns (ok: bool, isFloat: bool, n: nat)
    ensures ok <==> RunAccepted(Start, u)
    ensures ok ==> n == RunLength(u) && (isFloat <==> HasFloatMark(u[..RunLength(u)]))
    ensures !ok ==> n == NumberStop(Start, u)
  {
    hide Scanned, RunLength, NumberStop, Accepts;
    n := 0;
    var f := Flags(false, false, false, false, false);
    ScanStarts(u);
    while n < |u| && IsNumberChar(u[n])
      invariant n <= |u| && f.Consistent() && Scanned(u, u[..n], u[n..], f)
    {
      var next := UpdateFlags(f, u[n]);
      if next.None? {
        ScanRejects(u, u[..n], u[n..], f);
        return false, false, n;
      }
      ScanStep(u, u[..n], u[n..], f, next.value);
      assert u[..n] + [u[n..][0]] == u[..n + 1] && u[n..][1..] == u[n + 1..];
      f, n := next.value, n + 1;
    }
    ScanEnds(u, u[..n], u[n..], f);
    return f.firstDigit || f.zero, f.decimalPoint || f.exponentMark, n;
  }

  /** The switch in the loop of `check_for_number`: rejects a character, or updates the flags. */
  method UpdateFlags(f: Flags, c: char) returns (next: Option<Flags>)
    requires f.Consistent() && IsNumberChar(c)
    ensures next.Some? <==> Step(f.Phase(), c).Some?
    ensures next.Some? ==> next.value.Consistent() && Step(f.Phase(), c) == Some(next.value.Phase())
    ensures next.Some? ==> (next.value.IsFloat() <==> f.IsFloat() || c in {'.', 'e', 'E'})
  {
    if c == '.' {
      if f.decimalPoint || f.exponentMark || (!f.firstDigit && !f.zero) {
        return None;
      }
      return Some(f.(decimalPoint := true, firstDigit := false, zero := false));
    } else if c == 'e' || c == 'E' {
      if f.exponentMark || (!f.firstDigit && !f.zero) {
        return None;
      }
      return Some(f.(exponentMark := true, firstDigit := false, zero := false));
    } else if c == '0' {
      if !f.firstDigit && (f.exponentMark || (!f.decimalPoint && f.zero)) {
        return None;
      }
      return Some(f.(zero := true));
    } else if '1' <= c <= '9' {
      if !f.firstDigit && f.zero && (!f.decimalPoint || f.exponentMark) {
        return None;
      }
      return Some(f.(firstDigit := true));
    } else {
      if f.exponentSign || !f.exponentMark || f.zero || f.firstDigit {
        return None;
      }
      return Some(f.(exponentSign := true));
    }
  }

  /** `done` of the unsigned text `u` has been scanned and has led to the flags `f`; `rest` is to come. */
  ghost predicate Scanned(u: string, done: string, rest: string, f: Flags) {
    && u == done + rest && |done| + RunLength(rest) == RunLength(u)
    && (RunAccepted(f.Phase(), rest) <==> RunAccepted(Start, u))
    && |done| + NumberStop(f.Phase(), rest) == NumberStop(Start, u)
    && (f.IsFloat() <==> HasFloatMark(done))
  }

  lemma ScanStep(u: string, done: string, rest: string, f: Flags, next: Flags)
    requires Scanned(u, done, rest, f) && rest != "" && IsNumberChar(rest[0])
    requires Step(f.Phase(), rest[0]) == Some(next.Phase())
    requires next.IsFloat() <==> f.IsFloat() || rest[0] in {'.', 'e', 'E'}
    ensures Scanned(u, done + [rest[0]], rest[1..], next)
  {
    RunStep(f.Phase(), rest);
    FloatMarkSnoc(done, rest[0]);
    assert rest == [rest[0]] + rest[1..];
  }

  lemma ScanStarts(u: string)
    ensures Scanned(u, u[..0], u[0..], Flags(false, false, false, false, false))
  {
    assert u[0..] == u;
  }

  lemma ScanRejects(u: string, done: string, rest: string, f: Flags)
    requires Scanned(u, done, rest, f) && rest != "" && IsNumberChar(rest[0]) && Step(f.Phase(), rest[0]).None?
    ensures !RunAccepted(Start, u) && NumberStop(Start, u) == |done|
  {
    RunStep(f.Phase(), rest);
  }

  lemma ScanEnds(u: string, done: string, rest: string, f: Flags)
    requires Scanned(u, done, rest, f) && (rest == "" || !IsNumberChar(rest[0]))
    ensures Final(f.Phase()) <==> RunAccepted(Start, u)
    ensures NumberStop(Start, u) == |done| && u[..RunLength(u)] == done
    ensures f.IsFloat() <==> HasFloatMark(done)
  {
    RunStep(f.Phase(), rest);
  }

  lemma StringStopStep(buf: string, pos: nat)
    requires pos <= |buf|
    ensures var n := StringStop(buf[pos..]);
            if pos == |buf| || buf[pos] == '\"' then n == 0
            else if buf[pos] != '\\' then n == 1 + StringStop(buf[pos + 1..])
            else if pos + 1 == |buf| then n == 2
            else n == 2 + StringStop(buf[pos + 2..])
  {
    var s := buf[pos..];
    if s != "" {
      assert s[1..] == buf[pos + 1..] && (|s| > 1 ==> s[2..] == buf[pos + 2..]);
    }
  }

  predicate HasFloatMark(s: string) {
    exists i :: 0 <= i < |s| && s[i] in {'.', 'e', 'E'}
  }

  /** Among numbers, the marks tell those with a fraction or an exponent. */
  lemma FloatExactly(s: string)
    ensures IsNumber(s) ==> (HasFloatMark(s) <==> HasFractionOrExponent(s))
  {
    hide IsNumberSplit;
    if a: nat, b: nat, c: nat :| IsNumberSplit(s, a, b, c) {
      FractionOrExponent(s, a, b, c);
    }
    if a: nat, b: nat, c: nat :| IsNumberSplit(s, a, b, c) && b < |s| {
      FractionOrExponent(s, a, b, c);
    }
  }

  lemma FloatMarkSnoc(s: string, c: char)
    ensures HasFloatMark(s + [c]) <==> HasFloatMark(s) || c in {'.', 'e', 'E'}
  {
    if HasFloatMark(s) {
      var i :| 0 <= i < |s| && s[i] in {'.', 'e', 'E'};
      assert (s + [c])[i] == s[i];
    }
    assert (s + [c])[|s|] == c;
  }

  /** The automaton, in phase `q`, accepts the run of number characters at the beginning of `s`. */
  predicate RunAccepted(q: Phase, s: string) {
    Accepts(q, s[..RunLength(s)])
  }

  lemma RunStep(q: Phase, s: string)
    ensures s == "" || !IsNumberChar(s[0]) ==> RunLength(s) == 0 && (RunAccepted(q, s) <==> Final(q))
    ensures s != "" && IsNumberChar(s[0]) ==>
              && RunLength(s) == 1 + RunLength(s[1..])
              && (RunAccepted(q, s) <==> Step(q, s[0]).Some? && RunAccepted(Step(q, s[0]).value, s[1..]))
  {
    if s != "" && IsNumberChar(s[0]) {
      assert s[..RunLength(s)][1..] == s[1..][..RunLength(s[1..])];
    }
  }

  lemma RunOfSigned(s: string)
    ensures RunLength(s) == |s| - |Unsigned(s)| + RunLength(Unsigned(s))
    ensures RunAccepted(Start, Unsigned(s)) <==> IsNumber(s[..RunLength(s)])
  {
    var run, u := s[..RunLength(s)], Unsigned(s);
    assert Unsigned(run) == u[..RunLength(u)];
    AcceptsExactlyNumbers(run);
  }

  lemma SignIsNoFloatMark(s: string)
    ensures var u := Unsigned(s);
            HasFloatMark(s[..RunLength(s)]) <==> HasFloatMark(u[..RunLength(u)])
  {
    RunOfSigned(s);
    var u := Unsigned(s);
    var k, run, run' := |s| - |u|, s[..RunLength(s)], u[..RunLength(u)];
    forall i | 0 <= i < |run'| ensures run[i + k] == run'[i] {
    }
    forall i | k <= i < |run| ensures run[i] == run'[i - k] {
    }
  }

  // ---------------------------------------------------------------- there and back

  /** Tokens put into a new buffer: the document of those that are written */
  method WriteTokens(pretty: bool, tokens: seq<Token>) returns (buf: string)
    ensures buf == PutAll(EmptyWriter(pretty), tokens).buf
    ensures buf == JsonDocument.Document(pretty, Canonical(tokens)) + JsonDocument.Trailing(pretty, Canonical(tokens))
  {
    hide Writer.PutToken, JsonDocument.Document, JsonDocument.Trailing, JsonDocument.Depth, Canonical;
    JsonDocument.WritesDocumentOfCalls(pretty, tokens);
    var tokenizer := new Tokenizer.ForWriting(pretty);
    assert tokens[..0] == [];
    for i := 0 to |tokens|
      invariant fresh(tokenizer) && tokenizer.State() == PutAll(EmptyWriter(pretty), tokens[..i])
    {
      assert tokens[..i + 1][..i] == tokens[..i];
      var _ := tokenizer.PutNextToken(tokens[i].kind, tokens[i].text);
    }
    assert tokens[..|tokens|] == tokens;
    buf := tokenizer.buf;
  }

  /** Tokens read from a buffer up to its end or an error: those of which it is a text, or one up to there */
  method ReadTokens(buf: string) returns (tokens: seq<Token>)
    ensures tokens == ReadAll(buf) && tokens != []
    ensures var init, last := tokens[..|tokens| - 1], tokens[|tokens| - 1];
      (last == Token(NONE, "") && JsonText.IsText(buf, init)) || (last == FAILED && JsonText.StopsAfter(buf, init))
  {
    hide Next, ReadAll, JsonText.IsText, JsonText.StopsAfter;
    ReadIsText(buf);
    var tokenizer := new Tokenizer.ForReading(buf);
    tokens := [];
    assert buf[0..] == buf && [] + ReadAll(buf) == ReadAll(buf);
    while true
      invariant fresh(tokenizer) && tokenizer.buf == buf && tokenizer.pos <= |buf|
      invariant tokens + ReadAll(buf[tokenizer.pos..]) == ReadAll(buf)
      decreases |buf| - tokenizer.pos
    {
      ReadAllStep(tokens, buf, tokenizer.pos);
      var token, n := tokenizer.GetNextToken();
      tokens := tokens + [token];
      if token.kind == ERROR || token.kind == NONE {
        return;
      }
    }
  }

  lemma ReadIsText(s: string)
    ensures var tokens := ReadAll(s);
      tokens != [] &&
      var init, last := tokens[..|tokens| - 1], tokens[|tokens| - 1];
      (last == Token(NONE, "") && JsonText.IsText(s, init)) || (last == FAILED && JsonText.StopsAfter(s, init))
  {
    hide Next, ReadAll, JsonText.IsText, JsonText.StopsAfter;
    var tokens := ReadAll(s);
    JsonText.ReadAllEnds(s);
    var init, last := tokens[..|tokens| - 1], tokens[|tokens| - 1];
    assert tokens == init + [last];
    JsonText.ReadsExactly(s, init);
  }

  lemma ReadAllStep(done: seq<Token>, buf: string, pos: nat)
    requires pos <= |buf|
    ensures var r := Next(buf[pos..]);
      done + ReadAll(buf[pos..]) ==
      if r.token.kind in {ERROR, NONE} then done + [r.token] else (done + [r.token]) + ReadAll(buf[pos + r.n..])
  {
    hide Next;
    var r := Next(buf[pos..]);
    if r.token.kind !in {ERROR, NONE} {
      TailOfTail(buf, pos, r.n);
    }
  }

  /** Whatever is put by any calls of `put_next_token` is what the calls of `get_next_token` deliver. */
  method ThereAndBack(pretty: bool, tokens: seq<Token>) returns (read: seq<Token>)
    requires forall t :: t in tokens && HasText(t.kind) ==> WellFormed(t)
    ensures read == Canonical(tokens) + [Token(NONE, "")]
    ensures (forall t :: t in tokens ==> WellFormed(t)) ==> read == tokens + [Token(NONE, "")]
  {
    hide PutAll, ReadAll, Canonical, WellFormed;
    RoundTripOfCalls(pretty, tokens);
    if forall t :: t in tokens ==> WellFormed(t) {
      RoundTrip(pretty, tokens);
    }
    var buf := WriteTokens(pretty, tokens);
    read := ReadTokens(buf);
  }
}
