/**
  What the JSON reader of common/JSON_Tokenizer.cc reads without an error: exactly the texts in which the tokens
  are well-formed and every value and every end is followed by a comma, a bracket or the end of the text; and how
  far it gets in any other text.
*/
module JsonText {
  import opened Options
  import opened JsonNumber
  import opened JsonTokenizer

  /** Blanks, tabs and the ends of lines and pages */
  predicate White(s: string) {
    forall i :: 0 <= i < |s| ==> s[i] in {' ', '\t', '\r', '\n', '\U{0C}'}
  }

  /** What may stand between a token and the text after it. */
  predicate Closes(k: Kind, post: string, next: string) {
    if k in {OBJECT_START, ARRAY_START, NAME} then post == ""
    else
      || (White(post) && (next == "" || next[0] in {'{', '}', '[', ']'} || (next[0] == ':' && k != STRING)))
      || (post != "" && post[|post| - 1] == ',' && White(post[..|post| - 1]))
  }

  /** `s` begins with the token, and `next` is what comes after it and its separator. */
  ghost predicate BeginsAs(s: string, t: Token, lead: string, mid: string, post: string, next: string) {
    && WellFormed(t) && White(lead) && White(mid) && Closes(t.kind, post, next)
    && s == lead + (Lexeme(t, mid) + (post + next))
  }

  ghost predicate Begins(s: string, t: Token, next: string) {
    exists lead: string, mid: string, post: string :: BeginsAs(s, t, lead, mid, post, next)
  }

  /** A text of these tokens. */
  ghost predicate IsText(s: string, tokens: seq<Token>)
    decreases |tokens|
  {
    if tokens == [] then White(s)
    else exists next: string :: Begins(s, tokens[0], next) && IsText(next, tokens[1..])
  }

  /** No token begins there. */
  ghost predicate IsStuck(s: string) {
    !White(s) && forall t: Token, next: string :: !Begins(s, t, next)
  }

  /** A text of these tokens, after which no other begins. */
  ghost predicate StopsAfter(s: string, tokens: seq<Token>)
    decreases |tokens|
  {
    if tokens == [] then IsStuck(s)
    else exists next: string :: Begins(s, tokens[0], next) && StopsAfter(next, tokens[1..])
  }

  lemma WhiteIsSpace(s: string)
    ensures White(s) <==> AllSpace(s)
  {
  }

  // ---------------------------------------------------------------- what a text is read as

  lemma FollowsAt(k: Kind, rest: string, b: nat)
    requires NeedsSeparator(k) && Blank(rest) == b
    requires b == |rest| || rest[b] in {',', '{', '}', '[', ']'} || (rest[b] == ':' && k != STRING)
    requires rest == "" || !IsNumberChar(rest[0])
    ensures MayFollow(k, rest) && Consumed(k, rest) == b + if b < |rest| && rest[b] == ',' then 1 else 0
  {
    hide Blank;
    var after := rest[b..];
    assert after == "" || after[0] == rest[b];
  }

  lemma ClosedFollows(k: Kind, post: string, next: string)
    requires Closes(k, post, next) && NeedsSeparator(k)
    ensures MayFollow(k, post + next) && Consumed(k, post + next) == |post|
  {
    hide Blank, MayFollow, Consumed;
    var rest := post + next;
    if White(post) && (next == "" || next[0] in {'{', '}', '[', ']'} || (next[0] == ':' && k != STRING)) {
      WhiteIsSpace(post);
      BlankPrefix(post, next);
      FollowsAt(k, rest, |post|);
    } else {
      var white, comma := post[..|post| - 1], "," + next;
      WhiteIsSpace(white);
      assert rest == white + comma;
      BlankPrefix(white, comma);
      FollowsAt(k, rest, |white|);
    }
  }

  /** The beginning of a text is read as its first token. */
  lemma ReadsFirst(s: string, t: Token, lead: string, mid: string, post: string, next: string)
    requires BeginsAs(s, t, lead, mid, post, next)
    ensures ReadAll(s) == [t] + ReadAll(next) && t.kind !in {ERROR, NONE}
  {
    hide Lexeme, WellFormed, Blank, ReadAll, AfterValue;
    IsWritten(t);
    WhiteIsSpace(lead);
    WhiteIsSpace(mid);
    var rest := post + next;
    if NeedsSeparator(t.kind) {
      ClosedFollows(t.kind, post, next);
    } else {
      assert post + next == next;
    }
    assert rest[|post|..] == next;
    ReadOneToken(lead, t, mid, rest, next);
  }

  lemma IsWritten(t: Token)
    requires WellFormed(t)
    ensures t.kind !in {ERROR, NONE}
  {
  }

  // ---------------------------------------------------------------- what is read is a text

  /** Where a string body stops, a well-formed one ends. */
  lemma {:induction false} BodyBeforeStop(s: string)
    requires StringStop(s) < |s|
    ensures StringBody(s[..StringStop(s)])
    decreases |s|
  {
    var n := StringStop(s);
    if s[0] != '\"' {
      var k := if s[0] == '\\' then 2 else 1;
      BodyBeforeStop(s[k..]);
      assert s[..n][k..] == s[k..][..n - k];
    }
  }

  /** A value that was read is followed by what a value must be followed by. */
  lemma ValueCloses(s: string, m: nat, k: Kind)
    requires m <= |s| && NeedsSeparator(k) && AfterValue(s[m..]).Some?
    requires var b := m + Blank(s[m..]); k == STRING && b < |s| ==> s[b] != ':'
    ensures var n := m + AfterValue(s[m..]).value;
      n <= |s| && Closes(k, s[m..n], s[n..])
  {
    hide Blank;
    var rest := s[m..];
    var b := Blank(rest);
    BlankIsWhite(rest);
    var n := m + AfterValue(rest).value;
    assert rest[b..] == s[m + b..];
    assert s[m..m + b] == rest[..b];
    if m + b < |s| && s[m + b] == ',' {
      assert s[m..n][..|s[m..n]| - 1] == rest[..b];
    }
  }

  lemma {:induction false} BlankIsWhite(s: string)
    ensures White(s[..Blank(s)])
  {
    if s != "" && IsSpace(s[0]) {
      BlankIsWhite(s[1..]);
      var n := Blank(s);
      forall i | 0 <= i < n ensures s[..n][i] in {' ', '\t', '\r', '\n', '\U{0C}'} {
        if i > 0 {
          assert s[..n][i] == s[1..][..n - 1][i - 1];
        }
      }
    }
  }

  /** What `ReadValue` says of a value of `m` characters. */
  lemma ValueRead(s: string, m: nat, token: Token, t: Token, n: nat)
    requires m <= |s| && token.kind != ERROR && ReadValue(s, m, token) == Read(t, n) && t.kind != ERROR
    ensures t == token && AfterValue(s[m..]).Some? && n == m + AfterValue(s[m..]).value
  {
    hide Blank;
  }

  /** The characters of the token, without what was stepped over after it. */
  ghost predicate Lexed(s: string, t: Token, m: nat, mid: string) {
    WellFormed(t) && White(mid) && m <= |s| && s[..m] == Lexeme(t, mid)
  }

  lemma StringLexed(s: string, e: nat)
    requires s != "" && s[0] == '\"' && e == 1 + StringStop(s[1..]) < |s|
    ensures Lexed(s, Token(STRING, s[..e + 1]), e + 1, "")
  {
    hide StringStop;
    BodyBeforeStop(s[1..]);
    assert s[1..][e - 1] == s[e];
    var text := s[..e + 1];
    assert text[1..|text| - 1] == s[1..][..e - 1];
  }

  lemma NameLexed(s: string, e: nat, a: nat)
    requires s != "" && s[0] == '\"' && e == 1 + StringStop(s[1..]) < |s|
    requires a == e + 1 + Blank(s[e + 1..]) < |s| && s[a] == ':'
    ensures Lexed(s, Token(NAME, s[1..e]), a + 1, s[e + 1..a])
  {
    hide StringStop, Blank;
    BodyBeforeStop(s[1..]);
    BlankIsWhite(s[e + 1..]);
    assert s[1..][e - 1] == s[e];
    assert s[1..][..e - 1] == s[1..e];
    assert s[e + 1..][..a - e - 1] == s[e + 1..a];
    assert s[..a + 1] == "\"" + s[1..e] + "\"" + s[e + 1..a] + ":";
  }

  /** Every token that is read without an error is there, and what was stepped over after it. */
  lemma TokenLexed(s: string) returns (m: nat, mid: string)
    requires s != "" && ReadToken(s).token.kind != ERROR
    ensures var r := ReadToken(s);
      Lexed(s, r.token, m, mid) && m <= r.n <= |s| &&
      if r.token.kind in {OBJECT_START, ARRAY_START, NAME} then r.n == m
      else AfterValue(s[m..]).Some? && r.n == m + AfterValue(s[m..]).value && NoColon(r.token.kind, s, m)
  {
    hide ReadString, ReadNumber, ReadLiteral, AfterValue, WellFormed, Lexeme;
    var r := ReadToken(s);
    m, mid := 1, "";
    if s[0] in {'{', '['} {
      BracketLexed(s, r.token);
    } else if s[0] in {'}', ']'} {
      var t := Token(if s[0] == '}' then OBJECT_END else ARRAY_END, "");
      ValueRead(s, 1, t, r.token, r.n);
      BracketLexed(s, t);
    } else if s[0] == '\"' {
      m, mid := StringTokenLexed(s);
    } else if IsDigit(s[0]) || s[0] == '-' {
      m := NumberLexed(s);
    } else {
      m := LiteralLexed(s);
    }
  }

  /** After white space no colon follows a string. */
  predicate NoColon(k: Kind, s: string, m: nat)
    requires m <= |s|
  {
    var b := m + Blank(s[m..]);
    k == STRING && b < |s| ==> s[b] != ':'
  }

  lemma BracketLexed(s: string, t: Token)
    requires s != "" && t.text == ""
    requires (s[0] == '{' && t.kind == OBJECT_START) || (s[0] == '[' && t.kind == ARRAY_START) ||
             (s[0] == '}' && t.kind == OBJECT_END) || (s[0] == ']' && t.kind == ARRAY_END)
    ensures Lexed(s, t, 1, "")
  {
  }

  lemma StringTokenLexed(s: string) returns (m: nat, mid: string)
    requires s != "" && s[0] == '\"' && ReadString(s).token.kind != ERROR
    ensures var r := ReadString(s);
      Lexed(s, r.token, m, mid) && m <= r.n <= |s| && r.token.kind in {NAME, STRING} &&
      if r.token.kind == NAME then r.n == m
      else AfterValue(s[m..]).Some? && r.n == m + AfterValue(s[m..]).value && NoColon(STRING, s, m)
  {
    hide StringStop, Blank, AfterValue, Lexed;
    var r := ReadString(s);
    var e := 1 + StringStop(s[1..]);
    var a := e + 1 + Blank(s[e + 1..]);
    if a < |s| && s[a] == ':' {
      NameLexed(s, e, a);
      m, mid := a + 1, s[e + 1..a];
    } else {
      StringLexed(s, e);
      ValueRead(s, e + 1, Token(STRING, s[..e + 1]), r.token, r.n);
      m, mid := e + 1, "";
    }
  }

  lemma NumberLexed(s: string) returns (m: nat)
    requires s != "" && ReadNumber(s).token.kind != ERROR
    ensures var r := ReadNumber(s);
      Lexed(s, r.token, m, "") && m <= r.n <= |s| && r.token.kind == NUMBER && AfterValue(s[m..]).Some? &&
      r.n == m + AfterValue(s[m..]).value
  {
    hide RunLength, NumberStop, Accepts, AfterValue, IsNumber;
    m := RunLength(s);
    AcceptsExactlyNumbers(s[..m]);
    ValueRead(s, m, Token(NUMBER, s[..m]), ReadNumber(s).token, ReadNumber(s).n);
  }

  lemma LiteralLexed(s: string) returns (m: nat)
    requires s != "" && ReadLiteral(s).token.kind != ERROR
    ensures var r := ReadLiteral(s);
      Lexed(s, r.token, m, "") && m <= r.n <= |s| && r.token.kind in {LITERAL_TRUE, LITERAL_FALSE, LITERAL_NULL} &&
      AfterValue(s[m..]).Some? && r.n == m + AfterValue(s[m..]).value
  {
    hide AfterValue;
    var r := ReadLiteral(s);
    var kind := if IsLiteral(s, "true") then LITERAL_TRUE else if IsLiteral(s, "false") then LITERAL_FALSE else LITERAL_NULL;
    var t := Token(kind, "");
    m := if t.kind == LITERAL_FALSE then 5 else 4;
    ValueRead(s, m, t, r.token, r.n);
  }

  lemma Assemble(s: string, b: nat, t: Token, m: nat, mid: string, n: nat)
    requires b <= |s| && White(s[..b]) && Lexed(s[b..], t, m, mid) && m <= n <= |s| - b
    requires Closes(t.kind, s[b..][m..n], s[b + n..])
    ensures BeginsAs(s, t, s[..b], mid, s[b..][m..n], s[b + n..])
  {
    hide Closes, WellFormed, Lexeme, White;
    var u := s[b..];
    assert u[n..] == s[b + n..];
    assert u == u[..m] + (u[m..n] + u[n..]);
    assert s == s[..b] + u;
  }

  lemma FirstIsThere(s: string, t: Token, next: string)
    requires Next(s).token == t && t.kind !in {ERROR, NONE} && next == s[Next(s).n..]
    ensures Begins(s, t, next)
  {
    hide Blank, ReadToken, AfterValue, Lexeme, WellFormed, Closes, Lexed, BeginsAs, White;
    var b := Blank(s);
    var u := s[b..];
    var m, mid := TokenLexed(u);
    var n := ReadToken(u).n;
    BlankIsWhite(s);
    assert u[n..] == next;
    if t.kind !in {OBJECT_START, ARRAY_START, NAME} {
      ValueCloses(u, m, t.kind);
    } else {
      NothingCloses(t.kind, u[m..n], next);
    }
    Assemble(s, b, t, m, mid, n);
  }

  lemma NothingCloses(k: Kind, post: string, next: string)
    requires k in {OBJECT_START, ARRAY_START, NAME} && post == ""
    ensures Closes(k, post, next)
  {
  }

  // ---------------------------------------------------------------- exactly the texts

  /** The last of the tokens that are read says whether there was an error. */
  lemma {:induction false} ReadAllEnds(s: string)
    ensures var r := ReadAll(s);
      r != [] && r[|r| - 1] in {Token(NONE, ""), FAILED} && forall i :: 0 <= i < |r| - 1 ==> r[i].kind !in {ERROR, NONE}
    decreases |s|
  {
    hide ReadToken, Blank;
    NextEnds(s);
    var r := Next(s);
    if r.token.kind !in {ERROR, NONE} {
      ReadAllEnds(s[r.n..]);
    }
  }

  lemma NextEnds(s: string)
    ensures Next(s).token.kind == ERROR ==> Next(s).token == FAILED
    ensures Next(s).token.kind == NONE ==> Next(s).token == Token(NONE, "") && White(s)
  {
    hide StringStop, RunLength, NumberStop, Accepts, AfterValue;
    BlankIsWhite(s);
    assert s[..|s|] == s;
  }

  /**
   Tokens are read from a text without an error if and only if it is a text of these tokens, and before an error
   if and only if it is one up to a place where no token begins.
   */
  lemma {:induction false} ReadsExactly(s: string, tokens: seq<Token>)
    ensures ReadAll(s) == tokens + [Token(NONE, "")] <==> IsText(s, tokens)
    ensures ReadAll(s) == tokens + [FAILED] <==> StopsAfter(s, tokens)
    decreases |tokens|
  {
    hide Next, ReadAll, Begins, IsStuck;
    if tokens == [] {
      ReadsNothing(s);
    } else {
      var t := tokens[0];
      Cons(tokens, Token(NONE, ""));
      Cons(tokens, FAILED);
      forall next: string | Begins(s, t, next)
        ensures ReadAll(s) == [t] + ReadAll(next)
        ensures ReadAll(next) == tokens[1..] + [Token(NONE, "")] <==> IsText(next, tokens[1..])
        ensures ReadAll(next) == tokens[1..] + [FAILED] <==> StopsAfter(next, tokens[1..])
      {
        BeginsIsRead(s, t, next);
        ReadsExactly(next, tokens[1..]);
      }
      if |ReadAll(s)| > 1 && ReadAll(s)[0] == t {
        var next := ReadsOne(s);
        PrefixEqual([t], ReadAll(next), tokens[1..] + [Token(NONE, "")]);
        PrefixEqual([t], ReadAll(next), tokens[1..] + [FAILED]);
      }
    }
  }

  lemma PrefixEqual(a: seq<Token>, b: seq<Token>, c: seq<Token>)
    ensures a + b == a + c <==> b == c
  {
    if a + b == a + c {
      assert b == (a + b)[|a|..] && c == (a + c)[|a|..];
    }
  }

  lemma BeginsIsRead(s: string, t: Token, next: string)
    requires Begins(s, t, next)
    ensures ReadAll(s) == [t] + ReadAll(next) && t.kind !in {ERROR, NONE}
  {
    hide BeginsAs, ReadAll;
    var lead: string, mid: string, post: string :| BeginsAs(s, t, lead, mid, post, next);
    ReadsFirst(s, t, lead, mid, post, next);
  }

  lemma ReadsNothing(s: string)
    ensures ReadAll(s) == [] + [Token(NONE, "")] <==> White(s)
    ensures ReadAll(s) == [] + [FAILED] <==> IsStuck(s)
  {
    hide Next, Begins;
    WhiteIsSpace(s);
    NextEnds(s);
    var r := Next(s);
    var none, failed := [] + [Token(NONE, "")], [] + [FAILED];
    assert none[0].kind == NONE && failed[0].kind == ERROR;
    if White(s) {
      ReadSpace(s);
    } else if r.token.kind !in {ERROR, NONE} {
      ReadAllEnds(s[r.n..]);
      FirstIsThere(s, r.token, s[r.n..]);
      assert |ReadAll(s)| >= 2;
    } else {
      assert ReadAll(s) == [FAILED];
      forall t: Token, next: string ensures !Begins(s, t, next) {
        if Begins(s, t, next) {
          BeginsIsRead(s, t, next);
          assert false;
        }
      }
    }
  }

  lemma ReadsOne(s: string) returns (next: string)
    requires |ReadAll(s)| > 1
    ensures Begins(s, ReadAll(s)[0], next) && ReadAll(s) == [ReadAll(s)[0]] + ReadAll(next)
  {
    hide Next, Begins;
    var r := Next(s);
    next := s[r.n..];
    FirstIsThere(s, r.token, next);
  }
}
