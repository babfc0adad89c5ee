/**
  The JSON reader and writer of common/JSON_Tokenizer.cc on texts: what reading and writing one token means,
  and that whatever is written can be read back.
*/
module JsonTokenizer {
  import opened Options
  import opened JsonNumber

  datatype Kind =
    | ERROR | NONE
    | OBJECT_START | OBJECT_END | ARRAY_START | ARRAY_END
    | NAME | NUMBER | STRING
    | LITERAL_TRUE | LITERAL_FALSE | LITERAL_NULL

  /** `text` is the token data of names (without quotes), numbers and strings (with quotes), otherwise empty. */
  datatype Token = Token(kind: Kind, text: string)

  predicate IsStart(k: Kind) {
    k == OBJECT_START || k == ARRAY_START
  }

  predicate IsEnd(k: Kind) {
    k == OBJECT_END || k == ARRAY_END
  }

  predicate HasText(k: Kind) {
    k in {NAME, NUMBER, STRING}
  }

  // ---------------------------------------------------------------- reading, on texts

  predicate IsSpace(c: char) {
    c in {' ', '\r', '\n', '\t', '\U{0C}'}
  }

  /** Number of white spaces at the beginning of `s`. */
  function Blank(s: string): (n: nat)
    ensures n <= |s| && (n < |s| ==> !IsSpace(s[n]))
  {
    if s == "" || !IsSpace(s[0]) then 0 else 1 + Blank(s[1..])
  }

  /** The separator that a value needs after it: how much of it is stepped over, if it is there. */
  function Separator(s: string): (n: Option<nat>)
    ensures n.Some? ==> n.value <= |s|
  {
    if s == "" then Some(0)
    else if s[0] == ',' then Some(1)
    else if s[0] in {':', '{', '}', '[', ']'} then Some(0)
    else None
  }

  /** How far reading goes after a value. */
  function AfterValue(s: string): (n: Option<nat>)
    ensures n.Some? ==> n.value <= |s|
  {
    var n := Separator(s[Blank(s)..]);
    if n.Some? then Some(Blank(s) + n.value) else None
  }

  /** Where the string body `s` ends: at its closing quotes, or not before its end. */
  function StringStop(s: string): (n: nat)
    ensures n < |s| ==> s[n] == '\"'
    ensures n <= |s| + 1
  {
    if s == "" || s[0] == '\"' then 0
    else if s[0] != '\\' then 1 + StringStop(s[1..])
    else if |s| == 1 then 2
    else 2 + StringStop(s[2..])
  }

  /** Length of the run of number characters at the beginning of `s`. */
  function RunLength(s: string): (n: nat)
    ensures n <= |s|
    ensures forall i :: 0 <= i < n ==> IsNumberChar(s[i])
    ensures n < |s| ==> !IsNumberChar(s[n])
  {
    if s == "" || !IsNumberChar(s[0]) then 0 else 1 + RunLength(s[1..])
  }

  /** How far the automaton gets in `s`. */
  function NumberStop(q: Phase, s: string): (n: nat)
    ensures n <= |s|
    decreases |s|
  {
    if s == "" || Step(q, s[0]).None? then 0 else 1 + NumberStop(Step(q, s[0]).value, s[1..])
  }

  /** What `get_next_token` delivers, and the number of characters it consumes. */
  datatype Read = Read(token: Token, n: nat)

  const FAILED := Token(ERROR, "")

  /** A value of `m` characters must be followed by a separator. */
  function ReadValue(s: string, m: nat, token: Token): (r: Read)
    requires m <= |s|
    ensures m <= r.n <= |s|
  {
    var after := AfterValue(s[m..]);
    if after.Some? then Read(token, m + after.value) else Read(FAILED, m + Blank(s[m..]))
  }

  function ReadString(s: string): (r: Read)
    requires s != "" && s[0] == '\"'
    ensures 0 < r.n && (r.token.kind != ERROR ==> r.n <= |s|)
  {
    var e := 1 + StringStop(s[1..]);
    if e >= |s| then Read(FAILED, e)
    else
      var after := e + 1 + Blank(s[e + 1..]);
      if after < |s| && s[after] == ':' then Read(Token(NAME, s[1..e]), after + 1)
      else ReadValue(s, e + 1, Token(STRING, s[..e + 1]))
  }

  function ReadNumber(s: string): (r: Read)
    ensures r.n <= |s| && (r.token.kind != ERROR ==> 0 < r.n)
  {
    var n := RunLength(s);
    if Accepts(Start, Unsigned(s[..n])) then ReadValue(s, n, Token(NUMBER, s[..n]))
    else Read(FAILED, |s| - |Unsigned(s)| + NumberStop(Start, Unsigned(s)))
  }

  predicate IsLiteral(s: string, literal: string) {
    literal <= s && AfterValue(s[|literal|..]).Some?
  }

  function ReadLiteral(s: string): (r: Read)
    ensures r.n <= |s| && (r.token.kind != ERROR ==> 0 < r.n)
  {
    if IsLiteral(s, "true") then ReadValue(s, 4, Token(LITERAL_TRUE, ""))
    else if IsLiteral(s, "false") then ReadValue(s, 5, Token(LITERAL_FALSE, ""))
    else if IsLiteral(s, "null") then ReadValue(s, 4, Token(LITERAL_NULL, ""))
    else Read(FAILED, 0)
  }

  /** Reading a token at its first character. */
  function ReadToken(s: string): (r: Read)
    requires s != ""
    ensures r.token.kind != ERROR ==> 0 < r.n <= |s|
  {
    if s[0] == '{' then Read(Token(OBJECT_START, ""), 1)
    else if s[0] == '[' then Read(Token(ARRAY_START, ""), 1)
    else if s[0] == '}' then ReadValue(s, 1, Token(OBJECT_END, ""))
    else if s[0] == ']' then ReadValue(s, 1, Token(ARRAY_END, ""))
    else if s[0] == '\"' then ReadString(s)
    else if IsDigit(s[0]) || s[0] == '-' then ReadNumber(s)
    else ReadLiteral(s)
  }

  /** Reading the next token of the remaining text `s`. */
  function Next(s: string): (r: Read)
    ensures r.token.kind != ERROR ==> r.n <= |s|
    ensures r.token.kind !in {ERROR, NONE} ==> 0 < r.n
  {
    var b := Blank(s);
    if b == |s| then Read(Token(NONE, ""), b)
    else
      var r := ReadToken(s[b..]);
      Read(r.token, b + r.n)
  }

  /** All tokens of a text; the last one says that the text has ended, or that reading failed. */
  function ReadAll(s: string): (tokens: seq<Token>)
    decreases |s|
  {
    var r := Next(s);
    if r.token.kind in {ERROR, NONE} then [r.token] else [r.token] + ReadAll(s[r.n..])
  }

  // ---------------------------------------------------------------- writing, on texts

  const MAX_TABS := 80
  const DEPTHS := 0x1_0000_0000 // depth is a 32-bit unsigned integer

  function Tabs(depth: nat): string {
    seq(if depth > MAX_TABS then MAX_TABS else depth, _ => '\t')
  }

  datatype Writer = Writer(buf: string, depth: nat, previous: Kind, pretty: bool) {
    /** What `put_next_token` keeps: a start token is followed by white space in a pretty-printed buffer. */
    predicate Valid() {
      depth < DEPTHS && (pretty && IsStart(previous) ==> buf != "" && IsSpace(buf[|buf| - 1]))
    }

    function Put(s: string): Writer {
      this.(buf := buf + s)
    }

    function PutSeparator(): Writer {
      if previous in {NAME, NONE, ARRAY_START, OBJECT_START} then this
      else if pretty then Put(",\n" + Tabs(depth))
      else Put(",")
    }

    function PutStart(c: char): Writer {
      var w := PutSeparator().Put([c]);
      if !pretty then w
      else
        var d := (w.depth + 1) % DEPTHS;
        w.(depth := d).Put("\n" + Tabs(d))
    }

    function PutEnd(c: char): Writer
      requires Valid()
    {
      if !pretty then Put([c])
      else if !IsStart(previous) then
        var d := (depth - 1) % DEPTHS;
        this.(depth := d).Put("\n" + Tabs(d)).Put([c])
      else if MAX_TABS >= depth then
        // an empty object or array: the white space put last is removed
        this.(depth := (depth - 1) % DEPTHS, buf := buf[..|buf| - 1]).Put([c])
      else Put([c])
    }

    function PutToken(t: Token): Writer
      requires Valid()
    {
      match t.kind
      case OBJECT_START => PutStart('{').(previous := t.kind)
      case ARRAY_START => PutStart('[').(previous := t.kind)
      case OBJECT_END => PutEnd('}').(previous := t.kind)
      case ARRAY_END => PutEnd(']').(previous := t.kind)
      case NUMBER => PutSeparator().Put(t.text).(previous := t.kind)
      case STRING => PutSeparator().Put(t.text).(previous := t.kind)
      case LITERAL_TRUE => PutSeparator().Put("true").(previous := t.kind)
      case LITERAL_FALSE => PutSeparator().Put("false").(previous := t.kind)
      case LITERAL_NULL => PutSeparator().Put("null").(previous := t.kind)
      case NAME => PutSeparator().Put("\"" + t.text + (if pretty then "\" : " else "\":")).(previous := t.kind)
      case ERROR => this
      case NONE => this
    }

    lemma PutStaysValid(t: Token)
      requires Valid()
      ensures PutToken(t).Valid() && PutToken(t).pretty == pretty
    {
      if t.kind == OBJECT_START {
        PutStartStaysValid('{');
      } else if t.kind == ARRAY_START {
        PutStartStaysValid('[');
      }
    }

    lemma PutStartStaysValid(c: char)
      requires Valid()
      ensures PutStart(c).depth < DEPTHS && PutStart(c).pretty == pretty
      ensures pretty ==> PutStart(c).buf != "" && IsSpace(PutStart(c).buf[|PutStart(c).buf| - 1])
    {
      if pretty {
        var w := PutSeparator().Put([c]);
        var space := "\n" + Tabs((w.depth + 1) % DEPTHS);
        assert IsSpace(space[|space| - 1]) && PutStart(c).buf == w.buf + space;
      }
    }
  }

  /** All tokens put, one after the other. */
  function PutAll(w: Writer, tokens: seq<Token>): (w': Writer)
    requires w.Valid()
    ensures w'.Valid() && w'.pretty == w.pretty
  {
    if tokens == [] then w
    else
      var before := PutAll(w, tokens[..|tokens| - 1]);
      before.PutStaysValid(tokens[|tokens| - 1]);
      before.PutToken(tokens[|tokens| - 1])
  }

  function EmptyWriter(pretty: bool): Writer {
    Writer("", 0, NONE, pretty)
  }

  // ---------------------------------------------------------------- well-formed token data

  /** A string body in which no quotes are bare and no escape is unfinished. */
  predicate StringBody(s: string) {
    s == "" || (s[0] != '\"' && if s[0] == '\\' then |s| >= 2 && StringBody(s[2..]) else StringBody(s[1..]))
  }

  ghost predicate WellFormed(t: Token) {
    match t.kind
    case NAME => StringBody(t.text)
    case STRING =>
      && |t.text| >= 2 && t.text[0] == t.text[|t.text| - 1] == '\"'
      && StringBody(t.text[1..|t.text| - 1])
    case NUMBER => IsNumber(t.text)
    case ERROR => false
    case NONE => false
    case _ => t.text == ""
  }

  // ---------------------------------------------------------------- layout: what every written text looks like

  predicate AllSpace(s: string) {
    forall i :: 0 <= i < |s| ==> IsSpace(s[i])
  }

  /** The white space before a token, and between a name and its colon. */
  datatype Gap = Gap(lead: string, mid: string)

  predicate Spaces(gaps: seq<Gap>) {
    forall i :: 0 <= i < |gaps| ==> AllSpace(gaps[i].lead) && AllSpace(gaps[i].mid)
  }

  function Lexeme(t: Token, mid: string): string {
    match t.kind
    case OBJECT_START => "{"
    case OBJECT_END => "}"
    case ARRAY_START => "["
    case ARRAY_END => "]"
    case NAME => "\"" + t.text + "\"" + mid + ":"
    case NUMBER => t.text
    case STRING => t.text
    case LITERAL_TRUE => "true"
    case LITERAL_FALSE => "false"
    case LITERAL_NULL => "null"
    case ERROR => ""
    case NONE => ""
  }

  predicate NeedsSeparator(k: Kind) {
    k !in {NAME, NONE, ARRAY_START, OBJECT_START}
  }

  function Comma(previous: Kind, k: Kind): string {
    if NeedsSeparator(previous) && !IsEnd(k) then "," else ""
  }

  function Item(previous: Kind, t: Token, g: Gap): string {
    Comma(previous, t.kind) + g.lead + Lexeme(t, g.mid)
  }

  function Layout(previous: Kind, tokens: seq<Token>, gaps: seq<Gap>): string
    requires |tokens| == |gaps|
    decreases |tokens|
  {
    if tokens == [] then "" else Item(previous, tokens[0], gaps[0]) + Layout(tokens[0].kind, tokens[1..], gaps[1..])
  }

  function LastKind(previous: Kind, tokens: seq<Token>): Kind {
    if tokens == [] then previous else tokens[|tokens| - 1].kind
  }

  lemma {:induction false} LayoutSnoc(previous: Kind, tokens: seq<Token>, gaps: seq<Gap>, t: Token, g: Gap)
    requires |tokens| == |gaps|
    ensures Layout(previous, tokens + [t], gaps + [g]) ==
            Layout(previous, tokens, gaps) + Item(LastKind(previous, tokens), t, g)
    decreases |tokens|
  {
    if tokens == [] {
      assert Layout(t.kind, [], []) == "";
    } else {
      LayoutSnoc(tokens[0].kind, tokens[1..], gaps[1..], t, g);
      TailOfSnoc(tokens, t);
      TailOfSnoc(gaps, g);
      Assoc(Item(previous, tokens[0], gaps[0]), Layout(tokens[0].kind, tokens[1..], gaps[1..]), Item(LastKind(previous, tokens), t, g));
    }
  }

  lemma TailOfSnoc<T>(s: seq<T>, t: T)
    requires s != []
    ensures (s + [t])[1..] == s[1..] + [t] && (s + [t])[0] == s[0]
  {
  }

  lemma Assoc<T>(a: seq<T>, b: seq<T>, c: seq<T>)
    ensures a + b + c == a + (b + c)
  {
  }

  /** The buffer is a layout of the tokens put so far, followed by white space `tail`. */
  ghost predicate Written(w: Writer, tokens: seq<Token>, gaps: seq<Gap>, tail: string) {
    && |gaps| == |tokens| && Spaces(gaps) && AllSpace(tail)
    && w.Valid() && w.buf == Layout(NONE, tokens, gaps) + tail && w.previous == LastKind(NONE, tokens)
    && (NeedsSeparator(w.previous) ==> tail == "")
    && (w.pretty && IsStart(w.previous) ==> tail != "")
  }

  lemma TabsAreSpace(depth: nat)
    ensures AllSpace(Tabs(depth))
  {
  }

  /** The new white space that `PutSeparator` puts after the comma. */
  function Indent(w: Writer): string {
    if NeedsSeparator(w.previous) && w.pretty then "\n" + Tabs(w.depth) else ""
  }

  lemma PutSeparatorText(w: Writer, layout: string, tail: string, k: Kind)
    requires w.buf == layout + tail && !IsEnd(k) && (NeedsSeparator(w.previous) ==> tail == "")
    ensures w.PutSeparator().buf == layout + Comma(w.previous, k) + (tail + Indent(w))
  {
    if NeedsSeparator(w.previous) {
      var comma := if w.pretty then ",\n" + Tabs(w.depth) else ",";
      assert comma == "," + Indent(w);
      assert layout + comma == layout + "," + (tail + Indent(w));
    }
  }

  /** The white space put after a token. */
  function Trail(w: Writer, k: Kind): string {
    if !w.pretty then "" else if IsStart(k) then "\n" + Tabs((w.depth + 1) % DEPTHS) else if k == NAME then " " else ""
  }

  function Mid(w: Writer, k: Kind): string {
    if w.pretty && k == NAME then " " else ""
  }

  lemma PutName(w: Writer, t: Token)
    requires w.Valid() && t.kind == NAME
    ensures w.PutToken(t).buf == w.PutSeparator().buf + (Lexeme(t, Mid(w, t.kind)) + Trail(w, t.kind))
    ensures w.PutToken(t).previous == t.kind
  {
    hide Writer.PutSeparator;
    var text, closing := "\"" + t.text, if w.pretty then "\" : " else "\":";
    SeparatorKeeps(w);
    assert closing == "\"" + Mid(w, NAME) + ":" + Trail(w, NAME);
    assert text + closing == Lexeme(t, Mid(w, NAME)) + Trail(w, NAME);
  }

  lemma SeparatorKeeps(w: Writer)
    ensures w.PutSeparator().depth == w.depth && w.PutSeparator().pretty == w.pretty
  {
  }

  lemma PutAfterSeparator(w: Writer, t: Token)
    requires w.Valid() && !IsEnd(t.kind) && t.kind !in {ERROR, NONE}
    ensures w.PutToken(t).buf == w.PutSeparator().buf + (Lexeme(t, Mid(w, t.kind)) + Trail(w, t.kind))
    ensures w.PutToken(t).previous == t.kind
  {
    hide Writer.PutSeparator;
    SeparatorKeeps(w);
    if t.kind == NAME {
      PutName(w, t);
    }
  }

  lemma WrittenNext(w: Writer, tokens: seq<Token>, gaps: seq<Gap>, t: Token, g: Gap, tail: string)
    requires |gaps| == |tokens| && Spaces(gaps) && AllSpace(g.lead) && AllSpace(g.mid) && AllSpace(tail)
    requires w.Valid() && w.previous == t.kind
    requires w.buf == Layout(NONE, tokens, gaps) + Item(LastKind(NONE, tokens), t, g) + tail
    requires NeedsSeparator(t.kind) ==> tail == ""
    requires w.pretty && IsStart(t.kind) ==> tail != ""
    ensures Written(w, tokens + [t], gaps + [g], tail)
  {
    LayoutSnoc(NONE, tokens, gaps, t, g);
  }

  lemma PutOther(w: Writer, tokens: seq<Token>, gaps: seq<Gap>, tail: string, t: Token) returns (g: Gap)
    requires Written(w, tokens, gaps, tail) && !IsEnd(t.kind) && t.kind !in {ERROR, NONE}
    ensures Written(w.PutToken(t), tokens + [t], gaps + [g], Trail(w, t.kind))
  {
    hide Writer.PutToken, Writer.PutSeparator, Lexeme, Layout;
    var lead := tail + Indent(w);
    g := Gap(lead, Mid(w, t.kind));
    TabsAreSpace(w.depth);
    TabsAreSpace((w.depth + 1) % DEPTHS);
    PutSeparatorText(w, Layout(NONE, tokens, gaps), tail, t.kind);
    w.PutStaysValid(t);
    PutAfterSeparator(w, t);
    Regroup(Layout(NONE, tokens, gaps), Comma(w.previous, t.kind), lead, Lexeme(t, g.mid), Trail(w, t.kind));
    WrittenNext(w.PutToken(t), tokens, gaps, t, g, Trail(w, t.kind));
  }

  lemma Regroup(a: string, b: string, c: string, d: string, e: string)
    ensures a + b + c + (d + e) == a + (b + c + d) + e
  {
  }

  /** The white space before an end token, which may replace what the previous token left behind. */
  function EndLead(w: Writer, tail: string): string
    requires w.pretty && IsStart(w.previous) ==> tail != ""
  {
    if !w.pretty then tail
    else if !IsStart(w.previous) then tail + ("\n" + Tabs((w.depth - 1) % DEPTHS))
    else if MAX_TABS >= w.depth then tail[..|tail| - 1]
    else tail
  }

  lemma PutEndText(w: Writer, layout: string, tail: string, t: Token)
    requires w.Valid() && IsEnd(t.kind) && w.buf == layout + tail
    requires w.pretty && IsStart(w.previous) ==> tail != ""
    ensures w.PutToken(t).buf == layout + EndLead(w, tail) + Lexeme(t, "") && w.PutToken(t).previous == t.kind
  {
  }

  lemma PutEnd(w: Writer, tokens: seq<Token>, gaps: seq<Gap>, tail: string, t: Token) returns (g: Gap)
    requires Written(w, tokens, gaps, tail) && IsEnd(t.kind)
    ensures Written(w.PutToken(t), tokens + [t], gaps + [g], "")
  {
    hide Writer.PutToken, Layout;
    TabsAreSpace((w.depth - 1) % DEPTHS);
    g := Gap(EndLead(w, tail), "");
    w.PutStaysValid(t);
    PutEndText(w, Layout(NONE, tokens, gaps), tail, t);
    assert Item(w.previous, t, g) == g.lead + Lexeme(t, "");
    WrittenNext(w.PutToken(t), tokens, gaps, t, g, "");
  }

  /** Whatever tokens are put, in whatever order, the buffer is a layout of them. */
  lemma {:induction false} WritingGivesLayout(pretty: bool, tokens: seq<Token>) returns (gaps: seq<Gap>, tail: string)
    requires forall t :: t in tokens ==> t.kind !in {ERROR, NONE}
    ensures Written(PutAll(EmptyWriter(pretty), tokens), tokens, gaps, tail)
    decreases |tokens|
  {
    gaps, tail := [], "";
    if tokens != [] {
      var init, t := tokens[..|tokens| - 1], tokens[|tokens| - 1];
      gaps, tail := WritingGivesLayout(pretty, init);
      assert tokens == init + [t];
      var w, g := PutAll(EmptyWriter(pretty), init), Gap("", "");
      if IsEnd(t.kind) {
        g := PutEnd(w, init, gaps, tail, t);
        tail := "";
      } else {
        g := PutOther(w, init, gaps, tail, t);
        tail := Trail(w, t.kind);
      }
      gaps := gaps + [g];
    }
  }

  // ---------------------------------------------------------------- reading a layout back

  lemma {:induction false} BlankPrefix(lead: string, s: string)
    requires AllSpace(lead) && (s == "" || !IsSpace(s[0]))
    ensures Blank(lead + s) == |lead|
  {
    if lead == "" {
      assert lead + s == s;
    } else {
      BlankPrefix(lead[1..], s);
      assert (lead + s)[1..] == lead[1..] + s;
    }
  }

  lemma {:induction false} BodyStop(body: string, s: string)
    requires StringBody(body)
    ensures StringStop(body + "\"" + s) == |body|
    decreases |body|
  {
    var text := body + "\"" + s;
    if body != "" {
      var k := if body[0] == '\\' then 2 else 1;
      BodyStop(body[k..], s);
      assert text[k..] == body[k..] + "\"" + s;
    }
  }

  lemma {:induction false} RunOfNumber(number: string, s: string)
    requires (forall i :: 0 <= i < |number| ==> IsNumberChar(number[i])) && (s == "" || !IsNumberChar(s[0]))
    ensures RunLength(number + s) == |number|
  {
    if number == "" {
      assert number + s == s;
    } else {
      RunOfNumber(number[1..], s);
      assert (number + s)[1..] == number[1..] + s;
    }
  }

  lemma NumberChars(s: string)
    requires IsNumber(s)
    ensures s != "" && (IsDigit(s[0]) || s[0] == '-')
    ensures forall i :: 0 <= i < |s| ==> IsNumberChar(s[i])
  {
    var a: nat, b: nat, c: nat :| IsNumberSplit(s, a, b, c);
    assert s[a..b][0] == s[a];
    assert a == 0 || s[..a] == "-";
    forall i | 0 <= i < |s| ensures IsNumberChar(s[i]) {
      if i < a {
        assert s[..a][i] == s[i];
      } else if i < b {
        assert s[a..b][i - a] == s[i];
      } else if i < c {
        assert s[b..c][i - b] == s[i];
        assert i == b || s[b..c][1..][i - b - 1] == s[i];
      } else {
        ExponentChars(s[c..], i - c);
      }
    }
  }

  lemma ExponentChars(s: string, i: nat)
    requires ExponentPart(s) && i < |s|
    ensures IsNumberChar(s[i])
  {
    assert i == 0 || s[1..][i - 1] == s[i];
    assert i <= 1 || s[1..][1..][i - 2] == s[i];
  }

  /** What may follow a value: after white space a separator, but no colon after a string. */
  ghost predicate MayFollow(k: Kind, s: string) {
    && AfterValue(s).Some? && (s != "" ==> !IsNumberChar(s[0]))
    && (k == STRING && Blank(s) < |s| ==> s[Blank(s)] != ':')
  }

  /** How much is consumed after a token. */
  function Consumed(k: Kind, rest: string): nat {
    if NeedsSeparator(k) && AfterValue(rest).Some? then AfterValue(rest).value else 0
  }

  lemma LexemeStart(t: Token, mid: string)
    requires WellFormed(t)
    ensures Lexeme(t, mid) != "" && !IsSpace(Lexeme(t, mid)[0])
  {
    if t.kind == NUMBER {
      NumberChars(t.text);
    }
  }

  lemma ReadNameAt(s: string, n: nat, m: nat)
    requires s != "" && s[0] == '\"' && StringStop(s[1..]) == n && n + 1 < |s|
    requires Blank(s[n + 2..]) == m && n + 2 + m < |s| && s[n + 2 + m] == ':'
    ensures ReadToken(s) == Read(Token(NAME, s[1..n + 1]), n + m + 3)
  {
  }

  lemma ReadNameBack(text: string, mid: string, rest: string)
    requires StringBody(text) && AllSpace(mid)
    ensures ReadToken("\"" + text + "\"" + mid + ":" + rest) == Read(Token(NAME, text), |text| + |mid| + 3)
  {
    hide ReadToken, StringStop, Blank;
    var s, after := "\"" + text + "\"" + mid + ":" + rest, ":" + rest;
    RegroupName("\"", text, mid, ":", rest);
    BodyStop(text, mid + after);
    BlankPrefix(mid, after);
    NameText(s, text, mid + after);
    assert (mid + after)[|mid|] == ':';
    ReadNameAt(s, |text|, |mid|);
  }

  lemma RegroupName(quote: string, text: string, mid: string, colon: string, rest: string)
    ensures quote + text + quote + mid + colon + rest == quote + (text + quote + (mid + (colon + rest)))
  {
  }

  lemma RegroupString(text: string, rest: string)
    requires |text| >= 2
    ensures text + rest == text[..1] + (text[1..|text| - 1] + text[|text| - 1..] + rest)
  {
  }

  lemma NameText(s: string, text: string, after: string)
    requires s == "\"" + (text + "\"" + after)
    ensures s[1..] == text + "\"" + after && s[1..|text| + 1] == text && s[|text| + 2..] == after
  {
  }

  lemma ReadStringAt(s: string, n: nat)
    requires s != "" && s[0] == '\"' && StringStop(s[1..]) == n && n + 1 < |s|
    requires MayFollow(STRING, s[n + 2..])
    ensures ReadToken(s) == Read(Token(STRING, s[..n + 2]), n + 2 + Consumed(STRING, s[n + 2..]))
  {
  }

  lemma ReadStringBack(text: string, rest: string)
    requires WellFormed(Token(STRING, text)) && MayFollow(STRING, rest)
    ensures ReadToken(text + rest) == Read(Token(STRING, text), |text| + Consumed(STRING, rest))
  {
    var body := text[1..|text| - 1];
    BodyStop(body, rest);
    RegroupString(text, rest);
    assert text[..1] == text[|text| - 1..] == "\"";
    NameText(text + rest, body, rest);
    ReadStringAt(text + rest, |body|);
    assert (text + rest)[..|text|] == text;
  }

  lemma ReadNumberAt(s: string, n: nat)
    requires RunLength(s) == n && n > 0 && (IsDigit(s[0]) || s[0] == '-') && IsNumber(s[..n]) && MayFollow(NUMBER, s[n..])
    ensures ReadToken(s) == Read(Token(NUMBER, s[..n]), n + Consumed(NUMBER, s[n..]))
  {
    hide RunLength, NumberStop, Accepts, IsNumber, Blank, StringStop;
    AcceptsExactlyNumbers(s[..n]);
  }

  lemma ReadNumberBack(text: string, rest: string)
    requires IsNumber(text) && MayFollow(NUMBER, rest)
    ensures ReadToken(text + rest) == Read(Token(NUMBER, text), |text| + Consumed(NUMBER, rest))
  {
    NumberChars(text);
    RunOfNumber(text, rest);
    assert (text + rest)[..|text|] == text && (text + rest)[|text|..] == rest;
    ReadNumberAt(text + rest, |text|);
  }

  lemma ReadLiteralBack(t: Token, rest: string)
    requires WellFormed(t) && t.kind in {LITERAL_TRUE, LITERAL_FALSE, LITERAL_NULL} && MayFollow(t.kind, rest)
    ensures ReadToken(Lexeme(t, "") + rest) == Read(t, |Lexeme(t, "")| + Consumed(t.kind, rest))
  {
    var s, n := Lexeme(t, "") + rest, |Lexeme(t, "")|;
    assert s[..n] == Lexeme(t, "") && s[n..] == rest;
  }

  /** A token at the beginning of the text is read as it was written. */
  lemma ReadTokenBack(t: Token, mid: string, rest: string)
    requires WellFormed(t) && AllSpace(mid) && (NeedsSeparator(t.kind) ==> MayFollow(t.kind, rest))
    ensures ReadToken(Lexeme(t, mid) + rest) == Read(t, |Lexeme(t, mid)| + Consumed(t.kind, rest))
  {
    match t.kind
    case NAME => ReadNameBack(t.text, mid, rest);
    case STRING => ReadStringBack(t.text, rest);
    case NUMBER => ReadNumberBack(t.text, rest);
    case OBJECT_END => assert ("}" + rest)[1..] == rest;
    case ARRAY_END => assert ("]" + rest)[1..] == rest;
    case OBJECT_START =>
    case ARRAY_START =>
    case _ => ReadLiteralBack(t, rest);
  }

  lemma NextBack(lead: string, t: Token, mid: string, rest: string)
    requires WellFormed(t) && AllSpace(lead) && AllSpace(mid) && (NeedsSeparator(t.kind) ==> MayFollow(t.kind, rest))
    ensures Next(lead + (Lexeme(t, mid) + rest)) == Read(t, |lead| + |Lexeme(t, mid)| + Consumed(t.kind, rest))
    ensures Consumed(t.kind, rest) <= |rest|
  {
    var text := Lexeme(t, mid) + rest;
    LexemeStart(t, mid);
    BlankPrefix(lead, text);
    ReadTokenBack(t, mid, rest);
    assert (lead + text)[|lead|..] == text;
  }

  /** The layout of tokens whose first one starts right here, after white space `lead`. */
  function FromHere(lead: string, tokens: seq<Token>, gaps: seq<Gap>, tail: string): string
    requires |tokens| == |gaps|
  {
    if tokens == [] then lead + tail
    else lead + (Lexeme(tokens[0], gaps[0].mid) + (Layout(tokens[0].kind, tokens[1..], gaps[1..]) + tail))
  }

  /** The white space that is still before the next token when the reader is done with a token of kind `k`. */
  function LeadAfter(k: Kind, tokens: seq<Token>, gaps: seq<Gap>): string
    requires |tokens| == |gaps|
  {
    if tokens == [] || (NeedsSeparator(k) && IsEnd(tokens[0].kind)) then "" else gaps[0].lead
  }

  /** After a token of kind `k`, the reader steps in `rest` exactly to `here`. */
  ghost predicate StepsTo(k: Kind, rest: string, here: string) {
    && (NeedsSeparator(k) ==> MayFollow(k, rest))
    && Consumed(k, rest) <= |rest| && rest[Consumed(k, rest)..] == here
  }

  lemma StepsToEnd(k: Kind, tail: string)
    requires AllSpace(tail) && NeedsSeparator(k)
    ensures StepsTo(k, tail, "")
  {
    BlankPrefix(tail, "");
    assert tail + "" == tail;
  }

  lemma StepsToBracket(k: Kind, lead: string, s: string)
    requires AllSpace(lead) && NeedsSeparator(k) && s != "" && s[0] in {'}', ']'}
    ensures StepsTo(k, lead + s, s)
  {
    BlankPrefix(lead, s);
    assert (lead + s)[|lead|..] == s;
  }

  lemma StepsOverComma(k: Kind, s: string)
    requires NeedsSeparator(k)
    ensures StepsTo(k, "," + s, s)
  {
    var t := "," + s;
    assert t[0..] == t && t[1..] == s;
  }

  lemma StepsNowhere(k: Kind, s: string)
    requires !NeedsSeparator(k)
    ensures StepsTo(k, s, s)
  {
  }

  lemma LayoutFront(k: Kind, tokens: seq<Token>, gaps: seq<Gap>, tail: string)
    requires |tokens| == |gaps| && tokens != []
    ensures var here := FromHere(gaps[0].lead, tokens, gaps, tail);
            Layout(k, tokens, gaps) + tail == if NeedsSeparator(k) && !IsEnd(tokens[0].kind) then "," + here else here
  {
    var lead, lexeme, after := gaps[0].lead, Lexeme(tokens[0], gaps[0].mid), Layout(tokens[0].kind, tokens[1..], gaps[1..]);
    var comma := Comma(k, tokens[0].kind);
    RegroupItem(comma, lead, lexeme, after, tail);
  }

  lemma RegroupItem(comma: string, lead: string, lexeme: string, after: string, tail: string)
    ensures comma + lead + lexeme + after + tail == comma + (lead + (lexeme + (after + tail)))
    ensures comma == "" ==> comma + lead + lexeme + after + tail == lead + (lexeme + (after + tail))
  {
  }

  /** The white space after the last token that is still unread. */
  function TailAfter(k: Kind, tokens: seq<Token>, tail: string): string {
    if tokens == [] && NeedsSeparator(k) then "" else tail
  }

  /** After a token the reader steps exactly to where the next token, if any, starts. */
  lemma AfterToken(k: Kind, tokens: seq<Token>, gaps: seq<Gap>, tail: string)
    requires |tokens| == |gaps| && Spaces(gaps) && AllSpace(tail)
    requires forall t :: t in tokens ==> WellFormed(t)
    ensures StepsTo(k, Layout(k, tokens, gaps) + tail,
                    FromHere(LeadAfter(k, tokens, gaps), tokens, gaps, TailAfter(k, tokens, tail)))
  {
    if tokens == [] {
      AfterLastToken(k, tail);
    } else {
      LayoutFront(k, tokens, gaps, tail);
      var lead, here := gaps[0].lead, FromHere("", tokens, gaps, tail);
      HereFirst(lead, tokens, gaps, tail);
      if !NeedsSeparator(k) {
        StepsNowhere(k, lead + here);
      } else if IsEnd(tokens[0].kind) {
        StepsToBracket(k, lead, here);
      } else {
        StepsOverComma(k, lead + here);
      }
    }
  }

  lemma AfterLastToken(k: Kind, tail: string)
    requires AllSpace(tail)
    ensures StepsTo(k, Layout(k, [], []) + tail, FromHere("", [], [], TailAfter(k, [], tail)))
  {
    assert Layout(k, [], []) + tail == tail && "" + tail == tail;
    if NeedsSeparator(k) {
      StepsToEnd(k, tail);
    } else {
      StepsNowhere(k, tail);
    }
  }

  lemma HereFirst(lead: string, tokens: seq<Token>, gaps: seq<Gap>, tail: string)
    requires |tokens| == |gaps| && tokens != [] && WellFormed(tokens[0])
    ensures FromHere(lead, tokens, gaps, tail) == lead + FromHere("", tokens, gaps, tail)
    ensures var here := FromHere("", tokens, gaps, tail);
            here != "" && (IsEnd(tokens[0].kind) ==> here[0] in {'}', ']'})
  {
    LexemeStart(tokens[0], gaps[0].mid);
  }

  lemma ReadSpace(s: string)
    requires AllSpace(s)
    ensures ReadAll(s) == [Token(NONE, "")]
  {
    BlankPrefix(s, "");
    assert s + "" == s;
  }

  /** Reading a layout gives its tokens, and then the end. */
  lemma {:induction false} ReadLayout(lead: string, tokens: seq<Token>, gaps: seq<Gap>, tail: string)
    requires |tokens| == |gaps| && Spaces(gaps) && AllSpace(lead) && AllSpace(tail)
    requires forall t :: t in tokens ==> WellFormed(t)
    ensures ReadAll(FromHere(lead, tokens, gaps, tail)) == tokens + [Token(NONE, "")]
    decreases |tokens|
  {
    var s := FromHere(lead, tokens, gaps, tail);
    if tokens == [] {
      ReadSpace(s);
    } else {
      var t, mid := tokens[0], gaps[0].mid;
      var rest := Layout(t.kind, tokens[1..], gaps[1..]) + tail;
      var lead', tail' := LeadAfter(t.kind, tokens[1..], gaps[1..]), TailAfter(t.kind, tokens[1..], tail);
      AfterToken(t.kind, tokens[1..], gaps[1..], tail);
      ReadLayout(lead', tokens[1..], gaps[1..], tail');
      ReadOneToken(lead, t, mid, rest, FromHere(lead', tokens[1..], gaps[1..], tail'));
      Cons(tokens, Token(NONE, ""));
    }
  }

  lemma ReadOneToken(lead: string, t: Token, mid: string, rest: string, here: string)
    requires WellFormed(t) && AllSpace(lead) && AllSpace(mid) && StepsTo(t.kind, rest, here)
    ensures ReadAll(lead + (Lexeme(t, mid) + rest)) == [t] + ReadAll(here)
  {
    NextBack(lead, t, mid, rest);
    DropFront(lead, Lexeme(t, mid), rest, Consumed(t.kind, rest));
    ReadAllStep(lead + (Lexeme(t, mid) + rest), t, |lead| + |Lexeme(t, mid)| + Consumed(t.kind, rest), here);
  }

  lemma ReadAllStep(s: string, t: Token, n: nat, here: string)
    requires Next(s) == Read(t, n) && t.kind !in {ERROR, NONE} && s[n..] == here
    ensures ReadAll(s) == [t] + ReadAll(here)
  {
  }

  lemma Cons<T>(s: seq<T>, t: T)
    requires s != []
    ensures s + [t] == [s[0]] + (s[1..] + [t])
  {
  }

  lemma DropFront(a: string, b: string, c: string, n: nat)
    requires n <= |c|
    ensures (a + (b + c))[|a| + |b| + n..] == c[n..]
  {
  }

  /**
    Round trip: whatever well-formed tokens are put, in whatever order, compactly or pretty-printed, reading the
    buffer gives exactly these tokens with their data, and then the end of the buffer.
  */
  lemma RoundTrip(pretty: bool, tokens: seq<Token>)
    requires forall t :: t in tokens ==> WellFormed(t)
    ensures ReadAll(PutAll(EmptyWriter(pretty), tokens).buf) == tokens + [Token(NONE, "")]
  {
    var gaps, tail := WritingGivesLayout(pretty, tokens);
    if tokens == [] {
      ReadSpace(Layout(NONE, tokens, gaps) + tail);
    } else {
      LayoutFront(NONE, tokens, gaps, tail);
      ReadLayout(gaps[0].lead, tokens, gaps, tail);
    }
  }

  /** What can be read back of tokens that are put: error and none are not written, and ignored data is lost. */
  function Canonical(tokens: seq<Token>): seq<Token> {
    if tokens == [] then []
    else
      var init, t := Canonical(tokens[..|tokens| - 1]), tokens[|tokens| - 1];
      if t.kind in {ERROR, NONE} then init else init + [if HasText(t.kind) then t else Token(t.kind, "")]
  }

  lemma {:induction false} PutCanonical(pretty: bool, tokens: seq<Token>)
    ensures PutAll(EmptyWriter(pretty), tokens) == PutAll(EmptyWriter(pretty), Canonical(tokens))
    ensures forall t :: t in Canonical(tokens) ==> t.kind !in {ERROR, NONE}
    decreases |tokens|
  {
    hide Writer.PutToken;
    if tokens != [] {
      var init, t := tokens[..|tokens| - 1], tokens[|tokens| - 1];
      PutCanonical(pretty, init);
      PutIgnoresData(PutAll(EmptyWriter(pretty), init), t);
      if t.kind !in {ERROR, NONE} {
        var c := Canonical(init);
        var t' := if HasText(t.kind) then t else Token(t.kind, "");
        assert (c + [t'])[..|c|] == c;
      }
    }
  }

  lemma {:induction false} CanonicalIsWellFormed(tokens: seq<Token>)
    requires forall t :: t in tokens && HasText(t.kind) ==> WellFormed(t)
    ensures forall t :: t in Canonical(tokens) ==> WellFormed(t)
  {
    hide IsNumber, StringBody;
    if tokens != [] {
      CanonicalIsWellFormed(tokens[..|tokens| - 1]);
    }
  }

  lemma PutIgnoresData(w: Writer, t: Token)
    requires w.Valid()
    ensures t.kind in {ERROR, NONE} ==> w.PutToken(t) == w
    ensures !HasText(t.kind) ==> w.PutToken(t) == w.PutToken(Token(t.kind, ""))
  {
  }

  /** The round trip for any sequence of calls of `put_next_token`. */
  lemma RoundTripOfCalls(pretty: bool, tokens: seq<Token>)
    requires forall t :: t in tokens && HasText(t.kind) ==> WellFormed(t)
    ensures ReadAll(PutAll(EmptyWriter(pretty), tokens).buf) == Canonical(tokens) + [Token(NONE, "")]
  {
    PutCanonical(pretty, tokens);
    CanonicalIsWellFormed(tokens);
    RoundTrip(pretty, Canonical(tokens));
  }
}
