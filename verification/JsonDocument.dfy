/**
  What the JSON writer of common/JSON_Tokenizer.cc writes, defined from the tokens alone: the white space before
  a token follows from the number of brackets that are open there.
*/
module JsonDocument {
  import opened JsonTokenizer

  // ---------------------------------------------------------------- depth

  function Starts(tokens: seq<Token>): nat {
    if tokens == [] then 0
    else Starts(tokens[..|tokens| - 1]) + if tokens[|tokens| - 1].kind in {OBJECT_START, ARRAY_START} then 1 else 0
  }

  function Ends(tokens: seq<Token>): nat {
    if tokens == [] then 0
    else Ends(tokens[..|tokens| - 1]) + if tokens[|tokens| - 1].kind in {OBJECT_END, ARRAY_END} then 1 else 0
  }

  /** The last token closes a bracket that nothing is in. */
  predicate IsEmptyBracket(tokens: seq<Token>) {
    var n := |tokens|;
    n >= 2 && tokens[n - 1].kind in {OBJECT_END, ARRAY_END} && tokens[n - 2].kind in {OBJECT_START, ARRAY_START}
  }

  /** The number of empty brackets that were deeper than the tabs go. */
  function DeepEmpty(tokens: seq<Token>): nat
    decreases |tokens|, 0
  {
    if tokens == [] then 0
    else
      var init := tokens[..|tokens| - 1];
      DeepEmpty(init) + if IsEmptyBracket(tokens) && Depth(init) > 80 then 1 else 0
  }

  /** How many brackets are open, except that an empty one that is deeper than 80 is never closed; in 32 bits. */
  function Depth(tokens: seq<Token>): nat
    decreases |tokens|, 1
  {
    (Starts(tokens) - Ends(tokens) + DeepEmpty(tokens)) % 0x1_0000_0000
  }

  /** Brackets that are nested properly and not deeper than 80 are counted as they are. */
  predicate Shallow(tokens: seq<Token>) {
    forall i :: 0 <= i <= |tokens| ==> 0 <= Starts(tokens[..i]) - Ends(tokens[..i]) <= 80
  }

  lemma {:induction false} DepthIsNesting(tokens: seq<Token>)
    requires Shallow(tokens)
    ensures DeepEmpty(tokens) == 0 && Depth(tokens) == Starts(tokens) - Ends(tokens)
  {
    assert tokens[..|tokens|] == tokens;
    if tokens != [] {
      var init := tokens[..|tokens| - 1];
      assert forall i :: 0 <= i <= |init| ==> init[..i] == tokens[..i];
      DepthIsNesting(init);
    }
  }

  /** An empty bracket inside eighty others is not closed for the rest of the document. */
  lemma DeepIsNotClosed(tokens: seq<Token>, t: Token, u: Token)
    requires Shallow(tokens) && Depth(tokens) == 80 && t.kind == ARRAY_START && u.kind == ARRAY_END
    ensures Depth(tokens + [t, u]) == 81 && Starts(tokens + [t, u]) - Ends(tokens + [t, u]) == 80
  {
    hide DeepEmpty;
    DepthIsNesting(tokens);
    var one, two := tokens + [t], tokens + [t, u];
    assert one[..|tokens|] == tokens && two[..|one|] == one;
    DeepStep(one);
    DeepStep(two);
  }

  lemma DeepStep(tokens: seq<Token>)
    requires tokens != []
    ensures var init := tokens[..|tokens| - 1];
      DeepEmpty(tokens) == DeepEmpty(init) + if IsEmptyBracket(tokens) && Depth(init) > 80 then 1 else 0
  {
  }

  // ---------------------------------------------------------------- white space

  /** A new line with a tab for each open bracket, but not more than 80 */
  function Line(depth: nat): string {
    "\n" + seq(if depth > 80 then 80 else depth, _ => '\t')
  }

  /** What follows the last token at once. */
  function Trailing(pretty: bool, tokens: seq<Token>): string {
    if !pretty || tokens == [] then ""
    else match tokens[|tokens| - 1].kind
      case OBJECT_START => Line(Depth(tokens))
      case ARRAY_START => Line(Depth(tokens))
      case NAME => " "
      case _ => ""
  }

  /** What is between the tokens and one more, which is not an end. */
  function BeforeOther(pretty: bool, tokens: seq<Token>): string {
    if tokens == [] || tokens[|tokens| - 1].kind in {NAME, OBJECT_START, ARRAY_START} then Trailing(pretty, tokens)
    else if pretty then "," + Line(Depth(tokens))
    else ","
  }

  /** What is between the tokens and an end: one level less, and in an empty bracket one character less. */
  function BeforeEnd(pretty: bool, tokens: seq<Token>): string {
    if !pretty then ""
    else if tokens == [] || tokens[|tokens| - 1].kind !in {OBJECT_START, ARRAY_START} then
      Trailing(pretty, tokens) + Line((Depth(tokens) - 1) % 0x1_0000_0000)
    else
      var line := Line(Depth(tokens));
      if Depth(tokens) > 80 then line else line[..|line| - 1]
  }

  function Before(pretty: bool, tokens: seq<Token>, t: Token): string {
    if t.kind in {OBJECT_END, ARRAY_END} then BeforeEnd(pretty, tokens) else BeforeOther(pretty, tokens)
  }

  /** The characters of a token */
  function Characters(pretty: bool, t: Token): string {
    match t.kind
    case OBJECT_START => "{"
    case OBJECT_END => "}"
    case ARRAY_START => "["
    case ARRAY_END => "]"
    case NAME => "\"" + t.text + (if pretty then "\" :" else "\":")
    case NUMBER => t.text
    case STRING => t.text
    case LITERAL_TRUE => "true"
    case LITERAL_FALSE => "false"
    case LITERAL_NULL => "null"
    case ERROR => ""
    case NONE => ""
  }

  function Document(pretty: bool, tokens: seq<Token>): string {
    if tokens == [] then ""
    else
      var init, t := tokens[..|tokens| - 1], tokens[|tokens| - 1];
      Document(pretty, init) + Before(pretty, init, t) + Characters(pretty, t)
  }

  // ---------------------------------------------------------------- what is written

  predicate AllWritten(tokens: seq<Token>) {
    forall t :: t in tokens ==> t.kind !in {ERROR, NONE}
  }

  /** What a writer holds after the tokens. */
  function After(pretty: bool, tokens: seq<Token>): Writer {
    Writer(Document(pretty, tokens) + Trailing(pretty, tokens),
           if pretty then Depth(tokens) else 0, LastKind(NONE, tokens), pretty)
  }

  lemma LineIs(depth: nat)
    ensures Line(depth) == "\n" + Tabs(depth)
  {
  }

  /** The depth after one more token. */
  lemma DepthStep(tokens: seq<Token>, t: Token)
    ensures var d := Depth(tokens);
      Depth(tokens + [t]) ==
      if t.kind in {OBJECT_START, ARRAY_START} then (d + 1) % 0x1_0000_0000
      else if t.kind !in {OBJECT_END, ARRAY_END} || (IsEmptyBracket(tokens + [t]) && d > 80) then d
      else (d - 1) % 0x1_0000_0000
  {
    hide DeepEmpty;
    assert (tokens + [t])[..|tokens|] == tokens;
    DeepStep(tokens + [t]);
  }

  lemma DocumentStep(pretty: bool, tokens: seq<Token>, t: Token)
    ensures Document(pretty, tokens + [t]) == Document(pretty, tokens) + Before(pretty, tokens, t) + Characters(pretty, t)
  {
    assert (tokens + [t])[..|tokens|] == tokens;
  }

  lemma PutOtherToken(pretty: bool, tokens: seq<Token>, t: Token)
    requires AllWritten(tokens) && t.kind !in {ERROR, NONE, OBJECT_END, ARRAY_END} && After(pretty, tokens).Valid()
    ensures After(pretty, tokens).PutToken(t) == After(pretty, tokens + [t])
  {
    hide Document, Depth, Line, Tabs, Trailing, Trail, BeforeOther, Characters, Writer.PutToken, Writer.PutSeparator,
         AllWritten, Writer.Valid, Lexeme;
    var w := After(pretty, tokens);
    DocumentStep(pretty, tokens, t);
    DepthStep(tokens, t);
    PutAfterSeparator(w, t);
    OtherDepth(w, t);
    SeparatorIs(pretty, tokens);
    TrailIs(pretty, tokens, t);
    Assoc(Document(pretty, tokens) + BeforeOther(pretty, tokens), Characters(pretty, t), Trailing(pretty, tokens + [t]));
  }

  lemma OtherDepth(w: Writer, t: Token)
    requires w.Valid() && !IsEnd(t.kind) && t.kind !in {ERROR, NONE}
    ensures var v := w.PutToken(t);
      v.pretty == w.pretty && v.previous == t.kind &&
      v.depth == if w.pretty && IsStart(t.kind) then (w.depth + 1) % 0x1_0000_0000 else w.depth
  {
    hide Writer.PutSeparator;
    SeparatorKeeps(w);
  }

  lemma SeparatorIs(pretty: bool, tokens: seq<Token>)
    requires AllWritten(tokens)
    ensures After(pretty, tokens).PutSeparator().buf == Document(pretty, tokens) + BeforeOther(pretty, tokens)
  {
    hide Document, Depth, Line, Tabs;
    LastWritten(tokens);
    LineIs(Depth(tokens));
    var document := Document(pretty, tokens);
    assert document + "" == document;
    assert ",\n" + Tabs(Depth(tokens)) == "," + Line(Depth(tokens));
  }

  lemma TrailIs(pretty: bool, tokens: seq<Token>, t: Token)
    requires t.kind !in {ERROR, NONE, OBJECT_END, ARRAY_END}
    ensures var w := After(pretty, tokens);
      Trail(w, t.kind) == Trailing(pretty, tokens + [t]) && Lexeme(t, Mid(w, t.kind)) == Characters(pretty, t)
  {
    hide Document, Depth, Line, Tabs;
    DepthStep(tokens, t);
    LineIs(Depth(tokens + [t]));
    if t.kind == NAME {
      assert "\"" + t.text + "\"" + (if pretty then " " else "") + ":" == Characters(pretty, t);
    }
  }

  lemma LastWritten(tokens: seq<Token>)
    requires AllWritten(tokens)
    ensures tokens == [] || tokens[|tokens| - 1].kind !in {ERROR, NONE}
  {
  }

  lemma PutEndToken(pretty: bool, tokens: seq<Token>, t: Token)
    requires AllWritten(tokens) && t.kind in {OBJECT_END, ARRAY_END} && After(pretty, tokens).Valid()
    ensures After(pretty, tokens).PutToken(t) == After(pretty, tokens + [t])
  {
    hide Document, Depth, Line, Trailing, BeforeEnd, Writer.PutEnd;
    DocumentStep(pretty, tokens, t);
    DepthStep(tokens, t);
    NoTrail(pretty, tokens, t);
    var c := if t.kind == OBJECT_END then '}' else ']';
    if !pretty {
      PutCompactEnd(tokens, c);
    } else if tokens == [] || tokens[|tokens| - 1].kind !in {OBJECT_START, ARRAY_START} {
      PutEndOnNewLine(tokens, c);
    } else {
      PutEmptyEnd(tokens, c);
    }
  }

  lemma NoTrail(pretty: bool, tokens: seq<Token>, t: Token)
    requires t.kind in {OBJECT_END, ARRAY_END}
    ensures Trailing(pretty, tokens + [t]) == "" && Characters(pretty, t) == if t.kind == OBJECT_END then "}" else "]"
  {
    hide Depth;
  }

  lemma PutCompactEnd(tokens: seq<Token>, c: char)
    requires After(false, tokens).Valid()
    ensures var w := After(false, tokens);
      w.PutEnd(c) == w.(buf := Document(false, tokens) + BeforeEnd(false, tokens) + [c])
  {
    hide Document, Depth;
  }

  lemma EndOnNewLine(w: Writer, c: char)
    requires w.Valid() && w.pretty && !IsStart(w.previous)
    ensures var d := (w.depth - 1) % 0x1_0000_0000;
      w.PutEnd(c) == w.(buf := w.buf + ("\n" + Tabs(d)) + [c], depth := d)
  {
    hide Tabs;
  }

  lemma EndOfEmpty(w: Writer, document: string, line: string, c: char)
    requires w.Valid() && w.pretty && IsStart(w.previous) && w.buf == document + line && line != ""
    ensures w.PutEnd(c) ==
      if w.depth > 80 then w.(buf := document + line + [c])
      else w.(buf := document + line[..|line| - 1] + [c], depth := (w.depth - 1) % 0x1_0000_0000)
  {
    DropLast(document, line);
  }

  lemma PutEndOnNewLine(tokens: seq<Token>, c: char)
    requires AllWritten(tokens) && After(true, tokens).Valid()
    requires tokens == [] || tokens[|tokens| - 1].kind !in {OBJECT_START, ARRAY_START}
    ensures var w := After(true, tokens);
      w.PutEnd(c) == w.(buf := Document(true, tokens) + BeforeEnd(true, tokens) + [c],
                        depth := (Depth(tokens) - 1) % 0x1_0000_0000)
  {
    hide Document, Depth, Line, Trailing, Tabs, Writer.PutEnd, Writer.Valid, BeforeEnd, AllWritten;
    var w, d := After(true, tokens), (Depth(tokens) - 1) % 0x1_0000_0000;
    LastWritten(tokens);
    EndOnNewLine(w, c);
    LineIs(d);
    Assoc(Document(true, tokens), Trailing(true, tokens), Line(d));
    BeforeEndIs(tokens);
  }

  lemma PutEmptyEnd(tokens: seq<Token>, c: char)
    requires After(true, tokens).Valid() && tokens != [] && tokens[|tokens| - 1].kind in {OBJECT_START, ARRAY_START}
    ensures var w := After(true, tokens);
      w.PutEnd(c) == w.(buf := Document(true, tokens) + BeforeEnd(true, tokens) + [c],
                        depth := if Depth(tokens) > 80 then Depth(tokens) else (Depth(tokens) - 1) % 0x1_0000_0000)
  {
    hide Document, Depth, Line, Trailing, Tabs, Writer.PutEnd, Writer.Valid, BeforeEnd;
    BeforeEndIs(tokens);
    EndOfEmpty(After(true, tokens), Document(true, tokens), Line(Depth(tokens)), c);
  }

  lemma BeforeEndIs(tokens: seq<Token>)
    ensures var line := Line(Depth(tokens));
      if tokens == [] || tokens[|tokens| - 1].kind !in {OBJECT_START, ARRAY_START} then
        BeforeEnd(true, tokens) == Trailing(true, tokens) + Line((Depth(tokens) - 1) % 0x1_0000_0000)
      else
        Trailing(true, tokens) == line != "" &&
        BeforeEnd(true, tokens) == if Depth(tokens) > 80 then line else line[..|line| - 1]
  {
    hide Depth;
  }

  lemma DropLast(a: string, b: string)
    requires b != ""
    ensures (a + b)[..|a + b| - 1] == a + b[..|b| - 1]
  {
  }

  /**
   Whatever calls are made, the buffer is the document of the tokens that are written, and the depth is the number
   of open brackets.
   */
  lemma {:induction false} WritesDocument(pretty: bool, tokens: seq<Token>)
    requires AllWritten(tokens)
    ensures PutAll(EmptyWriter(pretty), tokens) == After(pretty, tokens)
  {
    hide Document, Depth, Writer.PutToken, Before, Trailing;
    if tokens == [] {
      NothingWritten(pretty);
    } else {
      var init, t := tokens[..|tokens| - 1], tokens[|tokens| - 1];
      WritesDocument(pretty, init);
      assert init + [t] == tokens;
      assert t in tokens;
      if t.kind in {OBJECT_END, ARRAY_END} {
        PutEndToken(pretty, init, t);
      } else {
        PutOtherToken(pretty, init, t);
      }
    }
  }

  lemma NothingWritten(pretty: bool)
    ensures After(pretty, []) == EmptyWriter(pretty)
  {
  }

  /** The same for all calls, of which some write nothing and some ignore their text. */
  lemma WritesDocumentOfCalls(pretty: bool, tokens: seq<Token>)
    ensures PutAll(EmptyWriter(pretty), tokens) == After(pretty, Canonical(tokens))
  {
    hide After, PutAll;
    PutCanonical(pretty, tokens);
    WritesDocument(pretty, Canonical(tokens));
  }
}
