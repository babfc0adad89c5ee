/** `convert_to_json_string` of common/JSON_Tokenizer.cc, and what its result means by section 7 of RFC 8259. */
module JsonString {
  import opened Options
  import opened JsonTokenizer

  // ---------------------------------------------------------------- the meaning of a JSON string

  function HexValue(c: char): Option<int> {
    if '0' <= c <= '9' then Some(c as int - '0' as int)
    else if 'A' <= c <= 'F' then Some(c as int - 'A' as int + 10)
    else if 'a' <= c <= 'f' then Some(c as int - 'a' as int + 10)
    else None
  }

  /** The character a two-character escape stands for. */
  function ShortEscape(c: char): Option<char> {
    match c
    case '\"' => Some('\"')
    case '\\' => Some('\\')
    case '/' => Some('/')
    case 'b' => Some('\U{08}')
    case 'f' => Some('\U{0C}')
    case 'n' => Some('\n')
    case 'r' => Some('\r')
    case 't' => Some('\t')
    case _ => None
  }

  /** The character a `\uHHHH` escape stands for, unless it is half of a surrogate pair. */
  function LongEscape(h: string): Option<char>
    requires |h| == 4
  {
    var a, b, c, d := HexValue(h[0]), HexValue(h[1]), HexValue(h[2]), HexValue(h[3]);
    if a.None? || b.None? || c.None? || d.None? then None
    else
      var code := ((a.value * 16 + b.value) * 16 + c.value) * 16 + d.value;
      if 0 <= code < 0xD800 || 0xE000 <= code < 0x10000 then Some(code as char) else None
  }

  /** The first character of a string body and the number of characters that represent it. */
  function FirstChar(s: string): (r: Option<(char, nat)>)
    requires s != ""
    ensures r.Some? ==> 0 < r.value.1 <= |s|
  {
    if s[0] == '\"' || s[0] < ' ' then None
    else if s[0] != '\\' then Some((s[0], 1))
    else if |s| >= 6 && s[1] == 'u' then
      var c := LongEscape(s[2..6]);
      if c.Some? then Some((c.value, 6)) else None
    else if |s| >= 2 && ShortEscape(s[1]).Some? then Some((ShortEscape(s[1]).value, 2))
    else None
  }

  /** The string that the body of a JSON string represents, if it is one. */
  function Unescape(s: string): Option<string>
    decreases |s|
  {
    if s == "" then Some("")
    else
      var first := FirstChar(s);
      if first.None? then None
      else
        var rest := Unescape(s[first.value.1..]);
        if rest.Some? then Some([first.value.0] + rest.value) else None
  }

  // ---------------------------------------------------------------- the conversion

  function HexDigit(n: nat): char
    requires n < 16
  {
    if n < 10 then ('0' as int + n) as char else ('A' as int + n - 10) as char
  }

  function Escape(c: char): string {
    match c
    case '\n' => "\\n"
    case '\r' => "\\r"
    case '\t' => "\\t"
    case '\U{0C}' => "\\f"
    case '\U{08}' => "\\b"
    case '\"' => "\\\""
    case '\\' => "\\\\"
    case _ =>
      if 0 < c as int < 32 then "\\u00" + [HexDigit(c as int / 16)] + [HexDigit(c as int % 16)] else [c]
  }

  function EscapeAll(s: string): string {
    if s == "" then "" else EscapeAll(s[..|s| - 1]) + Escape(s[|s| - 1])
  }

  /** `convert_to_json_string` of a C string: its characters up to the terminator. */
  method ConvertToJsonString(str: string) returns (ret: string)
    requires '\0' !in str
    ensures ret == "\"" + EscapeAll(str) + "\""
  {
    hide Escape;
    ret := "\"";
    for i := 0 to |str|
      invariant ret == "\"" + EscapeAll(str[..i])
    {
      assert str[..i + 1][..i] == str[..i];
      var escaped := ConvertChar(str[i]);
      ret := ret + escaped;
      assert "\"" + EscapeAll(str[..i]) + Escape(str[i]) == "\"" + EscapeAll(str[..i + 1]);
    }
    assert str[..|str|] == str;
    ret := ret + "\"";
  }

  /** What `convert_to_json_string` puts for one character */
  method ConvertChar(c: char) returns (s: string)
    requires c != '\0'
    ensures s == Escape(c)
  {
    match c {
      case '\n' => s := "\\n";
      case '\r' => s := "\\r";
      case '\t' => s := "\\t";
      case '\U{0C}' => s := "\\f";
      case '\U{08}' => s := "\\b";
      case '\"' => s := "\\\"";
      case '\\' => s := "\\\\";
      case _ =>
        if c as int < 32 && c as int > 0 {
          var high := ('0' as int + c as int / 16) as char;
          var low := if c as int % 16 < 10 then (c as int % 16 + '0' as int) as char
                     else (c as int % 16 - 10 + 'A' as int) as char;
          s := "\\u00" + [high] + [low];
        } else {
          s := [c];
        }
    }
  }

  // ---------------------------------------------------------------- unescaping undoes it

  lemma EscapeOne(c: char, rest: string)
    requires c != '\0'
    ensures FirstChar(Escape(c) + rest) == Some((c, |Escape(c)|))
  {
    var e := Escape(c);
    if 0 < c as int < 32 && |e| == 6 {
      assert (e + rest)[2..6] == e[2..6];
    }
  }

  lemma {:induction false} EscapeFront(c: char, s: string)
    ensures EscapeAll([c] + s) == Escape(c) + EscapeAll(s)
  {
    hide Escape;
    if s == "" {
      assert [c] + s == [c] && [c][..0] == "";
    } else {
      var t := [c] + s;
      assert t[..|t| - 1] == [c] + s[..|s| - 1];
      EscapeFront(c, s[..|s| - 1]);
    }
  }

  /** The JSON string that stands for a string means that string. */
  lemma {:induction false} UnescapeInverts(s: string)
    requires '\0' !in s
    ensures Unescape(EscapeAll(s)) == Some(s)
  {
    if s != "" {
      assert s == [s[0]] + s[1..];
      EscapeFront(s[0], s[1..]);
      EscapeOne(s[0], EscapeAll(s[1..]));
      UnescapeInverts(s[1..]);
      assert (Escape(s[0]) + EscapeAll(s[1..]))[|Escape(s[0])|..] == EscapeAll(s[1..]);
    }
  }

  lemma EscapeBody(c: char, rest: string)
    requires StringBody(rest)
    ensures StringBody(Escape(c) + rest)
  {
    var e := Escape(c);
    if |e| < 6 {
      assert (e + rest)[|e|..] == rest;
    } else {
      PlainBody(e[5], rest);
      PlainBody(e[4], [e[5]] + rest);
      PlainBody('0', [e[4]] + ([e[5]] + rest));
      PlainBody('0', ['0'] + ([e[4]] + ([e[5]] + rest)));
      assert (e + rest)[2..] == ['0'] + (['0'] + ([e[4]] + ([e[5]] + rest)));
    }
  }

  lemma PlainBody(c: char, rest: string)
    requires StringBody(rest) && c != '\"' && c != '\\'
    ensures StringBody([c] + rest)
  {
    assert ([c] + rest)[1..] == rest;
  }

  /** It is also well-formed token data. */
  lemma {:induction false} ConvertedIsWellFormed(s: string)
    ensures StringBody(EscapeAll(s)) && WellFormed(Token(STRING, "\"" + EscapeAll(s) + "\""))
  {
    var text := "\"" + EscapeAll(s) + "\"";
    assert text[1..|text| - 1] == EscapeAll(s);
    if s != "" {
      assert s == [s[0]] + s[1..];
      EscapeFront(s[0], s[1..]);
      ConvertedIsWellFormed(s[1..]);
      EscapeBody(s[0], EscapeAll(s[1..]));
    }
  }

  /** From a string to a document and back: put as a string token, read, unescaped, it is the string again. */
  lemma StringThroughDocument(pretty: bool, before: seq<Token>, s: string, after: seq<Token>)
    requires '\0' !in s
    requires forall t :: t in before + after ==> WellFormed(t)
    ensures var t := Token(STRING, "\"" + EscapeAll(s) + "\"");
            var tokens := ReadAll(PutAll(EmptyWriter(pretty), before + [t] + after).buf);
            && |tokens| == |before| + |after| + 2 && tokens[|before|].kind == STRING
            && var text := tokens[|before|].text;
            |text| >= 2 && Unescape(text[1..|text| - 1]) == Some(s)
  {
    hide *;
    var t := Token(STRING, "\"" + EscapeAll(s) + "\"");
    ConvertedIsWellFormed(s);
    UnescapeInverts(s);
    assert forall u :: u in before + [t] + after ==> u == t || u in before + after;
    RoundTrip(pretty, before + [t] + after);
    assert t.text[1..|t.text| - 1] == EscapeAll(s);
  }
}
