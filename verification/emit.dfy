/** The two module emitters of index.ts and the directive test that chooses
    between them. */
module Emit {
  import opened Base

  /** `containsDirectives`: the content holds the compiler's open tag. */
  predicate ContainsDirectives(content: string, openTag: string) {
    Contains(content, openTag)
  }

  /** `content.replace(/'/g, "\\'")`: a backslash before every quote. */
  function EscapeQuotes(s: string): string {
    if s == [] then [] else (if s[0] == '\'' then "\\'" else [s[0]]) + EscapeQuotes(s[1..])
  }

  /** `.replace(/\n/g, '')`: every line feed dropped. */
  function StripNewlines(s: string): string {
    if s == [] then [] else (if s[0] == '\n' then [] else [s[0]]) + StripNewlines(s[1..])
  }

  /** The number of occurrences of `c` in `s`. */
  function Count(s: string, c: char): nat {
    if s == [] then 0 else (if s[0] == c then 1 else 0) + Count(s[1..], c)
  }

  /** No line feed in `s`. */
  predicate NoNewline(s: string) {
    forall i :: 0 <= i < |s| ==> s[i] != '\n'
  }

  /** Every quote in `s` has a backslash right before it. */
  predicate QuotesEscaped(s: string) {
    forall i :: 0 <= i < |s| && s[i] == '\'' ==> 0 < i && s[i - 1] == '\\'
  }

  /** Deletes the backslash of every backslash-quote pair, reading left to
      right: the inverse of the quote escaping. */
  function Unescape(r: string): string
    decreases |r|
  {
    if |r| == 0 then []
    else if |r| >= 2 && r[0] == '\\' && r[1] == '\'' then "'" + Unescape(r[2..])
    else [r[0]] + Unescape(r[1..])
  }

  /** The escaping step of `emitString`: quotes first, then line feeds.
      Backslashes already in the text are left alone, as the template
      compiler's own text escaping does. */
  function Escape(s: string): (r: string)
    ensures NoNewline(r)
    ensures QuotesEscaped(r)
    ensures Unescape(r) == StripNewlines(s)
    ensures Count(r, '\\') == Count(s, '\\') + Count(s, '\'')
    ensures Count(r, '\'') == Count(s, '\'')
    ensures |r| == |s| + Count(s, '\'') - Count(s, '\n')
  {
    EscapeShape(s);
    EscapeCounts(s);
    StripNewlines(EscapeQuotes(s))
  }

  /** What one input character turns into once both replacements are done. */
  function EscapeChar(c: char): string {
    if c == '\'' then "\\'" else if c == '\n' then "" else [c]
  }

  lemma {:induction false} StripNewlinesAppend(a: string, b: string)
    ensures StripNewlines(a + b) == StripNewlines(a) + StripNewlines(b)
    decreases |a|
  {
    if a != [] {
      assert (a + b)[1..] == a[1..] + b;
      StripNewlinesAppend(a[1..], b);
    } else {
      assert a + b == b;
    }
  }

  lemma {:induction false} CountAppend(a: string, b: string, c: char)
    ensures Count(a + b, c) == Count(a, c) + Count(b, c)
    decreases |a|
  {
    if a != [] {
      assert (a + b)[1..] == a[1..] + b;
      CountAppend(a[1..], b, c);
    } else {
      assert a + b == b;
    }
  }

  /** The two-pass escaping works character by character. */
  lemma EscapeStep(s: string)
    requires s != []
    ensures StripNewlines(EscapeQuotes(s)) == EscapeChar(s[0]) + StripNewlines(EscapeQuotes(s[1..]))
  {
    var head := if s[0] == '\'' then "\\'" else [s[0]];
    StripNewlinesAppend(head, EscapeQuotes(s[1..]));
    if s[0] == '\'' {
      assert StripNewlines(head) == "\\'";
    }
  }

  /** Escaping one more character in front keeps every quote escaped. */
  lemma QuotesEscapedPrepend(c: char, rest: string)
    requires QuotesEscaped(rest)
    ensures QuotesEscaped(EscapeChar(c) + rest)
  {
    var r := EscapeChar(c) + rest;
    var d := |EscapeChar(c)|;
    forall i | 0 <= i < |r| && r[i] == '\''
      ensures 0 < i && r[i - 1] == '\\'
    {
      if i >= d {
        assert rest[i - d] == '\'';
      }
    }
  }

  /** Unescaping undoes the escaping of one character in front. The text
      after it cannot start with a quote, so a backslash of the input never
      pairs up with what follows. */
  lemma UnescapePrepend(c: char, rest: string)
    requires QuotesEscaped(rest)
    ensures Unescape(EscapeChar(c) + rest) == StripNewlines([c]) + Unescape(rest)
  {
    var r := EscapeChar(c) + rest;
    assert rest == [] || rest[0] != '\'';
    if c == '\'' {
      assert r[2..] == rest;
    } else if c == '\n' {
      assert r == rest;
    } else {
      assert r[1..] == rest;
    }
  }

  /** The shape of the escaped text, by induction on the input: no line
      feed, every quote escaped, and unescaping gives the input without line
      feeds. */
  lemma {:induction false} EscapeShape(s: string)
    ensures NoNewline(StripNewlines(EscapeQuotes(s)))
    ensures QuotesEscaped(StripNewlines(EscapeQuotes(s)))
    ensures Unescape(StripNewlines(EscapeQuotes(s))) == StripNewlines(s)
    decreases |s|
  {
    if s != [] {
      var rest := StripNewlines(EscapeQuotes(s[1..]));
      EscapeShape(s[1..]);
      EscapeStep(s);
      QuotesEscapedPrepend(s[0], rest);
      UnescapePrepend(s[0], rest);
      StripNewlinesAppend([s[0]], s[1..]);
      assert [s[0]] + s[1..] == s;
    }
  }

  /** The counts stated on `Escape`, by induction on the input: one extra
      backslash per quote, quotes kept, line feeds gone. */
  lemma {:induction false} EscapeCounts(s: string)
    ensures Count(StripNewlines(EscapeQuotes(s)), '\\') == Count(s, '\\') + Count(s, '\'')
    ensures Count(StripNewlines(EscapeQuotes(s)), '\'') == Count(s, '\'')
    ensures |StripNewlines(EscapeQuotes(s))| == |s| + Count(s, '\'') - Count(s, '\n')
    decreases |s|
  {
    if s != [] {
      var rest := StripNewlines(EscapeQuotes(s[1..]));
      EscapeCounts(s[1..]);
      EscapeStep(s);
      CountAppend(EscapeChar(s[0]), rest, '\\');
      CountAppend(EscapeChar(s[0]), rest, '\'');
    }
  }

  /** Text without quotes or line feeds passes through unchanged. */
  lemma {:induction false} EscapeKeepsPlainText(s: string)
    requires forall i :: 0 <= i < |s| ==> s[i] != '\'' && s[i] != '\n'
    ensures Escape(s) == s
    decreases |s|
  {
    if s != [] {
      EscapeKeepsPlainText(s[1..]);
      EscapeStep(s);
      assert s == [s[0]] + s[1..];
    }
  }

  /** The fixed text of `emitString` around the string literal. */
  const StringHead := "\n    export function" + " render() {\n" + "        return '"
  const StringTail := "';\n    }\n\n" + "    export default { render };\n  "

  /** `emitString`: a module whose `render()` returns the escaped content as
      a single-quoted literal. */
  function EmitString(content: string): (code: string)
    ensures |code| >= |StringHead| + |StringTail|
    ensures code[..|StringHead|] == StringHead
    ensures code[|code| - |StringTail|..] == StringTail
    ensures NoNewline(code[|StringHead|..|code| - |StringTail|])
    ensures QuotesEscaped(code[|StringHead|..|code| - |StringTail|])
    ensures Unescape(code[|StringHead|..|code| - |StringTail|]) == StripNewlines(content)
  {
    var lit := Escape(content);
    var code := StringHead + lit + StringTail;
    assert code[|StringHead|..|code| - |StringTail|] == lit;
    code
  }

  /** A plain-text module has a space as its second character. */
  lemma PlainStart(content: string)
    ensures |EmitString(content)| >= 2 && EmitString(content)[1] == ' '
  {
    var plain := EmitString(content);
    assert plain[1] == plain[..|StringHead|][1] == ' ';
  }

  /** The fixed text of `emitCaveman` around the compiled function body. */
  const CavemanHead := "\n    import Caveman" + " from \"caveman\" \n\n" + "    export function render(d = {}) {\n" + "        "
  const CavemanTail := "\n    }\n\n" + "    export default { render };\n  "

  /** `emitCaveman` once the compiler has produced `body`: the body is
      placed verbatim inside `render(d = {})`. */
  function EmitCaveman(body: string): (code: string)
    ensures |code| == |CavemanHead| + |body| + |CavemanTail|
    ensures code[..|CavemanHead|] == CavemanHead
    ensures code[|CavemanHead|..|CavemanHead| + |body|] == body
    ensures code[|CavemanHead| + |body|..] == CavemanTail
  {
    var code := CavemanHead + body + CavemanTail;
    assert code[|CavemanHead|..|CavemanHead| + |body|] == body;
    code
  }

  /** No compiled module looks like a plain-text module: the two scaffolds
      part at their sixth character. */
  lemma EmittersDiffer(content: string, body: string)
    ensures EmitString(content) != EmitCaveman(body)
  {
    var plain := EmitString(content);
    var compiled := EmitCaveman(body);
    assert plain[5] == plain[..|StringHead|][5] == StringHead[5] == 'e';
    assert compiled[5] == compiled[..|CavemanHead|][5] == CavemanHead[5] == 'i';
  }
}
