/**
 * The first of the two passes that turn a JSONC configuration into JSON: comments out. String
 * literals pass through untouched. The mode machine is shared with the second pass.
 */
module JsoncText {
  import opened Options

  /** Outside string literals, or inside one opened by `q`, possibly just after a backslash. */
  datatype Mode = Code | Literal(q: char, escaped: bool)

  predicate IsQuote(c: char) { c == '"' || c == '\'' }

  /** The mode after reading `c` inside a literal. */
  function InLiteral(m: Mode, c: char): Mode
    requires m.Literal?
  {
    if m.escaped then Literal(m.q, false)
    else if c == '\\' then Literal(m.q, true)
    else if c == m.q then Code
    else m
  }

  predicate OpensLine(s: string) { |s| > 1 && s[0] == '/' && s[1] == '/' }

  predicate OpensBlock(s: string) { |s| > 1 && s[0] == '/' && s[1] == '*' }

  /** Length of the text up to the first line break, or to the end. */
  function LineEnd(s: string): (n: nat)
    ensures n <= |s| && (n < |s| ==> s[n] == '\n')
    ensures forall i :: 0 <= i < n ==> s[i] != '\n'
  {
    if s == "" || s[0] == '\n' then 0 else 1 + LineEnd(s[1..])
  }

  predicate ClosesAt(s: string, i: nat) { i + 1 < |s| && s[i] == '*' && s[i + 1] == '/' }

  /** Length of the text up to the first end-of-comment mark, or to the end. */
  function BlockEnd(s: string): (n: nat)
    ensures n <= |s| && (n < |s| ==> ClosesAt(s, n))
    ensures forall i :: 0 <= i < n ==> !ClosesAt(s, i)
  {
    if s == "" || ClosesAt(s, 0) then 0
    else
      assert forall i :: 0 < i < |s| ==> ClosesAt(s, i) == ClosesAt(s[1..], i - 1);
      1 + BlockEnd(s[1..])
  }

  function Drop(s: string, n: nat): string { if n <= |s| then s[n..] else "" }

  function Newlines(s: string): string {
    if s == "" then "" else if s[|s| - 1] == '\n' then Newlines(s[..|s| - 1]) + "\n" else Newlines(s[..|s| - 1])
  }

  /** What the next token contributes to the output. */
  function Emitted(s: string, m: Mode): string
    requires s != ""
  {
    if m.Literal? || IsQuote(s[0]) then [s[0]]
    else if OpensLine(s) then "\n"
    else if OpensBlock(s) then Newlines(s[2..][..BlockEnd(s[2..])])
    else [s[0]]
  }

  /** How much input the next token takes; a comment at the end of input may claim more than is left. */
  function Taken(s: string, m: Mode): (n: nat)
    requires s != ""
    ensures n > 0
  {
    if m.Literal? || IsQuote(s[0]) then 1
    else if OpensLine(s) then LineEnd(s) + 1
    else if OpensBlock(s) then BlockEnd(s[2..]) + 4
    else 1
  }

  function Following(s: string, m: Mode): Mode
    requires s != ""
  {
    if m.Literal? then InLiteral(m, s[0]) else if IsQuote(s[0]) then Literal(s[0], false) else Code
  }

  function Strip(s: string, m: Mode): string
    decreases |s|
  {
    if s == "" then "" else Emitted(s, m) + Strip(Drop(s, Taken(s, m)), Following(s, m))
  }

  // ----- the loop

  function ModeOf(quote: Option<char>, escaped: bool): Mode {
    if quote.Some? then Literal(quote.value, escaped) else Code
  }

  lemma LineEndIs(s: string, n: nat)
    requires n <= |s| && (n < |s| ==> s[n] == '\n') && forall i :: 0 <= i < n ==> s[i] != '\n'
    ensures LineEnd(s) == n
  {
  }

  lemma BlockEndIs(s: string, n: nat)
    requires n <= |s| && (n < |s| ==> ClosesAt(s, n)) && forall i :: 0 <= i < n ==> !ClosesAt(s, i)
    ensures BlockEnd(s) == n
  {
  }

  method SkipLine(content: string, start: nat) returns (index: nat)
    requires start <= |content|
    ensures index == start + LineEnd(content[start..])
  {
    index := start;
    while index < |content| && content[index] != '\n'
      invariant start <= index <= |content|
      invariant forall i :: start <= i < index ==> content[i] != '\n'
    {
      index := index + 1;
    }
    LineEndIs(content[start..], index - start);
  }

  method SkipBlock(content: string, start: nat) returns (index: nat, lineBreaks: string)
    requires start <= |content|
    ensures index == start + BlockEnd(content[start..])
    ensures lineBreaks == Newlines(content[start..][..BlockEnd(content[start..])])
  {
    ghost var inside := content[start..];
    index, lineBreaks := start, "";
    while index < |content| && !(content[index] == '*' && index + 1 < |content| && content[index + 1] == '/')
      invariant start <= index <= |content|
      invariant forall i :: 0 <= i < index - start ==> !ClosesAt(inside, i)
      invariant lineBreaks == Newlines(inside[..index - start])
    {
      assert inside[..index - start + 1][..index - start] == inside[..index - start];
      if content[index] == '\n' {
        lineBreaks := lineBreaks + "\n";
      }
      index := index + 1;
    }
    BlockEndIs(inside, index - start);
  }

  /** One token further on, with `done` already written. */
  lemma StripStep(done: string, content: string, index: nat, m: Mode)
    requires index < |content|
    ensures var rest := content[index..];
            done + Strip(Drop(content, index), m)
            == done + Emitted(rest, m) + Strip(Drop(content, index + Taken(rest, m)), Following(rest, m))
  {
    var rest := content[index..];
    assert Drop(rest, Taken(rest, m)) == Drop(content, index + Taken(rest, m));
  }

  method StripJsonComments(content: string) returns (result: string)
    ensures result == Strip(content, Code)
  {
    hide Strip, LineEnd, BlockEnd, Newlines;
    result := "";
    var quote: Option<char>, escaped, index := None, false, 0;
    while index < |content|
      invariant quote.None? ==> !escaped
      invariant result + Strip(Drop(content, index), ModeOf(quote, escaped)) == Strip(content, Code)
      decreases |content| - index
    {
      StripStep(result, content, index, ModeOf(quote, escaped));
      ghost var rest := content[index..];
      var c := content[index];
      if quote.Some? {
        result := result + [c];
        if escaped {
          escaped := false;
        } else if c == '\\' {
          escaped := true;
        } else if quote == Some(c) {
          quote := None;
        }
        index := index + 1;
      } else if IsQuote(c) {
        quote := Some(c);
        result := result + [c];
        index := index + 1;
      } else if c == '/' && index + 1 < |content| && content[index + 1] == '/' {
        var end := SkipLine(content, index);
        index := end + 1;
        result := result + "\n";
      } else if c == '/' && index + 1 < |content| && content[index + 1] == '*' {
        assert rest[2..] == content[index + 2..];
        var end, lineBreaks := SkipBlock(content, index + 2);
        index := end + 2;
        result := result + lineBreaks;
      } else {
        result := result + [c];
        index := index + 1;
      }
    }
    assert Drop(content, index) == "";
    StripNothing(ModeOf(quote, escaped));
  }

  lemma StripNothing(m: Mode)
    ensures Strip("", m) == ""
  {
  }

  // ----- stripping twice

  ghost predicate AllNewlines(s: string) { forall i :: 0 <= i < |s| ==> s[i] == '\n' }

  lemma {:induction false} NewlinesAreNewlines(s: string)
    ensures AllNewlines(Newlines(s))
  {
    if s != "" {
      NewlinesAreNewlines(s[..|s| - 1]);
    }
  }

  lemma {:induction false} StripPastNewlines(ns: string, s: string)
    requires AllNewlines(ns)
    ensures Strip(ns + s, Code) == ns + Strip(s, Code)
  {
    hide Strip;
    if ns == "" {
      assert ns + s == s && ns + Strip(s, Code) == Strip(s, Code);
    } else {
      assert ns + s == ['\n'] + (ns[1..] + s);
      OneCharacterAgain('\n', ns[1..] + s, Code);
      StripPastNewlines(ns[1..], s);
      assert ns == ['\n'] + ns[1..];
    }
  }

  /** Outside literals a character that does not open a comment is the first one written. */
  lemma FirstIsKept(s: string)
    requires s != "" && s[0] != '/'
    ensures Strip(s, Code) != "" && Strip(s, Code)[0] == s[0]
  {
  }

  /** Stripping comments twice is stripping them once, from any mode and on every input. */
  lemma {:induction false} StripIsIdempotent(s: string, m: Mode)
    ensures Strip(Strip(s, m), m) == Strip(s, m)
    decreases |s|
  {
    if s != "" {
      var rest, m' := Drop(s, Taken(s, m)), Following(s, m);
      StripIsIdempotent(rest, m');
      var tail := Strip(rest, m');
      if m.Code? && !IsQuote(s[0]) && (OpensLine(s) || OpensBlock(s)) {
        if OpensBlock(s) {
          NewlinesAreNewlines(s[2..][..BlockEnd(s[2..])]);
        }
        StripPastNewlines(Emitted(s, m), tail);
      } else {
        if m.Code? && s[0] == '/' && rest != "" {
          FirstIsKept(rest);
        }
        OneCharacterAgain(s[0], tail, m);
      }
    }
  }

  lemma OneCharacterAgain(c: char, tail: string, m: Mode)
    requires m.Code? && c == '/' ==> tail == "" || (tail[0] != '/' && tail[0] != '*')
    ensures Strip([c] + tail, m) == [c] + Strip(tail, Following([c], m))
  {
    assert Drop([c] + tail, 1) == tail;
  }

  // ----- line breaks

  function LineBreaks(s: string): nat {
    if s == "" then 0 else LineBreaks(s[..|s| - 1]) + if s[|s| - 1] == '\n' then 1 else 0
  }

  lemma {:induction false} LineBreaksConcat(a: string, b: string)
    ensures LineBreaks(a + b) == LineBreaks(a) + LineBreaks(b)
    decreases |b|
  {
    if b == "" {
      assert a + b == a;
    } else {
      assert (a + b)[..|a + b| - 1] == a + b[..|b| - 1];
      LineBreaksConcat(a, b[..|b| - 1]);
    }
  }

  lemma {:induction false} NewlinesKeepCount(s: string)
    ensures LineBreaks(Newlines(s)) == LineBreaks(s)
  {
    if s != "" {
      NewlinesKeepCount(s[..|s| - 1]);
      LineBreaksConcat(Newlines(s[..|s| - 1]), "\n");
    }
  }

  lemma {:induction false} NoLineBreaks(s: string)
    requires forall i :: 0 <= i < |s| ==> s[i] != '\n'
    ensures LineBreaks(s) == 0
  {
    if s != "" {
      NoLineBreaks(s[..|s| - 1]);
    }
  }

  /** The last thing in the text is a line comment without a line break. */
  predicate EndsInLineComment(s: string, m: Mode)
    decreases |s|
  {
    s != "" && (
      (m.Code? && OpensLine(s) && LineEnd(s) == |s|)
      || EndsInLineComment(Drop(s, Taken(s, m)), Following(s, m)))
  }

  lemma LineTokenBreaks(s: string)
    ensures var n := LineEnd(s);
            LineBreaks(if n < |s| then s[..n + 1] else s) == if n < |s| then 1 else 0
  {
    hide LineBreaks, LineEnd;
    LineBreaksOfOne();
    var n := LineEnd(s);
    NoLineBreaks(s[..n]);
    if n < |s| {
      assert s[..n + 1] == s[..n] + "\n";
      LineBreaksConcat(s[..n], "\n");
    } else {
      assert s[..n] == s;
    }
  }

  lemma BlockTokenText(s: string, n: nat)
    requires OpensBlock(s) && n <= |s[2..]| && (n < |s[2..]| ==> ClosesAt(s[2..], n))
    ensures n + 4 <= |s| ==> s[..n + 4] == "/*" + s[2..][..n] + "*/"
    ensures n + 4 > |s| ==> s == "/*" + s[2..][..n]
  {
  }

  lemma BlockTokenBreaks(s: string)
    requires OpensBlock(s)
    ensures var n := BlockEnd(s[2..]);
            LineBreaks(Newlines(s[2..][..n])) == LineBreaks(if n + 4 <= |s| then s[..n + 4] else s)
  {
    hide LineBreaks, BlockEnd, Newlines;
    var body, n := s[2..], BlockEnd(s[2..]);
    BlockTokenText(s, n);
    NewlinesKeepCount(body[..n]);
    NoLineBreaks("/*");
    NoLineBreaks("*/");
    LineBreaksConcat("/*", body[..n]);
    if n + 4 <= |s| {
      LineBreaksConcat("/*" + body[..n], "*/");
    }
  }

  lemma TokenLineBreaks(s: string, m: Mode)
    requires s != ""
    ensures var n := if Taken(s, m) <= |s| then Taken(s, m) else |s|;
            LineBreaks(Emitted(s, m)) == LineBreaks(s[..n]) + if m.Code? && OpensLine(s) && LineEnd(s) == |s| then 1 else 0
  {
    hide LineBreaks, BlockEnd, LineEnd, Newlines;
    LineBreaksOfOne();
    assert s[..|s|] == s;
    if m.Code? && OpensLine(s) {
      LineTokenBreaks(s);
    } else if m.Code? && OpensBlock(s) {
      BlockTokenBreaks(s);
    } else {
      assert s[..1] == [s[0]];
    }
  }

  lemma LineBreaksOfOne()
    ensures LineBreaks("\n") == 1 && LineBreaks("") == 0
  {
  }

  /** Stripping keeps every line break, adding one only for a line comment that ends the input. */
  lemma {:induction false} StripKeepsLineBreaks(s: string, m: Mode)
    ensures LineBreaks(Strip(s, m)) == LineBreaks(s) + if EndsInLineComment(s, m) then 1 else 0
    decreases |s|
  {
    hide LineBreaks;
    if s == "" {
      LineBreaksOfOne();
    } else {
      var k := Taken(s, m);
      var n := if k <= |s| then k else |s|;
      var rest := Drop(s, k);
      TokenLineBreaks(s, m);
      StripKeepsLineBreaks(rest, Following(s, m));
      assert s == s[..n] + rest;
      LineBreaksConcat(s[..n], rest);
      LineBreaksConcat(Emitted(s, m), Strip(rest, Following(s, m)));
      if m.Code? && OpensLine(s) && LineEnd(s) == |s| {
        assert rest == "";
      }
    }
  }

  // ----- texts built from literals, plain text and comments

  datatype Segment =
    | Text(text: string)                  // neither quotes nor slashes
    | Quoted(quote: char, body: string)   // a closed string literal
    | Line(comment: string)               // a line comment with its line break
    | Block(comment: string)              // a closed block comment

  /** `body` keeps a literal opened by `q` open and ends outside an escape. */
  predicate StaysOpen(q: char, body: string)
    decreases |body|
  {
    body == "" || (
      if body[0] == '\\' then |body| > 1 && StaysOpen(q, body[2..])
      else body[0] != q && StaysOpen(q, body[1..]))
  }

  predicate IsWellFormed(g: Segment) {
    match g
    case Text(text) => forall i :: 0 <= i < |text| ==> text[i] != '"' && text[i] != '\'' && text[i] != '/'
    case Quoted(q, body) => (q == '"' || q == '\'') && StaysOpen(q, body)
    case Line(comment) => forall i :: 0 <= i < |comment| ==> comment[i] != '\n'
    case Block(comment) => forall i :: 0 <= i < |comment| - 1 ==> !(comment[i] == '*' && comment[i + 1] == '/')
  }

  function Written(g: Segment): string {
    match g
    case Text(text) => text
    case Quoted(q, body) => [q] + body + [q]
    case Line(comment) => "//" + comment + "\n"
    case Block(comment) => "/*" + comment + "*/"
  }

  /** What the segment should leave behind. */
  function Kept(g: Segment): string {
    match g
    case Text(text) => text
    case Quoted(q, body) => [q] + body + [q]
    case Line(_) => "\n"
    case Block(comment) => Newlines(comment)
  }

  function WrittenAll(gs: seq<Segment>): string {
    if gs == [] then "" else Written(gs[0]) + WrittenAll(gs[1..])
  }

  function KeptAll(gs: seq<Segment>): string {
    if gs == [] then "" else Kept(gs[0]) + KeptAll(gs[1..])
  }

  lemma {:induction false} StripText(text: string, s: string)
    requires IsWellFormed(Text(text))
    ensures Strip(text + s, Code) == text + Strip(s, Code)
  {
    hide Strip;
    if text == "" {
      assert text + s == s && text + Strip(s, Code) == Strip(s, Code);
    } else {
      assert text + s == [text[0]] + (text[1..] + s);
      OneCharacterAgain(text[0], text[1..] + s, Code);
      StripText(text[1..], s);
      assert text == [text[0]] + text[1..];
    }
  }

  lemma {:induction false} StripBody(q: char, body: string, s: string)
    requires StaysOpen(q, body) && q != '\\'
    ensures Strip(body + [q] + s, Literal(q, false)) == body + [q] + Strip(s, Code)
    decreases |body|
  {
    hide Strip;
    if body == "" {
      assert body + [q] + s == [q] + s;
      OneCharacterAgain(q, s, Literal(q, false));
      assert body + [q] + Strip(s, Code) == [q] + Strip(s, Code);
    } else if body[0] == '\\' {
      assert body + [q] + s == [body[0]] + ([body[1]] + (body[2..] + [q] + s));
      OneCharacterAgain(body[0], [body[1]] + (body[2..] + [q] + s), Literal(q, false));
      OneCharacterAgain(body[1], body[2..] + [q] + s, Literal(q, true));
      StripBody(q, body[2..], s);
      assert body == [body[0]] + [body[1]] + body[2..];
      assert [body[0]] + ([body[1]] + (body[2..] + [q] + Strip(s, Code))) == body + [q] + Strip(s, Code);
    } else {
      assert body + [q] + s == [body[0]] + (body[1..] + [q] + s);
      OneCharacterAgain(body[0], body[1..] + [q] + s, Literal(q, false));
      StripBody(q, body[1..], s);
      assert body == [body[0]] + body[1..];
      assert [body[0]] + (body[1..] + [q] + Strip(s, Code)) == body + [q] + Strip(s, Code);
    }
  }

  lemma StripLine(comment: string, s: string)
    requires IsWellFormed(Line(comment))
    ensures Strip("//" + comment + "\n" + s, Code) == "\n" + Strip(s, Code)
  {
    var t := "//" + comment + "\n" + s;
    var n := |comment| + 2;
    assert forall i :: 0 <= i < n ==> t[i] == if i < 2 then '/' else comment[i - 2];
    LineEndIs(t, n);
    assert Drop(t, n + 1) == s;
  }

  lemma StripBlock(comment: string, s: string)
    requires IsWellFormed(Block(comment))
    ensures Strip("/*" + comment + "*/" + s, Code) == Newlines(comment) + Strip(s, Code)
  {
    hide Newlines;
    var t := "/*" + comment + "*/" + s;
    var inside, n := t[2..], |comment|;
    assert inside == comment + "*/" + s;
    forall i | 0 <= i < n ensures !ClosesAt(inside, i) {
      assert inside[i] == comment[i];
      assert !ClosesAt(comment, i);
      assert inside[i + 1] == if i + 1 < n then comment[i + 1] else '*';
    }
    assert inside[n] == '*' && inside[n + 1] == '/';
    BlockEndIs(inside, n);
    assert inside[..n] == comment && Drop(t, n + 4) == s;
  }

  lemma StripSegment(g: Segment, s: string)
    requires IsWellFormed(g)
    ensures Strip(Written(g) + s, Code) == Kept(g) + Strip(s, Code)
  {
    hide Strip;
    match g
    case Text(text) => StripText(text, s);
    case Quoted(q, body) =>
      assert [q] + body + [q] + s == [q] + (body + [q] + s);
      OneCharacterAgain(q, body + [q] + s, Code);
      StripBody(q, body, s);
      assert [q] + (body + [q] + Strip(s, Code)) == [q] + body + [q] + Strip(s, Code);
    case Line(comment) => StripLine(comment, s);
    case Block(comment) => StripBlock(comment, s);
  }

  /** A text of literals, plain text and comments loses its comments and nothing else. */
  lemma {:induction false} StripRemovesExactlyComments(gs: seq<Segment>, s: string)
    requires forall i :: 0 <= i < |gs| ==> IsWellFormed(gs[i])
    ensures Strip(WrittenAll(gs) + s, Code) == KeptAll(gs) + Strip(s, Code)
  {
    hide Strip, IsWellFormed, Written, Kept;
    if gs == [] {
      assert "" + s == s && "" + Strip(s, Code) == Strip(s, Code);
    } else {
      assert WrittenAll(gs) + s == Written(gs[0]) + (WrittenAll(gs[1..]) + s);
      StripSegment(gs[0], WrittenAll(gs[1..]) + s);
      StripRemovesExactlyComments(gs[1..], s);
      assert Kept(gs[0]) + (KeptAll(gs[1..]) + Strip(s, Code)) == KeptAll(gs) + Strip(s, Code);
    }
  }

  /** A last line comment may lack its line break; it leaves one behind all the same. */
  lemma StripFinalLineComment(comment: string)
    requires IsWellFormed(Line(comment))
    ensures Strip("//" + comment, Code) == "\n"
  {
    var t := "//" + comment;
    assert forall i :: 0 <= i < |t| ==> t[i] == if i < 2 then '/' else comment[i - 2];
    LineEndIs(t, |t|);
    assert Drop(t, |t| + 1) == "";
  }
}
