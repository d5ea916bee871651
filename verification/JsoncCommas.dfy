/** The second JSONC pass: a comma outside literals goes when only white space parts it from } or ]. */
module JsoncCommas {
  import opened Options
  import opened Strings
  import opened JsoncText

  function NextNonSpace(s: string): Option<char> {
    if s == "" then None else if IsSpace(s[0]) then NextNonSpace(s[1..]) else Some(s[0])
  }

  predicate IsCloser(c: Option<char>) { c == Some('}') || c == Some(']') }

  /** The comma that starts `s` has a closing bracket as its next visible character. */
  predicate IsTrailing(s: string) { s != "" && s[0] == ',' && IsCloser(NextNonSpace(s[1..])) }

  function Commas(s: string, m: Mode): string {
    if s == "" then ""
    else if m.Code? && IsTrailing(s) then Commas(s[1..], Code)
    else [s[0]] + Commas(s[1..], Following(s, m))
  }

  method FindNextNonWhitespace(content: string, start: nat) returns (next: Option<char>)
    requires start <= |content|
    ensures next == NextNonSpace(content[start..])
  {
    hide IsSpace;
    for index := start to |content|
      invariant NextNonSpace(content[start..]) == NextNonSpace(content[index..])
    {
      if !IsSpace(content[index]) {
        return Some(content[index]);
      }
      assert content[index..][1..] == content[index + 1..];
    }
    return None;
  }

  /** One character further on, with `done` already written. */
  lemma CommasStep(done: string, content: string, index: nat, m: Mode)
    requires index < |content|
    ensures var rest := content[index..];
            done + Commas(rest, m)
            == if m.Code? && IsTrailing(rest) then done + Commas(content[index + 1..], Code)
               else done + [content[index]] + Commas(content[index + 1..], Following(rest, m))
  {
    assert content[index..][1..] == content[index + 1..];
  }

  method StripTrailingCommas(content: string) returns (result: string)
    ensures result == Commas(content, Code)
  {
    hide NextNonSpace, Commas;
    result := "";
    assert content[0..] == content;
    var quote: Option<char>, escaped := None, false;
    for index := 0 to |content|
      invariant quote.None? ==> !escaped
      invariant result + Commas(content[index..], ModeOf(quote, escaped)) == Commas(content, Code)
    {
      CommasStep(result, content, index, ModeOf(quote, escaped));
      assert content[index..][1..] == content[index + 1..];
      var c := content[index];
      if quote.Some? {
        result := result + [c];
        if escaped {
          escaped := false;
        } else if c == '\\' {
          escaped := true;
        } else if quote == Some(c) {
          quote := None;
        }
        continue;
      }
      if IsQuote(c) {
        quote := Some(c);
        result := result + [c];
        continue;
      }
      if c == ',' {
        var next := FindNextNonWhitespace(content, index + 1);
        if next == Some('}') || next == Some(']') {
          continue;
        }
      }
      result := result + [c];
    }
    assert Commas(content[|content|..], ModeOf(quote, escaped)) == "" by { CommasOfNothing(ModeOf(quote, escaped)); }
  }

  lemma CommasOfNothing(m: Mode)
    ensures Commas("", m) == ""
  {
  }

  // ----- when a second pass would find nothing more to do

  /** The first visible character of `s` is a comma that the pass removes. */
  predicate NextCommaGoes(s: string) {
    s != "" && if IsSpace(s[0]) then NextCommaGoes(s[1..]) else IsTrailing(s)
  }

  /** Outside literals, some kept comma is followed by one that goes. */
  predicate HasCommaRun(s: string, m: Mode) {
    s != "" && (
      || (m.Code? && s[0] == ',' && !IsTrailing(s) && NextCommaGoes(s[1..]))
      || HasCommaRun(s[1..], Following(s, m)))
  }

  lemma {:induction false} CommasShorten(s: string, m: Mode)
    ensures |Commas(s, m)| <= |s|
  {
    if s != "" {
      CommasShorten(s[1..], Code);
      CommasShorten(s[1..], Following(s, m));
    }
  }

  /** What a comma sees behind it once the pass has run over the rest. */
  lemma {:induction false} NextAfterPass(s: string)
    ensures var next := NextNonSpace(Commas(s, Code));
            if NextCommaGoes(s) then IsCloser(next) else next == NextNonSpace(s)
  {
    hide IsSpace;
    if s != "" {
      if IsSpace(s[0]) {
        SpaceIsKept(s[0]);
        NextAfterPass(s[1..]);
        assert Commas(s, Code) == [s[0]] + Commas(s[1..], Code);
        assert ([s[0]] + Commas(s[1..], Code))[1..] == Commas(s[1..], Code);
      } else if IsTrailing(s) {
        NextAfterPass(s[1..]);
        CloserIsNoComma(s[1..]);
      } else {
        assert Commas(s, Code)[0] == s[0];
      }
    }
  }

  lemma SpaceIsKept(c: char)
    requires IsSpace(c)
    ensures c != ',' && !IsQuote(c)
  {
  }

  lemma {:induction false} CloserIsNoComma(s: string)
    requires IsCloser(NextNonSpace(s))
    ensures !NextCommaGoes(s)
  {
    hide IsSpace;
    if s != "" && IsSpace(s[0]) {
      CloserIsNoComma(s[1..]);
    }
  }

  lemma FirstOfPass(s: string, m: Mode)
    requires s != "" && !(m.Code? && IsTrailing(s))
    ensures Commas(s, m) == [s[0]] + Commas(s[1..], Following(s, m))
  {
  }

  /**
   * A second pass changes nothing if and only if the text has no kept comma directly before a
   * removed one.
   */
  lemma {:induction false} CommasIdempotentIff(s: string, m: Mode)
    ensures Commas(Commas(s, m), m) == Commas(s, m) <==> !HasCommaRun(s, m)
  {
    hide NextNonSpace, NextCommaGoes;
    if s == "" {
    } else if m.Code? && IsTrailing(s) {
      CommasIdempotentIff(s[1..], Code);
    } else {
      var m' := Following(s, m);
      var tail := Commas(s[1..], m');
      var once := [s[0]] + tail;
      FirstOfPass(s, m);
      CommasIdempotentIff(s[1..], m');
      assert once[1..] == tail && Following(once, m) == m';
      if m.Code? && s[0] == ',' {
        NextAfterPass(s[1..]);
      }
      if m.Code? && IsTrailing(once) {
        CommasShorten(tail, Code);
        assert Commas(once, m) == Commas(tail, Code);
      } else {
        FirstOfPass(once, m);
        assert Commas(once, m) == [s[0]] + Commas(tail, m');
        assert Commas(once, m) == once <==> Commas(tail, m') == tail;
      }
    }
  }

  /** Two commas before a bracket: each pass removes one. */
  lemma SecondPassFindsMore()
    ensures Commas(",,]", Code) == ",]" && Commas(",]", Code) == "]"
  {
    assert ",,]"[1..] == ",]" && ",]"[1..] == "]" && "]"[1..] == "";
    assert NextNonSpace("]") == Some(']') && NextNonSpace(",]") == Some(',');
    assert Commas("", Code) == "";
    assert Commas("]", Code) == "]";
  }

  // ----- literals

  /** Nothing inside a string literal is touched. */
  lemma {:induction false} LiteralsSurvive(q: char, body: string, s: string)
    requires StaysOpen(q, body) && q != '\\'
    ensures Commas(body + [q] + s, Literal(q, false)) == body + [q] + Commas(s, Code)
    decreases |body|
  {
    hide Commas;
    var c := if body == "" then q else body[0];
    if body == "" {
      assert body + [q] + s == [q] + s && ([q] + s)[1..] == s;
      FirstOfPass([q] + s, Literal(q, false));
      assert body + [q] + Commas(s, Code) == [q] + Commas(s, Code);
    } else if body[0] == '\\' {
      var rest := body[2..] + [q] + s;
      var more := [body[1]] + rest;
      assert body + [q] + s == [body[0]] + more && ([body[0]] + more)[1..] == more && more[1..] == rest;
      FirstOfPass([body[0]] + more, Literal(q, false));
      FirstOfPass(more, Literal(q, true));
      LiteralsSurvive(q, body[2..], s);
      assert [body[0]] + ([body[1]] + (body[2..] + [q] + Commas(s, Code))) == body + [q] + Commas(s, Code);
    } else {
      var rest := body[1..] + [q] + s;
      assert body + [q] + s == [body[0]] + rest && ([body[0]] + rest)[1..] == rest;
      FirstOfPass([body[0]] + rest, Literal(q, false));
      LiteralsSurvive(q, body[1..], s);
      assert [body[0]] + (body[1..] + [q] + Commas(s, Code)) == body + [q] + Commas(s, Code);
    }
  }

  // ----- which commas go, in any text of literals and bare text

  datatype Token =
    | Bare(text: string)                    // without quotes
    | InQuotes(quote: char, body: string)   // a closed string literal

  predicate IsToken(g: Token) {
    match g
    case Bare(text) => forall i :: 0 <= i < |text| ==> text[i] != '"' && text[i] != '\''
    case InQuotes(q, body) => (q == '"' || q == '\'') && StaysOpen(q, body)
  }

  function TokenText(g: Token): string {
    match g
    case Bare(text) => text
    case InQuotes(q, body) => [q] + body + [q]
  }

  function TokensText(gs: seq<Token>): string {
    if gs == [] then "" else TokenText(gs[0]) + TokensText(gs[1..])
  }

  /** Only white space parts the start of `s` from a closing brace or bracket. */
  ghost predicate Closes(s: string) {
    exists k :: 0 <= k < |s| && (s[k] == '}' || s[k] == ']') && forall j :: 0 <= j < k ==> IsSpace(s[j])
  }

  /** `text`, followed by `rest`, without the commas that only white space parts from a closer. */
  ghost function WithoutTrailing(text: string, rest: string): string {
    if text == "" then ""
    else (if text[0] == ',' && Closes(text[1..] + rest) then "" else [text[0]]) + WithoutTrailing(text[1..], rest)
  }

  /** The tokens, followed by `rest`, without those commas; literals stay as they are. */
  ghost function TokensWithoutTrailing(gs: seq<Token>, rest: string): string {
    if gs == [] then ""
    else
      (match gs[0]
       case Bare(text) => WithoutTrailing(text, TokensText(gs[1..]) + rest)
       case InQuotes(q, body) => [q] + body + [q])
      + TokensWithoutTrailing(gs[1..], rest)
  }

  lemma {:induction false} ClosesIff(s: string)
    ensures Closes(s) <==> IsCloser(NextNonSpace(s))
  {
    hide IsSpace;
    if s != "" {
      ClosesIff(s[1..]);
      if IsSpace(s[0]) {
        SpaceIsNoCloser(s[0]);
        if Closes(s) {
          var k :| 0 <= k < |s| && (s[k] == '}' || s[k] == ']') && forall j :: 0 <= j < k ==> IsSpace(s[j]);
          assert s[1..][k - 1] == s[k] && forall j :: 0 <= j < k - 1 ==> IsSpace(s[1..][j]);
        }
        if Closes(s[1..]) {
          var k :| 0 <= k < |s[1..]| && (s[1..][k] == '}' || s[1..][k] == ']') && forall j :: 0 <= j < k ==> IsSpace(s[1..][j]);
          assert s[k + 1] == s[1..][k] && forall j :: 0 <= j < k + 1 ==> IsSpace(s[j]);
        }
      } else if s[0] == '}' || s[0] == ']' {
        assert Closes(s);
      }
    }
  }

  lemma SpaceIsNoCloser(c: char)
    requires IsSpace(c)
    ensures c != '}' && c != ']'
  {
  }

  lemma {:induction false} BareTokenPasses(text: string, s: string)
    requires IsToken(Bare(text))
    ensures Commas(text + s, Code) == WithoutTrailing(text, s) + Commas(s, Code)
  {
    hide Commas, Closes, NextNonSpace;
    if text == "" {
      assert text + s == s && "" + Commas(s, Code) == Commas(s, Code);
    } else {
      var all := text + s;
      assert all[0] == text[0] && all[1..] == text[1..] + s;
      BareTokenPasses(text[1..], s);
      ClosesIff(all[1..]);
      CommasHead(all);
    }
  }

  lemma CommasHead(s: string)
    requires s != "" && s[0] != '"' && s[0] != '\''
    ensures Commas(s, Code) == (if s[0] == ',' && IsCloser(NextNonSpace(s[1..])) then "" else [s[0]]) + Commas(s[1..], Code)
  {
  }

  lemma QuotedTokenPasses(q: char, body: string, s: string)
    requires IsToken(InQuotes(q, body))
    ensures Commas([q] + body + [q] + s, Code) == [q] + body + [q] + Commas(s, Code)
  {
    hide Commas;
    var rest := body + [q] + s;
    assert [q] + body + [q] + s == [q] + rest && ([q] + rest)[1..] == rest;
    FirstOfPass([q] + rest, Code);
    LiteralsSurvive(q, body, s);
    assert [q] + (body + [q] + Commas(s, Code)) == [q] + body + [q] + Commas(s, Code);
  }

  /**
   * In any text of literals and bare text the pass removes exactly the commas outside literals
   * whose next visible character is a closing brace or bracket.
   */
  lemma {:induction false} CommasRemovesExactlyTrailing(gs: seq<Token>, s: string)
    requires forall i :: 0 <= i < |gs| ==> IsToken(gs[i])
    ensures Commas(TokensText(gs) + s, Code) == TokensWithoutTrailing(gs, s) + Commas(s, Code)
  {
    hide Commas, IsToken, WithoutTrailing;
    if gs == [] {
      assert "" + s == s && "" + Commas(s, Code) == Commas(s, Code);
    } else {
      var rest := TokensText(gs[1..]) + s;
      assert TokensText(gs) + s == TokenText(gs[0]) + rest;
      CommasRemovesExactlyTrailing(gs[1..], s);
      match gs[0]
      case Bare(text) => BareTokenPasses(text, rest);
      case InQuotes(q, body) => QuotedTokenPasses(q, body, rest);
    }
  }
}
