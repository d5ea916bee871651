/**
 * What the statement splitter does to SQL text as SQL reads it: bare text, quotations with doubled
 * quotes, and bracketed names. Nothing here mentions the splitter's own modes.
 */
module SqlTokens {
  import opened Strings
  import opened SqlLexer
  import opened SqlScripts

  datatype Token =
    | Bare(text: string)                    // no quote, opening bracket or semicolon
    | InQuotes(quote: char, body: string)   // any body, its quotes doubled when written
    | InBrackets(body: string)              // no closing bracket

  predicate IsToken(t: Token) {
    match t
    case Bare(text) =>
      forall i :: 0 <= i < |text| ==>
        text[i] != '\'' && text[i] != '"' && text[i] != '`' && text[i] != '[' && text[i] != ';'
    case InQuotes(q, _) => q == '\'' || q == '"' || q == '`'
    case InBrackets(body) => forall i :: 0 <= i < |body| ==> body[i] != ']'
  }

  function DoubledBy(q: char, s: string): string {
    if s == "" then "" else (if s[0] == q then [q, q] else [s[0]]) + DoubledBy(q, s[1..])
  }

  function TokenText(t: Token): string {
    match t
    case Bare(text) => text
    case InQuotes(q, body) => [q] + DoubledBy(q, body) + [q]
    case InBrackets(body) => "[" + body + "]"
  }

  function TokensText(ts: seq<Token>): string {
    if ts == [] then "" else TokenText(ts[0]) + TokensText(ts[1..])
  }

  predicate AreTokens(ts: seq<Token>) { forall i :: 0 <= i < |ts| ==> IsToken(ts[i]) }

  /** Statements one after the other, each closed by a semicolon. */
  function ScriptText(statements: seq<seq<Token>>): string {
    if statements == [] then ""
    else ScriptText(statements[..|statements| - 1]) + TokensText(statements[|statements| - 1]) + ";"
  }

  // ----- the machine between tokens

  predicate IsQuiet(m: Mode) { m.Plain? || (m.Maybe? && (m.q == '\'' || m.q == '"' || m.q == '`')) }

  /** `text` is taken over as it is, and the machine is between tokens again. */
  ghost predicate TakesOver(l: Lexer, text: string) {
    var l' := FeedAll(l, text);
    l'.done == l.done && l'.current == l.current + text && IsQuiet(l'.mode)
  }

  lemma {:induction false} BareIsTaken(l: Lexer, text: string)
    requires IsQuiet(l.mode) && IsToken(Bare(text))
    ensures TakesOver(l, text)
    decreases |text|
  {
    if text == "" {
      assert l.current + text == l.current;
    } else {
      BareIsTaken(Feed(l, text[0]), text[1..]);
      assert l.current + [text[0]] + text[1..] == l.current + text;
    }
  }

  lemma FeedTwo(l: Lexer, c: char, d: char)
    ensures FeedAll(l, [c, d]) == Feed(Feed(l, c), d)
  {
    hide Feed;
    assert [c, d][1..] == [d];
    assert FeedAll(l, [c, d]) == FeedAll(Feed(l, c), [d]);
    FeedOne(Feed(l, c), d);
  }

  lemma {:induction false} BodyIsTaken(l: Lexer, q: char, body: string)
    requires l.mode == In(q) && IsToken(InQuotes(q, body))
    ensures FeedAll(l, DoubledBy(q, body)) == Lexer(l.done, l.current + DoubledBy(q, body), In(q))
    decreases |body|
  {
    hide FeedAll;
    if body == "" {
      FeedNothing(l);
      assert l.current + "" == l.current;
    } else {
      var head := if body[0] == q then [q, q] else [body[0]];
      if body[0] == q {
        FeedTwo(l, q, q);
      } else {
        FeedOne(l, body[0]);
      }
      assert l.current + [q] + [q] == l.current + [q, q];
      var l' := Lexer(l.done, l.current + head, In(q));
      assert FeedAll(l, head) == l';
      FeedConcat(l, head, DoubledBy(q, body[1..]));
      BodyIsTaken(l', q, body[1..]);
      assert l.current + head + DoubledBy(q, body[1..]) == l.current + (head + DoubledBy(q, body[1..]));
    }
  }

  lemma QuotesAreTaken(l: Lexer, q: char, body: string)
    requires IsQuiet(l.mode) && IsToken(InQuotes(q, body))
    ensures TakesOver(l, [q] + DoubledBy(q, body) + [q])
  {
    hide FeedAll;
    var inside := Lexer(l.done, l.current + [q], In(q));
    FeedOne(l, q);
    assert Feed(l, q) == inside;
    BodyIsTaken(inside, q, body);
    var after := Lexer(l.done, l.current + [q] + DoubledBy(q, body), In(q));
    FeedConcat(l, [q], DoubledBy(q, body));
    FeedConcat(l, [q] + DoubledBy(q, body), [q]);
    FeedOne(after, q);
    assert l.current + [q] + DoubledBy(q, body) + [q] == l.current + ([q] + DoubledBy(q, body) + [q]);
  }

  lemma {:induction false} NameIsTaken(l: Lexer, body: string)
    requires l.mode == In(']') && IsToken(InBrackets(body))
    ensures FeedAll(l, body) == Lexer(l.done, l.current + body, In(']'))
    decreases |body|
  {
    if body == "" {
      assert l.current + body == l.current;
    } else {
      NameIsTaken(Feed(l, body[0]), body[1..]);
      assert l.current + [body[0]] + body[1..] == l.current + body;
    }
  }

  lemma BracketsAreTaken(l: Lexer, body: string)
    requires IsQuiet(l.mode) && IsToken(InBrackets(body))
    ensures TakesOver(l, "[" + body + "]")
  {
    hide FeedAll;
    var inside := Lexer(l.done, l.current + "[", In(']'));
    FeedOne(l, '[');
    assert Feed(l, '[') == inside;
    NameIsTaken(inside, body);
    var after := Lexer(l.done, l.current + "[" + body, In(']'));
    FeedConcat(l, "[", body);
    FeedConcat(l, "[" + body, "]");
    FeedOne(after, ']');
    assert l.current + "[" + body + "]" == l.current + ("[" + body + "]");
  }

  lemma {:induction false} TokensAreTaken(l: Lexer, ts: seq<Token>)
    requires IsQuiet(l.mode) && AreTokens(ts)
    ensures TakesOver(l, TokensText(ts))
    decreases |ts|
  {
    hide FeedAll, IsToken, IsQuiet, TokenText;
    if ts == [] {
      FeedNothing(l);
      assert l.current + "" == l.current;
    } else {
      TokenIsTaken(l, ts[0]);
      TokensAreTaken(FeedAll(l, TokenText(ts[0])), ts[1..]);
      BothAreTaken(l, TokenText(ts[0]), TokensText(ts[1..]));
    }
  }

  lemma TokenIsTaken(l: Lexer, t: Token)
    requires IsQuiet(l.mode) && IsToken(t)
    ensures TakesOver(l, TokenText(t))
  {
    hide TakesOver, DoubledBy, IsQuiet, IsToken;
    match t
    case Bare(text) => BareIsTaken(l, text);
    case InQuotes(q, body) => QuotesAreTaken(l, q, body);
    case InBrackets(body) => BracketsAreTaken(l, body);
  }

  lemma BothAreTaken(l: Lexer, a: string, b: string)
    requires TakesOver(l, a) && TakesOver(FeedAll(l, a), b)
    ensures TakesOver(l, a + b)
  {
    hide FeedAll, IsQuiet;
    FeedConcat(l, a, b);
    assert l.current + a + b == l.current + (a + b);
  }

  // ----- statements

  function Texts(statements: seq<seq<Token>>): (r: seq<string>)
    ensures |r| == |statements| && forall i :: 0 <= i < |r| ==> r[i] == TokensText(statements[i]) + ";"
  {
    seq(|statements|, i requires 0 <= i < |statements| => TokensText(statements[i]) + ";")
  }

  lemma {:induction false} ScriptIsCut(statements: seq<seq<Token>>)
    requires forall i :: 0 <= i < |statements| ==> AreTokens(statements[i])
    ensures FeedAll(Empty(), ScriptText(statements)) == Lexer(Texts(statements), "", Plain)
  {
    hide FeedAll, AreTokens, TokensText;
    if statements == [] {
      FeedNothing(Empty());
    } else {
      var n := |statements| - 1;
      var text := TokensText(statements[n]);
      ScriptIsCut(statements[..n]);
      FeedConcat(Empty(), ScriptText(statements[..n]), text);
      FeedConcat(Empty(), ScriptText(statements[..n]) + text, ";");
      StatementIsCut(Texts(statements[..n]), statements[n]);
      assert Texts(statements) == Texts(statements[..n]) + [text + ";"];
    }
  }

  lemma StatementIsCut(done: seq<string>, ts: seq<Token>)
    requires AreTokens(ts)
    ensures FeedAll(FeedAll(Lexer(done, "", Plain), TokensText(ts)), ";") == Lexer(done + [TokensText(ts) + ";"], "", Plain)
  {
    hide FeedAll, AreTokens, TokensText;
    var l := Lexer(done, "", Plain);
    TokensAreTaken(l, ts);
    FeedOne(FeedAll(l, TokensText(ts)), ';');
    assert "" + TokensText(ts) == TokensText(ts);
  }

  /** The statements as they come out: trimmed, each with its semicolon. */
  function Trimmed(statements: seq<seq<Token>>): (r: seq<string>)
    ensures |r| == |statements| && forall i :: 0 <= i < |r| ==> r[i] == Trim(TokensText(statements[i]) + ";")
  {
    seq(|statements|, i requires 0 <= i < |statements| => Trim(TokensText(statements[i]) + ";"))
  }

  lemma TerminatedIsNotBlank(text: string)
    ensures Trim(text + ";") != ""
  {
    hide TrimStart, TrimEnd;
    var before, after := TrimSplits(text + ";");
    if Trim(text + ";") == "" {
      assert text + ";" == before + after;
      assert (text + ";")[|text|] == ';';
      SemicolonIsNoSpace();
    }
  }

  lemma SemicolonIsNoSpace()
    ensures !IsSpace(';')
  {
  }

  lemma {:induction false} PiecesAreTrimmed(statements: seq<seq<Token>>)
    ensures TrimmedPieces(Texts(statements)) == Trimmed(statements)
  {
    hide Trim, TrimmedPieces;
    if statements == [] {
      NothingYet("");
    } else {
      var n := |statements| - 1;
      PiecesAreTrimmed(statements[..n]);
      TerminatedIsNotBlank(TokensText(statements[n]));
      PiecesAppend(Texts(statements[..n]), TokensText(statements[n]) + ";");
      assert Texts(statements) == Texts(statements[..n]) + [TokensText(statements[n]) + ";"];
      assert Trimmed(statements) == Trimmed(statements[..n]) + [Trim(TokensText(statements[n]) + ";")];
    }
  }

  /**
   * Splitting gives exactly the statements, whatever semicolons, brackets and quotes their
   * quotations and names contain; text after the last semicolon becomes a statement of its own
   * unless it is blank.
   */
  lemma SplitGivesTheStatements(statements: seq<seq<Token>>, last: seq<Token>)
    requires (forall i :: 0 <= i < |statements| ==> AreTokens(statements[i])) && AreTokens(last)
    ensures var rest := Trim(TokensText(last));
            Split(ScriptText(statements) + TokensText(last))
            == Trimmed(statements)
               + if rest == "" then [] else if rest[|rest| - 1] == ';' then [rest] else [rest + ";"]
  {
    hide FeedAll, Trim, TrimmedPieces, AreTokens;
    ScriptIsCut(statements);
    var l := Lexer(Texts(statements), "", Plain);
    TokensAreTaken(l, last);
    FeedConcat(Empty(), ScriptText(statements), TokensText(last));
    PiecesAreTrimmed(statements);
    assert "" + TokensText(last) == TokensText(last);
  }
}
