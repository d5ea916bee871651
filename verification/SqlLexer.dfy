/**
 * The statement splitter of the D1 sync script: a character machine that cuts SQL text at the
 * semicolons outside quotes. The machine here reads one character at a time; the loop with its
 * one-character look-ahead is proved equal to it.
 */
module SqlLexer {
  import opened Options
  import opened Strings

  /** `Maybe(q)`: a closing `q` has just been read, unless another `q` doubles it. */
  datatype Mode = Plain | In(q: char) | Maybe(q: char)

  predicate IsQuote(c: char) { c == '\'' || c == '"' || c == '`' }

  function Open(c: char): Mode {
    if IsQuote(c) then In(c) else if c == '[' then In(']') else Plain
  }

  function Advance(m: Mode, c: char): Mode {
    match m
    case Plain => Open(c)
    case In(q) => if c != q then m else if q == ']' then Plain else Maybe(q)
    case Maybe(q) => if c == q then In(q) else Open(c)
  }

  /** Pieces cut so far, the text since the last cut, and the machine's mode. */
  datatype Lexer = Lexer(done: seq<string>, current: string, mode: Mode)

  function Empty(): Lexer { Lexer([], "", Plain) }

  function Feed(l: Lexer, c: char): Lexer {
    if c == ';' && !l.mode.In?
    then Lexer(l.done + [l.current + [c]], "", Plain)
    else Lexer(l.done, l.current + [c], Advance(l.mode, c))
  }

  function FeedAll(l: Lexer, s: string): Lexer
    decreases |s|
  {
    if s == "" then l else FeedAll(Feed(l, s[0]), s[1..])
  }

  function TrimmedPieces(pieces: seq<string>): (r: seq<string>)
    ensures forall i :: 0 <= i < |r| ==> r[i] != ""
  {
    if pieces == [] then []
    else
      var last := Trim(pieces[|pieces| - 1]);
      TrimmedPieces(pieces[..|pieces| - 1]) + if last == "" then [] else [last]
  }

  predicate EndsWithSemicolon(s: string) { s != "" && s[|s| - 1] == ';' }

  function Terminated(s: string): string {
    if EndsWithSemicolon(s) then s else s + ";"
  }

  function LastStatement(current: string): seq<string> {
    var remaining := Trim(current);
    if remaining == "" then [] else [Terminated(remaining)]
  }

  lemma PiecesAppend(pieces: seq<string>, piece: string)
    ensures TrimmedPieces(pieces + [piece]) == TrimmedPieces(pieces) + if Trim(piece) == "" then [] else [Trim(piece)]
  {
    assert (pieces + [piece])[..|pieces|] == pieces;
  }

  function Split(sql: string): seq<string> {
    var l := FeedAll(Empty(), sql);
    TrimmedPieces(l.done) + LastStatement(l.current)
  }

  // ----- the look-ahead loop

  lemma {:induction false} FeedConcat(l: Lexer, a: string, b: string)
    ensures FeedAll(l, a + b) == FeedAll(FeedAll(l, a), b)
    decreases |a|
  {
    if a == "" {
      assert a + b == b;
    } else {
      assert (a + b)[0] == a[0] && (a + b)[1..] == a[1..] + b;
      FeedConcat(Feed(l, a[0]), a[1..], b);
    }
  }

  lemma FeedOneMore(l: Lexer, s: string, i: nat)
    requires i < |s|
    ensures FeedAll(l, s[..i + 1]) == Feed(FeedAll(l, s[..i]), s[i])
  {
    assert s[..i + 1] == s[..i] + [s[i]];
    FeedConcat(l, s[..i], [s[i]]);
    assert FeedAll(FeedAll(l, s[..i]), [s[i]]) == FeedAll(Feed(FeedAll(l, s[..i]), s[i]), []);
  }

  /** The loop's `quote` variable says the same as the machine's mode, given what comes next. */
  ghost predicate Agrees(quote: Option<char>, mode: Mode, sql: string, i: nat) {
    match quote
    case Some(q) => mode == In(q) && (IsQuote(q) || q == ']')
    case None => mode.Plain? || (mode.Maybe? && (i < |sql| ==> sql[i] != mode.q))
  }

  lemma NothingYet(sql: string)
    ensures FeedAll(Empty(), sql[..0]) == Empty() && TrimmedPieces([]) == []
  {
  }

  method SplitSqlStatements(sql: string) returns (statements: seq<string>)
    ensures statements == Split(sql)
  {
    hide FeedAll, TrimmedPieces, Trim;
    assert FeedAll(Empty(), sql[..0]) == Empty() && TrimmedPieces([]) == [] by { NothingYet(sql); }
    statements := [];
    var current, quote: Option<char>, i := "", None, 0;
    ghost var l := Empty();
    while i < |sql|
      invariant i <= |sql| && l == FeedAll(Empty(), sql[..i])
      invariant statements == TrimmedPieces(l.done) && current == l.current
      invariant Agrees(quote, l.mode, sql, i)
    {
      var c := sql[i];
      FeedOneMore(Empty(), sql, i);
      l := Feed(l, c);
      current := current + [c];
      if quote.Some? {
        if quote == Some(']') && c == ']' {
          quote := None;
        } else if quote == Some(c) {
          if i + 1 < |sql| && sql[i + 1] == c {
            current := current + [sql[i + 1]];
            i := i + 1;
            FeedOneMore(Empty(), sql, i);
            l := Feed(l, c);
          } else {
            quote := None;
          }
        }
      } else if IsQuote(c) {
        quote := Some(c);
      } else if c == '[' {
        quote := Some(']');
      } else if c == ';' {
        PiecesAppend(l.done[..|l.done| - 1], current);
        assert l.done[..|l.done| - 1] + [current] == l.done;
        var statement := Trim(current);
        if statement != "" {
          statements := statements + [statement];
        }
        current := "";
      }
      i := i + 1;
    }
    assert sql[..i] == sql;
    var remaining := Trim(current);
    if remaining != "" {
      statements := statements + [if EndsWithSemicolon(remaining) then remaining else remaining + ";"];
    }
  }

  // ----- cutting is local

  /** Puts `p` before the first piece, or before the current text when nothing has been cut. */
  function Prefixed(p: string, l: Lexer): Lexer {
    if l.done == [] then l.(current := p + l.current) else l.(done := [p + l.done[0]] + l.done[1..])
  }

  lemma FeedPrefixed(p: string, l: Lexer, c: char)
    ensures Feed(Prefixed(p, l), c) == Prefixed(p, Feed(l, c))
  {
    assert p + l.current + [c] == p + (l.current + [c]);
    if l.done != [] {
      assert (l.done + [l.current + [c]])[1..] == l.done[1..] + [l.current + [c]];
      assert [p + l.done[0]] + l.done[1..] + [l.current + [c]] == [p + l.done[0]] + (l.done[1..] + [l.current + [c]]);
    }
  }

  lemma {:induction false} FeedAllPrefixed(p: string, l: Lexer, s: string)
    ensures FeedAll(Prefixed(p, l), s) == Prefixed(p, FeedAll(l, s))
    decreases |s|
  {
    if s != "" {
      FeedPrefixed(p, l, s[0]);
      FeedAllPrefixed(p, Feed(l, s[0]), s[1..]);
    }
  }

  function Earlier(pieces: seq<string>, l: Lexer): Lexer {
    l.(done := pieces + l.done)
  }

  lemma {:induction false} FeedAllEarlier(pieces: seq<string>, l: Lexer, s: string)
    ensures FeedAll(Earlier(pieces, l), s) == Earlier(pieces, FeedAll(l, s))
    decreases |s|
  {
    if s != "" {
      assert pieces + (l.done + [l.current + [s[0]]]) == pieces + l.done + [l.current + [s[0]]];
      assert Feed(Earlier(pieces, l), s[0]) == Earlier(pieces, Feed(l, s[0]));
      FeedAllEarlier(pieces, Feed(l, s[0]), s[1..]);
    }
  }

  /** Text that a fresh machine cuts once, at its very end. */
  ghost predicate IsPiece(t: string) {
    FeedAll(Empty(), t) == Lexer([t], "", Plain)
  }

  /** A statement: a piece without surrounding white space. */
  ghost predicate IsStatement(t: string) {
    IsPiece(t) && t != "" && !IsSpace(t[0])
  }

  /** For every text, each cut piece is a piece on its own, and the rest is cut nowhere. */
  lemma {:induction false} PiecesAreLocal(sql: string)
    ensures var l := FeedAll(Empty(), sql);
            && (forall i :: 0 <= i < |l.done| ==> IsPiece(l.done[i]))
            && FeedAll(Empty(), l.current) == Lexer([], l.current, l.mode)
  {
    if sql != "" {
      var n := |sql| - 1;
      var l := FeedAll(Empty(), sql[..n]);
      PiecesAreLocal(sql[..n]);
      FeedOneMore(Empty(), sql, n);
      assert sql[..n + 1] == sql;
      FeedConcat(Empty(), l.current, [sql[n]]);
      assert FeedAll(Lexer([], l.current, l.mode), [sql[n]]) == FeedAll(Feed(Lexer([], l.current, l.mode), sql[n]), []);
    }
  }

  lemma {:induction false} PieceEndsWithSemicolon(t: string)
    requires IsPiece(t)
    ensures EndsWithSemicolon(t)
  {
    if t != "" {
      var n := |t| - 1;
      FeedOneMore(Empty(), t, n);
      assert t[..n + 1] == t;
    }
  }
}
