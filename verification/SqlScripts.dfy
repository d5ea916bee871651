/**
 * The two scripts that the D1 sync writes, read back by its own splitter: the reset script for
 * any object names, and the import script for any dump.
 */
module SqlScripts {
  import opened Options
  import opened Sorting
  import opened Strings
  import opened Quoting
  import opened SqlLexer
  import opened DropOrder

  // ----- trimming

  ghost predicate AllSpace(s: string) { forall i :: 0 <= i < |s| ==> IsSpace(s[i]) }

  ghost predicate Tight(t: string) { t != "" && !IsSpace(t[0]) && !IsSpace(t[|t| - 1]) }

  lemma TrimUndoesPadding(before: string, t: string, after: string)
    requires AllSpace(before) && AllSpace(after) && Tight(t)
    ensures Trim(before + t + after) == t
  {
    hide IsSpace;
    var s := before + t + after;
    var start := TrimStart(s);
    assert s[|before|] == t[0];
    assert forall i :: 0 <= i < |before| ==> s[i] == before[i];
    assert |s| - |start| == |before|;
    assert start == t + after;
    var end := TrimEnd(start);
    assert start[|t| - 1] == t[|t| - 1];
    assert forall i :: |t| <= i < |start| ==> start[i] == after[i - |t|];
    assert |end| == |t|;
  }

  /** Any text is its trimmed core between white space. */
  lemma TrimSplits(s: string) returns (before: string, after: string)
    ensures AllSpace(before) && AllSpace(after)
    ensures s == before + Trim(s) + after
    ensures Trim(s) != "" ==> Tight(Trim(s))
  {
    hide IsSpace, TrimStart, TrimEnd;
    var start := TrimStart(s);
    before := s[..|s| - |start|];
    after := start[|Trim(s)|..];
    assert start == Trim(s) + after;
    assert s == before + start;
  }

  /** Only real quote characters ever open a quotation. */
  predicate Sound(m: Mode) { m.Plain? || IsQuote(m.q) || m.q == ']' }

  lemma {:induction false} FeedKeepsSound(l: Lexer, s: string)
    requires Sound(l.mode)
    ensures Sound(FeedAll(l, s).mode)
    decreases |s|
  {
    if s != "" {
      FeedKeepsSound(Feed(l, s[0]), s[1..]);
    }
  }

  lemma SpaceAdvances(m: Mode, c: char)
    requires Sound(m) && IsSpace(c)
    ensures c != ';' && Advance(m, c) == if m.In? then m else Plain
  {
  }

  lemma {:induction false} FeedSpaces(l: Lexer, s: string)
    requires AllSpace(s) && Sound(l.mode)
    ensures FeedAll(l, s) == Lexer(l.done, l.current + s, if l.mode.In? || s == "" then l.mode else Plain)
    decreases |s|
  {
    hide IsSpace;
    if s == "" {
      assert l.current + s == l.current;
    } else {
      SpaceAdvances(l.mode, s[0]);
      assert l.current + [s[0]] + s[1..] == l.current + s;
      FeedSpaces(Feed(l, s[0]), s[1..]);
    }
  }

  // ----- joining statements

  ghost predicate AllStatements(ts: seq<string>) { forall i :: 0 <= i < |ts| ==> IsStatement(ts[i]) }

  /** The raw pieces that the splitter sees: every statement but the first comes after a line break. */
  function RawPieces(ts: seq<string>): (r: seq<string>)
    ensures |r| == |ts|
  {
    if ts == [] then [] else RawPieces(ts[..|ts| - 1]) + [(if |ts| == 1 then "" else "\n") + ts[|ts| - 1]]
  }

  lemma StatementIsTight(t: string)
    requires IsStatement(t)
    ensures Tight(t)
  {
    PieceEndsWithSemicolon(t);
  }

  lemma FeedPadded(before: string, t: string)
    requires AllSpace(before)
    ensures FeedAll(Empty(), before + t) == Prefixed(before, FeedAll(Empty(), t))
  {
    FeedConcat(Empty(), before, t);
    FeedSpaces(Empty(), before);
    assert "" + before == before && before + "" == before;
    assert Prefixed(before, Empty()) == Lexer([], before, Plain);
    FeedAllPrefixed(before, Empty(), t);
  }

  lemma {:induction false} FeedJoined(ts: seq<string>)
    requires AllStatements(ts)
    ensures FeedAll(Empty(), JoinLines(ts)) == Lexer(RawPieces(ts), "", Plain)
  {
    hide FeedAll, IsSpace;
    if ts == [] {
      NothingYet("");
    } else {
      var n := |ts| - 1;
      var t := ts[n];
      if n == 0 {
        assert "" + t == t;
        assert RawPieces(ts[..0]) == [];
        assert RawPieces(ts) == [t];
        assert IsStatement(t);
      } else {
        assert AllStatements(ts[..n]);
        FeedJoined(ts[..n]);
        FeedLineAfter(RawPieces(ts[..n]), t);
        FeedConcat(Empty(), JoinLines(ts[..n]), "\n" + t);
        assert JoinLines(ts) == JoinLines(ts[..n]) + ("\n" + t);
      }
    }
  }

  lemma FeedLineAfter(pieces: seq<string>, t: string)
    requires IsStatement(t)
    ensures FeedAll(Lexer(pieces, "", Plain), "\n" + t) == Lexer(pieces + ["\n" + t], "", Plain)
  {
    assert pieces + [] == pieces;
    assert Earlier(pieces, Empty()) == Lexer(pieces, "", Plain);
    FeedAllEarlier(pieces, Empty(), "\n" + t);
    FeedPadded("\n", t);
    assert ["\n" + t] + [t][1..] == ["\n" + t];
  }

  lemma LineBreakIsSpace()
    ensures IsSpace('\n')
  {
  }

  lemma {:induction false} TrimRawPieces(ts: seq<string>)
    requires AllStatements(ts)
    ensures TrimmedPieces(RawPieces(ts)) == ts
  {
    hide Trim, IsStatement, IsSpace, TrimmedPieces;
    if ts == [] {
      assert TrimmedPieces([]) == [] by { NothingYet(""); }
    } else {
      var n := |ts| - 1;
      assert AllStatements(ts[..n]);
      var pad := if n == 0 then "" else "\n";
      TrimRawPieces(ts[..n]);
      StatementIsTight(ts[n]);
      assert AllSpace(pad) by { LineBreakIsSpace(); }
      TrimUndoesPadding(pad, ts[n], "");
      assert pad + ts[n] + "" == pad + ts[n];
      PiecesAppend(RawPieces(ts[..n]), pad + ts[n]);
      assert ts == ts[..n] + [ts[n]];
    }
  }

  /** Splitting undoes joining, with or without a final line break. */
  lemma SplitUndoesJoin(ts: seq<string>)
    requires AllStatements(ts)
    ensures Split(JoinLines(ts)) == ts
    ensures Split(JoinLines(ts) + "\n") == ts
  {
    hide FeedAll, Trim, TrimmedPieces, LastStatement, IsStatement, JoinLines, RawPieces;
    FeedJoined(ts);
    TrimRawPieces(ts);
    FeedConcat(Empty(), JoinLines(ts), "\n");
    var l := Lexer(RawPieces(ts), "", Plain);
    FeedSpaces(l, "\n");
    assert "" + "\n" == "\n";
    NothingLeft("");
    NothingLeft("\n");
    assert ts + [] == ts;
  }

  lemma NothingLeft(s: string)
    requires AllSpace(s)
    ensures LastStatement(s) == []
  {
    hide IsSpace;
    var start := TrimStart(s);
    assert start == s[|s| - |start|..];
  }

  // ----- the reset script

  function QuoteIdentifier(name: string): string {
    "\"" + Doubled(name) + "\""
  }

  function KindName(kind: Kind): string {
    match kind
    case View => "VIEW" case Trigger => "TRIGGER" case Index => "INDEX" case Table => "TABLE"
  }

  function DropStatement(o: D1Object): string {
    "DROP " + KindName(o.kind) + " IF EXISTS " + QuoteIdentifier(o.name) + ";"
  }

  const FOREIGN_KEYS_OFF := "PRAGMA foreign_keys = OFF;"
  const FOREIGN_KEYS_ON := "PRAGMA foreign_keys = ON;"

  function DropStatements(objects: seq<D1Object>): (r: seq<string>)
    ensures |r| == |objects| && forall i :: 0 <= i < |r| ==> r[i] == DropStatement(objects[i])
  {
    seq(|objects|, i requires 0 <= i < |objects| => DropStatement(objects[i]))
  }

  function ResetStatements(objects: seq<D1Object>): seq<string> {
    [FOREIGN_KEYS_OFF] + DropStatements(objects) + [FOREIGN_KEYS_ON]
  }

  /** The text of the reset script for objects already in drop order. */
  function ResetSql(objects: seq<D1Object>): string {
    JoinLines(ResetStatements(objects)) + "\n"
  }

  /** Free of anything the splitter reacts to. */
  predicate IsPlain(s: string) {
    forall i :: 0 <= i < |s| ==> Open(s[i]).Plain? && s[i] != ';'
  }

  lemma {:induction false} FeedPlain(l: Lexer, s: string)
    requires l.mode.Plain? && IsPlain(s)
    ensures FeedAll(l, s) == Lexer(l.done, l.current + s, Plain)
    decreases |s|
  {
    if s == "" {
      assert l.current + s == l.current;
    } else {
      assert l.current + [s[0]] + s[1..] == l.current + s;
      FeedPlain(Feed(l, s[0]), s[1..]);
    }
  }

  /** Inside double quotes a doubled name is read as text, whatever it contains. */
  lemma {:induction false} FeedDoubled(l: Lexer, name: string)
    requires l.mode == In('"')
    ensures FeedAll(l, Doubled(name)) == Lexer(l.done, l.current + Doubled(name), In('"'))
    decreases |name|
  {
    hide FeedAll;
    if name == "" {
      FeedNothing(l);
      assert l.current + "" == l.current;
    } else {
      var head := if name[0] == '"' then "\"\"" else [name[0]];
      FeedConcat(l, head, Doubled(name[1..]));
      FeedHead(l, name[0]);
      assert l.current + head + Doubled(name[1..]) == l.current + (head + Doubled(name[1..]));
      FeedDoubled(Lexer(l.done, l.current + head, In('"')), name[1..]);
    }
  }

  lemma FeedNothing(l: Lexer)
    ensures FeedAll(l, "") == l
  {
  }

  lemma FeedHead(l: Lexer, c: char)
    requires l.mode == In('"')
    ensures var head := if c == '"' then "\"\"" else [c];
            FeedAll(l, head) == Lexer(l.done, l.current + head, In('"'))
  {
    if c == '"' {
      assert "\"\""[1..] == "\"" && "\""[1..] == "";
      assert l.current + ['"'] + ['"'] == l.current + "\"\"";
      assert FeedAll(l, "\"\"") == FeedAll(Feed(l, '"'), "\"");
      assert FeedAll(Feed(l, '"'), "\"") == FeedAll(Feed(Feed(l, '"'), '"'), "");
    } else {
      assert FeedAll(l, [c]) == FeedAll(Feed(l, c), "");
    }
  }

  lemma FeedOne(l: Lexer, c: char)
    ensures FeedAll(l, [c]) == Feed(l, c)
  {
    assert FeedAll(l, [c]) == FeedAll(Feed(l, c), [c][1..]);
  }

  lemma QuotedIsStatement(prefix: string, name: string)
    requires IsPlain(prefix) && prefix != "" && !IsSpace(prefix[0])
    ensures IsStatement(prefix + QuoteIdentifier(name) + ";")
  {
    hide FeedAll, IsSpace, IsPlain;
    var begun := prefix + "\"";
    var named := begun + Doubled(name);
    var closed := named + "\"";
    var whole := closed + ";";
    assert whole == prefix + QuoteIdentifier(name) + ";";
    assert "" + prefix == prefix;
    FeedPlain(Empty(), prefix);
    FeedConcat(Empty(), prefix, "\"");
    FeedOne(Lexer([], prefix, Plain), '"');
    assert FeedAll(Empty(), begun) == Lexer([], begun, In('"'));
    FeedConcat(Empty(), begun, Doubled(name));
    FeedDoubled(Lexer([], begun, In('"')), name);
    FeedConcat(Empty(), named, "\"");
    FeedOne(Lexer([], named, In('"')), '"');
    assert FeedAll(Empty(), closed) == Lexer([], closed, Maybe('"'));
    FeedConcat(Empty(), closed, ";");
    FeedOne(Lexer([], closed, Maybe('"')), ';');
    assert whole[0] == prefix[0];
  }

  lemma PlainIsStatement(prefix: string)
    requires IsPlain(prefix) && prefix != "" && !IsSpace(prefix[0])
    ensures IsStatement(prefix + ";")
  {
    hide FeedAll, IsSpace, IsPlain;
    FeedPlain(Empty(), prefix);
    assert "" + prefix == prefix;
    FeedConcat(Empty(), prefix, ";");
    FeedOne(Lexer([], prefix, Plain), ';');
  }

  lemma DropIsStatement(o: D1Object)
    ensures IsStatement(DropStatement(o))
  {
    hide QuoteIdentifier, IsStatement;
    var prefix := "DROP " + KindName(o.kind) + " IF EXISTS ";
    QuotedIsStatement(prefix, o.name);
  }

  lemma PragmasAreStatements()
    ensures IsStatement(FOREIGN_KEYS_OFF) && IsStatement(FOREIGN_KEYS_ON)
  {
    hide IsStatement;
    PlainIsStatement("PRAGMA foreign_keys = OFF");
    PlainIsStatement("PRAGMA foreign_keys = ON");
    assert "PRAGMA foreign_keys = OFF" + ";" == FOREIGN_KEYS_OFF;
    assert "PRAGMA foreign_keys = ON" + ";" == FOREIGN_KEYS_ON;
  }

  /** Reads a drop statement: the kind of object and its name. */
  function ReadDrop(text: string): Option<(Kind, string)> {
    if "DROP " <= text then ReadKind(text[5..]) else None
  }

  function ReadKind(s: string): Option<(Kind, string)> {
    if "VIEW" <= s then ReadName(View, s[4..])
    else if "TRIGGER" <= s then ReadName(Trigger, s[7..])
    else if "INDEX" <= s then ReadName(Index, s[5..])
    else if "TABLE" <= s then ReadName(Table, s[5..])
    else None
  }

  /** The quoted name, which only a semicolon follows. */
  function ReadName(kind: Kind, s: string): Option<(Kind, string)> {
    if " IF EXISTS \"" <= s then
      match ReadQuoted(s[12..])
      case Some(Read(name, rest)) => if rest == ";" then Some((kind, name)) else None
      case None => None
    else None
  }

  lemma Behind(a: string, b: string)
    ensures a <= a + b && (a + b)[|a|..] == b
  {
  }

  lemma NameReadsBack(kind: Kind, name: string)
    ensures ReadName(kind, " IF EXISTS \"" + (Doubled(name) + "\"" + ";")) == Some((kind, name))
  {
    hide ReadQuoted, Doubled;
    Behind(" IF EXISTS \"", Doubled(name) + "\"" + ";");
    QuotedReadsBack(name, ";");
  }

  lemma KindReadsBack(kind: Kind, s: string)
    ensures ReadKind(KindName(kind) + s) == ReadName(kind, s)
  {
    hide ReadName;
    Behind(KindName(kind), s);
    var all := KindName(kind) + s;
    assert all[0] == KindName(kind)[0] && all[1] == KindName(kind)[1];
  }

  lemma DropText(o: D1Object)
    ensures DropStatement(o) == "DROP " + (KindName(o.kind) + (" IF EXISTS \"" + (Doubled(o.name) + "\"" + ";")))
  {
    hide Doubled, KindName;
    var a, d := "DROP " + KindName(o.kind), Doubled(o.name) + "\"" + ";";
    assert "\"" + Doubled(o.name) + "\"" + ";" == "\"" + d;
    assert a + " IF EXISTS " + ("\"" + d) == a + (" IF EXISTS \"" + d);
  }

  /** Whatever its name contains, a drop statement names exactly its object. */
  lemma DropReadsBack(o: D1Object)
    ensures ReadDrop(DropStatement(o)) == Some((o.kind, o.name))
  {
    hide DropStatement, ReadKind, ReadName, Doubled, KindName;
    var tail := " IF EXISTS \"" + (Doubled(o.name) + "\"" + ";");
    DropText(o);
    Behind("DROP ", KindName(o.kind) + tail);
    KindReadsBack(o.kind, tail);
    NameReadsBack(o.kind, o.name);
  }

  /**
   * The reset script: between switching foreign keys off and on again, its statements name exactly
   * the objects, one each, in an order in which they can be dropped.
   */
  ghost predicate Resets(sql: string, objects: seq<D1Object>, nameLe: (string, string) -> bool, ordered: seq<D1Object>) {
    IsObjectOrder(objects, nameLe, ordered) && DropsEach(Split(sql), ordered)
  }

  ghost predicate DropsEach(found: seq<string>, ordered: seq<D1Object>) {
    && |found| == |ordered| + 2
    && found[0] == "PRAGMA foreign_keys = OFF;" && found[|found| - 1] == "PRAGMA foreign_keys = ON;"
    && forall i :: 0 <= i < |ordered| ==> ReadDrop(found[i + 1]) == Some((ordered[i].kind, ordered[i].name))
  }

  lemma ResetDropsEach(ordered: seq<D1Object>)
    ensures DropsEach(ResetStatements(ordered), ordered)
  {
    hide DropStatement, ReadDrop;
    var found := ResetStatements(ordered);
    assert found[0] == FOREIGN_KEYS_OFF && found[|found| - 1] == FOREIGN_KEYS_ON;
    forall i | 0 <= i < |ordered| ensures ReadDrop(found[i + 1]) == Some((ordered[i].kind, ordered[i].name)) {
      assert found[i + 1] == DropStatement(ordered[i]);
      DropReadsBack(ordered[i]);
    }
  }

  method WriteResetSql(objects: seq<D1Object>, nameLe: (string, string) -> bool) returns (sql: string)
    ensures exists ordered :: Resets(sql, objects, nameLe, ordered)
  {
    hide IsObjectOrder, Split, DropsEach, ResetStatements, ResetSql;
    var ordered := OrderObjectsForDrop(objects, nameLe);
    sql := ResetSql(ordered);
    ResetScriptSplitsBack(ordered);
    ResetDropsEach(ordered);
    assert Resets(sql, objects, nameLe, ordered);
  }

  /** For all object names, splitting the reset script gives back exactly its statements. */
  lemma ResetScriptSplitsBack(objects: seq<D1Object>)
    ensures Split(ResetSql(objects)) == ResetStatements(objects)
  {
    hide IsStatement, DropStatement, Split, JoinLines;
    PragmasAreStatements();
    forall i | 0 <= i < |objects| ensures IsStatement(DropStatement(objects[i])) {
      DropIsStatement(objects[i]);
    }
    SplitUndoesJoin(ResetStatements(objects));
  }

  // ----- the import script

  datatype Class = Pragma | TableDefinition | Data | AfterData | Other

  function Collapse(s: string): string {
    if s == "" then ""
    else if !IsSpace(s[0]) then [s[0]] + Collapse(s[1..])
    else if |s| > 1 && IsSpace(s[1]) then Collapse(s[1..])
    else " " + Collapse(s[1..])
  }

  /** `upper` is the host's upper-casing. */
  function Classify(upper: string -> string, statement: string): Class {
    ClassOfHead(upper(Collapse(TrimStart(statement))))
  }

  function ClassOfHead(normalized: string): Class {
    if "PRAGMA " <= normalized then Pragma
    else if "CREATE TABLE " <= normalized then TableDefinition
    else if "INSERT INTO " <= normalized then Data
    else if "CREATE " <= normalized then AfterData
    else Other
  }

  function Classifier(upper: string -> string): string -> Class {
    (statement: string) => Classify(upper, statement)
  }

  function ClassIs(classOf: string -> Class, kind: Class): string -> bool {
    (statement: string) => classOf(statement) == kind
  }

  function OfClass(classOf: string -> Class, statements: seq<string>, kind: Class): seq<string> {
    Filter(statements, ClassIs(classOf, kind))
  }

  lemma OfClassIsUniform(classOf: string -> Class, statements: seq<string>, kind: Class)
    ensures forall t :: t in OfClass(classOf, statements, kind) ==> classOf(t) == kind
  {
    forall t | t in OfClass(classOf, statements, kind) ensures classOf(t) == kind {
      FilterMembers(statements, ClassIs(classOf, kind), t);
    }
  }

  function ImportStatements(classOf: string -> Class, statements: seq<string>): seq<string> {
    [FOREIGN_KEYS_OFF] + Sorted(classOf, statements) + [FOREIGN_KEYS_ON]
  }

  function Sorted(classOf: string -> Class, statements: seq<string>): seq<string> {
    OfClass(classOf, statements, Pragma)
    + OfClass(classOf, statements, TableDefinition)
    + OfClass(classOf, statements, Other)
    + OfClass(classOf, statements, Data)
    + OfClass(classOf, statements, AfterData)
  }

  lemma OfClassStep(classOf: string -> Class, statements: seq<string>, i: nat, kind: Class)
    requires i < |statements|
    ensures OfClass(classOf, statements[..i + 1], kind)
            == OfClass(classOf, statements[..i], kind) + if classOf(statements[i]) == kind then [statements[i]] else []
  {
    assert statements[..i + 1] == statements[..i] + [statements[i]];
    FilterConcat(statements[..i], [statements[i]], ClassIs(classOf, kind));
  }

  /** The place of a statement in the script, by how its collapsed upper-cased text starts. */
  function Place(upper: string -> string, statement: string): nat {
    PlaceOfHead(upper(Collapse(TrimStart(statement))))
  }

  function PlaceOfHead(head: string): nat {
    if "PRAGMA " <= head then 0
    else if "CREATE TABLE " <= head then 1
    else if "INSERT INTO " <= head then 3
    else if "CREATE " <= head then 4
    else 2
  }

  function PlaceIs(upper: string -> string, place: nat): string -> bool {
    (statement: string) => Place(upper, statement) == place
  }

  /** The statements, each exactly once, by place, and in their own order within each place. */
  ghost predicate IsImportBody(upper: string -> string, statements: seq<string>, body: seq<string>) {
    && multiset(body) == multiset(statements)
    && (forall i, j :: 0 <= i < j < |body| ==> Place(upper, body[i]) <= Place(upper, body[j]))
    && (forall place: nat :: Filter(body, PlaceIs(upper, place)) == Filter(statements, PlaceIs(upper, place)))
  }

  lemma PlaceOfClass(upper: string -> string, statement: string)
    ensures Place(upper, statement) == Rank(Classify(upper, statement))
  {
    hide Collapse, TrimStart, ClassOfHead, PlaceOfHead;
    PlacesAgree(upper(Collapse(TrimStart(statement))));
  }

  lemma PlacesAgree(head: string)
    ensures PlaceOfHead(head) == Rank(ClassOfHead(head))
  {
  }

  lemma FilterByPlace(upper: string -> string, xs: seq<string>, place: nat)
    ensures Filter(xs, PlaceIs(upper, place)) ==
              match place
              case 0 => OfClass(Classifier(upper), xs, Pragma)
              case 1 => OfClass(Classifier(upper), xs, TableDefinition)
              case 2 => OfClass(Classifier(upper), xs, Other)
              case 3 => OfClass(Classifier(upper), xs, Data)
              case 4 => OfClass(Classifier(upper), xs, AfterData)
              case _ => []
  {
    hide Filter, Classify, Place;
    forall x ensures Place(upper, x) == Rank(Classify(upper, x)) {
      PlaceOfClass(upper, x);
    }
    match place
    case 0 => FilterAgrees(xs, PlaceIs(upper, place), ClassIs(Classifier(upper), Pragma));
    case 1 => FilterAgrees(xs, PlaceIs(upper, place), ClassIs(Classifier(upper), TableDefinition));
    case 2 => FilterAgrees(xs, PlaceIs(upper, place), ClassIs(Classifier(upper), Other));
    case 3 => FilterAgrees(xs, PlaceIs(upper, place), ClassIs(Classifier(upper), Data));
    case 4 => FilterAgrees(xs, PlaceIs(upper, place), ClassIs(Classifier(upper), AfterData));
    case _ => FilterOfUniform(xs, PlaceIs(upper, place), false);
  }

  lemma SortedIsImportBody(upper: string -> string, statements: seq<string>)
    ensures IsImportBody(upper, statements, Sorted(Classifier(upper), statements))
  {
    hide Filter, Classify, Place, Sorted, OfClass, Rank;
    var classOf := Classifier(upper);
    var body := Sorted(classOf, statements);
    var script := ImportStatements(classOf, statements);
    assert script[1..|script| - 1] == body;
    ClassesPartition(classOf, statements);
    forall i: nat, j: nat | i < j < |body| ensures Place(upper, body[i]) <= Place(upper, body[j]) {
      ImportOrdersClasses(classOf, statements, i + 1, j + 1);
      assert script[i + 1] == body[i] && script[j + 1] == body[j];
      PlaceOfClass(upper, body[i]);
      PlaceOfClass(upper, body[j]);
    }
    forall place: nat ensures Filter(body, PlaceIs(upper, place)) == Filter(statements, PlaceIs(upper, place)) {
      FilterByPlace(upper, body, place);
      FilterByPlace(upper, statements, place);
      forall kind ensures OfClass(classOf, body, kind) == OfClass(classOf, statements, kind) {
        ImportKeepsClassOrder(classOf, statements, kind);
      }
    }
  }

  // ----- collapsing white space

  lemma {:induction false} CollapseWord(s: string)
    requires forall i :: 0 <= i < |s| ==> !IsSpace(s[i])
    ensures Collapse(s) == s
  {
    hide IsSpace;
    if s != "" {
      CollapseWord(s[1..]);
    }
  }

  lemma {:induction false} CollapseGap(gap: string, s: string)
    requires gap != "" && AllSpace(gap) && (s == "" || !IsSpace(s[0]))
    ensures Collapse(gap + s) == " " + Collapse(s)
  {
    hide IsSpace;
    var all := gap + s;
    assert all[0] == gap[0] && all[1..] == gap[1..] + s;
    if |gap| > 1 {
      assert all[1] == gap[1];
      CollapseGap(gap[1..], s);
    } else {
      assert gap[1..] + s == s;
    }
  }

  /** Each maximal run of white space becomes one space, and nothing else changes. */
  lemma {:induction false} CollapseRuns(word: string, gap: string, s: string)
    requires forall i :: 0 <= i < |word| ==> !IsSpace(word[i])
    requires gap != "" && AllSpace(gap) && (s == "" || !IsSpace(s[0]))
    ensures Collapse(word + gap + s) == word + " " + Collapse(s)
  {
    hide IsSpace;
    if word == "" {
      assert word + gap + s == gap + s;
      CollapseGap(gap, s);
    } else {
      var all := word + gap + s;
      assert all[0] == word[0] && all[1..] == word[1..] + gap + s;
      CollapseRuns(word[1..], gap, s);
      assert [word[0]] + (word[1..] + " " + Collapse(s)) == word + " " + Collapse(s);
    }
  }

  /**
   * The import script: foreign keys off, then pragmas, table definitions, statements of no other
   * kind, inserts and the remaining definitions, then foreign keys on.
   */
  ghost predicate IsImportScript(upper: string -> string, statements: seq<string>, body: seq<string>, importSql: string) {
    && IsImportBody(upper, statements, body)
    && importSql == JoinLines(["PRAGMA foreign_keys = OFF;"] + body + ["PRAGMA foreign_keys = ON;"])
  }

  method BuildLocalImportSql(dumpSql: string, upper: string -> string) returns (importSql: string)
    ensures exists body :: IsImportScript(upper, Split(dumpSql), body, importSql)
    ensures importSql == JoinLines(ImportStatements(Classifier(upper), Split(dumpSql)))
  {
    hide Split, OfClass, JoinLines, Classify, IsImportBody;
    var classOf := Classifier(upper);
    var pragmas: seq<string>, tables: seq<string>, data: seq<string>, after: seq<string>, others: seq<string> := [], [], [], [], [];
    var statements := SplitSqlStatements(dumpSql);
    assert forall kind :: OfClass(classOf, statements[..0], kind) == [] by { OfClassOfNothing(classOf, statements); }
    for i := 0 to |statements|
      invariant pragmas == OfClass(classOf, statements[..i], Pragma)
      invariant tables == OfClass(classOf, statements[..i], TableDefinition)
      invariant data == OfClass(classOf, statements[..i], Data)
      invariant after == OfClass(classOf, statements[..i], AfterData)
      invariant others == OfClass(classOf, statements[..i], Other)
    {
      forall kind ensures OfClass(classOf, statements[..i + 1], kind)
        == OfClass(classOf, statements[..i], kind) + if classOf(statements[i]) == kind then [statements[i]] else []
      {
        OfClassStep(classOf, statements, i, kind);
      }
      match classOf(statements[i])
      case Pragma => pragmas := pragmas + [statements[i]];
      case TableDefinition => tables := tables + [statements[i]];
      case Data => data := data + [statements[i]];
      case AfterData => after := after + [statements[i]];
      case Other => others := others + [statements[i]];
    }
    assert statements[..|statements|] == statements;
    importSql := JoinLines([FOREIGN_KEYS_OFF] + (pragmas + tables + others + data + after) + [FOREIGN_KEYS_ON]);
    SortedIsImportBody(upper, statements);
    assert IsImportScript(upper, statements, Sorted(classOf, statements), importSql);
  }

  lemma OfClassOfNothing(classOf: string -> Class, statements: seq<string>)
    ensures forall kind :: OfClass(classOf, statements[..0], kind) == []
  {
  }

  lemma ClassesPartition(classOf: string -> Class, statements: seq<string>)
    ensures multiset(Sorted(classOf, statements)) == multiset(statements)
  {
    hide Filter;
    forall t ensures multiset(Sorted(classOf, statements))[t] == multiset(statements)[t] {
      FilterCount(statements, ClassIs(classOf, Pragma), t);
      FilterCount(statements, ClassIs(classOf, TableDefinition), t);
      FilterCount(statements, ClassIs(classOf, Other), t);
      FilterCount(statements, ClassIs(classOf, Data), t);
      FilterCount(statements, ClassIs(classOf, AfterData), t);
    }
  }

  /** Nothing of the dump is lost, duplicated or invented: two pragmas are added. */
  lemma ImportKeepsEveryStatement(classOf: string -> Class, statements: seq<string>)
    ensures multiset(ImportStatements(classOf, statements))
            == multiset(statements) + multiset{FOREIGN_KEYS_OFF, FOREIGN_KEYS_ON}
  {
    hide Sorted;
    ClassesPartition(classOf, statements);
  }

  /** Within each class the statements keep their order in the dump. */
  lemma ImportKeepsClassOrder(classOf: string -> Class, statements: seq<string>, kind: Class)
    ensures var script := ImportStatements(classOf, statements);
            OfClass(classOf, script[1..|script| - 1], kind) == OfClass(classOf, statements, kind)
  {
    hide OfClass;
    var script := ImportStatements(classOf, statements);
    assert script[1..|script| - 1] == Sorted(classOf, statements);
    OfClassOfConcat(classOf, OfClass(classOf, statements, Pragma), OfClass(classOf, statements, TableDefinition),
                    OfClass(classOf, statements, Other), OfClass(classOf, statements, Data),
                    OfClass(classOf, statements, AfterData), kind);
    OfClassAgain(classOf, statements, Pragma, kind);
    OfClassAgain(classOf, statements, TableDefinition, kind);
    OfClassAgain(classOf, statements, Other, kind);
    OfClassAgain(classOf, statements, Data, kind);
    OfClassAgain(classOf, statements, AfterData, kind);
  }

  lemma OfClassAgain(classOf: string -> Class, statements: seq<string>, actual: Class, kind: Class)
    ensures OfClass(classOf, OfClass(classOf, statements, actual), kind)
         == if actual == kind then OfClass(classOf, statements, kind) else []
  {
    hide Filter;
    OfClassIsUniform(classOf, statements, actual);
    FilterOfUniform(OfClass(classOf, statements, actual), ClassIs(classOf, kind), actual == kind);
  }

  lemma OfClassOfConcat(classOf: string -> Class, a: seq<string>, b: seq<string>, c: seq<string>, d: seq<string>, e: seq<string>, kind: Class)
    ensures OfClass(classOf, a + b + c + d + e, kind)
         == OfClass(classOf, a, kind) + OfClass(classOf, b, kind) + OfClass(classOf, c, kind)
            + OfClass(classOf, d, kind) + OfClass(classOf, e, kind)
  {
    hide Filter;
    FilterConcat(a + b + c + d, e, ClassIs(classOf, kind));
    FilterConcat(a + b + c, d, ClassIs(classOf, kind));
    FilterConcat(a + b, c, ClassIs(classOf, kind));
    FilterConcat(a, b, ClassIs(classOf, kind));
  }

  // ----- reading the import script back

  /** The dump's last quotation is closed. */
  predicate EndsUnquoted(sql: string) { !FeedAll(Empty(), sql).mode.In? }

  lemma PaddedPieceIsStatement(before: string, t: string)
    requires AllSpace(before) && t != "" && !IsSpace(t[0]) && IsPiece(before + t)
    ensures IsStatement(t)
  {
    hide FeedAll, IsSpace;
    FeedPadded(before, t);
    var l := FeedAll(Empty(), t);
    assert l.done != [];
    var pieces := [before + l.done[0]] + l.done[1..];
    assert pieces == [before + t] && pieces[0] == before + l.done[0] && |pieces| == |l.done|;
    assert (before + l.done[0])[|before|..] == l.done[0] && (before + t)[|before|..] == t;
  }

  /** Text that ends with a semicolon loses only leading white space. */
  lemma TrimOfTerminated(s: string) returns (before: string)
    requires EndsWithSemicolon(s)
    ensures AllSpace(before) && s == before + Trim(s)
    ensures Trim(s) != "" && !IsSpace(Trim(s)[0])
  {
    hide IsSpace, TrimStart, TrimEnd;
    SemicolonIsNoSpace();
    var start := TrimStart(s);
    before := s[..|s| - |start|];
    assert !IsSpace(s[|s| - 1]);
    assert start != "";
    assert start[|start| - 1] == s[|s| - 1];
    assert |Trim(s)| == |start|;
  }

  lemma TrimmedPieceIsStatement(piece: string)
    requires IsPiece(piece)
    ensures IsStatement(Trim(piece)) && Trim(piece) != ""
  {
    hide FeedAll, IsSpace, Trim;
    PieceEndsWithSemicolon(piece);
    var before := TrimOfTerminated(piece);
    PaddedPieceIsStatement(before, Trim(piece));
  }

  lemma SemicolonIsNoSpace()
    ensures !IsSpace(';')
  {
  }

  lemma {:induction false} TrimmedPiecesAreStatements(pieces: seq<string>)
    requires forall i :: 0 <= i < |pieces| ==> IsPiece(pieces[i])
    ensures AllStatements(TrimmedPieces(pieces))
  {
    hide IsPiece, IsStatement, Trim;
    if pieces != [] {
      TrimmedPiecesAreStatements(pieces[..|pieces| - 1]);
      TrimmedPieceIsStatement(pieces[|pieces| - 1]);
    }
  }

  /** How a fresh machine reads the trimmed rest of a text. */
  lemma FeedTrimmedRest(current: string, mode: Mode)
    requires FeedAll(Empty(), current) == Lexer([], current, mode) && Trim(current) != ""
    ensures var l := FeedAll(Empty(), Trim(current));
            l.done == [] && l.current == Trim(current) && (l.mode.In? <==> mode.In?) && (mode.In? ==> l.mode == mode)
            && Sound(l.mode)
  {
    hide FeedAll, IsSpace, TrimStart, TrimEnd;
    var before, after := TrimSplits(current);
    var t := Trim(current);
    FeedConcat(Empty(), before + t, after);
    FeedPadded(before, t);
    var l := FeedAll(Empty(), t);
    FeedKeepsSound(Empty(), t);
    FeedSpaces(Prefixed(before, l), after);
    assert l.done == [];
    assert before + l.current + after == before + t + after;
    assert (before + l.current + after)[|before|..|before| + |l.current|] == l.current;
    assert |l.current| == |t|;
    assert (before + t + after)[|before|..|before| + |t|] == t;
  }

  lemma UnquotedRestIsStatement(current: string, mode: Mode)
    requires FeedAll(Empty(), current) == Lexer([], current, mode) && Trim(current) != "" && !mode.In?
    ensures IsStatement(Terminated(Trim(current)))
  {
    hide FeedAll, IsSpace, TrimStart, TrimEnd;
    var t := Trim(current);
    FeedTrimmedRest(current, mode);
    var before, after := TrimSplits(current);
    if EndsWithSemicolon(t) {
      UnquotedTextHasNoFinalSemicolon(t);
    }
    FeedConcat(Empty(), t, ";");
    FeedOne(FeedAll(Empty(), t), ';');
    assert (t + ";")[0] == t[0];
  }

  lemma UnquotedTextHasNoFinalSemicolon(t: string)
    requires EndsWithSemicolon(t)
    ensures var l := FeedAll(Empty(), t); l.done != [] || l.mode.In?
  {
    var n := |t| - 1;
    FeedKeepsSound(Empty(), t[..n]);
    FeedOneMore(Empty(), t, n);
    assert t[..n + 1] == t;
  }

  lemma SplitGivesStatements(sql: string)
    requires EndsUnquoted(sql)
    ensures AllStatements(Split(sql))
  {
    hide IsStatement, IsPiece, Trim, TrimmedPieces, FeedAll;
    var l := FeedAll(Empty(), sql);
    PiecesAreLocal(sql);
    TrimmedPiecesAreStatements(l.done);
    if Trim(l.current) != "" {
      UnquotedRestIsStatement(l.current, l.mode);
    }
  }

  lemma ImportOfStatements(classOf: string -> Class, statements: seq<string>)
    requires AllStatements(statements)
    ensures AllStatements(ImportStatements(classOf, statements))
  {
    hide IsStatement, Sorted;
    PragmasAreStatements();
    ClassesPartition(classOf, statements);
    var sorted := Sorted(classOf, statements);
    forall i | 0 <= i < |sorted| ensures IsStatement(sorted[i]) {
      assert sorted[i] in multiset(sorted);
      assert sorted[i] in statements;
    }
  }

  // ----- a dump that ends inside a quotation

  /** Text that leaves the machine inside a quotation without having cut anything. */
  ghost predicate IsOpenText(u: string) {
    && u != "" && !IsSpace(u[0])
    && var l := FeedAll(Empty(), u); l.done == [] && l.current == u && l.mode.In?
  }

  lemma QuotedRestIsNotBlank(current: string, mode: Mode)
    requires FeedAll(Empty(), current) == Lexer([], current, mode) && mode.In?
    ensures Trim(current) != ""
  {
    hide FeedAll, IsSpace, Trim;
    var before, after := TrimSplits(current);
    if Trim(current) == "" {
      assert current == before + after && AllSpace(current);
      FeedSpaces(Empty(), current);
    }
  }

  lemma QuotedRestIsOpen(current: string, mode: Mode)
    requires FeedAll(Empty(), current) == Lexer([], current, mode) && mode.In?
    ensures Trim(current) != "" && IsOpenText(Terminated(Trim(current)))
  {
    hide FeedAll, IsSpace, Trim;
    QuotedRestIsNotBlank(current, mode);
    var before, after := TrimSplits(current);
    FeedTrimmedRest(current, mode);
    var t := Trim(current);
    var l := FeedAll(Empty(), t);
    FeedConcat(Empty(), t, ";");
    FeedOne(l, ';');
    assert (t + ";")[0] == t[0];
  }

  /** What follows an open text in a script is swallowed into the same statement. */
  lemma OpenTextSwallows(u: string, rest: string)
    requires IsOpenText(u) && EndsWithSemicolon(rest)
    ensures var l := FeedAll(Empty(), u + "\n" + rest);
            (l.done != [] ==> |Trim(l.done[0])| > |u|) && (l.done == [] ==> |Trim(l.current)| > |u|)
  {
    hide FeedAll, IsSpace, Trim;
    var more := "\n" + rest;
    assert u + "\n" + rest == u + more;
    FeedConcat(Empty(), u, more);
    var mode := FeedAll(Empty(), u).mode;
    var l := FeedAll(Lexer([], "", mode), more);
    assert u + "" == u;
    assert Prefixed(u, Lexer([], "", mode)) == Lexer([], u, mode);
    FeedAllPrefixed(u, Lexer([], "", mode), more);
    if l.done != [] {
      FirstPieceIsTerminated(Lexer([], "", mode), more);
      LongerAfterTrim(u, l.done[0]);
    } else {
      NothingCutKeepsText(Lexer([], "", mode), more);
      assert "" + more == more;
      assert EndsWithSemicolon(more);
      LongerAfterTrim(u, more);
    }
  }

  lemma LongerAfterTrim(u: string, more: string)
    requires u != "" && !IsSpace(u[0]) && EndsWithSemicolon(more)
    ensures |Trim(u + more)| > |u|
  {
    hide IsSpace;
    SemicolonIsNoSpace();
    assert "" + (u + more) + "" == u + more;
    assert (u + more)[0] == u[0] && (u + more)[|u + more| - 1] == ';';
    TrimUndoesPadding("", u + more, "");
  }

  lemma {:induction false} FirstPieceIsTerminated(l: Lexer, s: string)
    requires l.done == [] && FeedAll(l, s).done != []
    ensures EndsWithSemicolon(FeedAll(l, s).done[0])
    decreases |s|
  {
    if s != "" {
      var next := Feed(l, s[0]);
      if next.done == [] {
        FirstPieceIsTerminated(next, s[1..]);
      } else {
        FeedAllEarlier(next.done, Lexer([], next.current, next.mode), s[1..]);
        assert next.done + [] == next.done;
        assert Earlier(next.done, Lexer([], next.current, next.mode)) == next;
      }
    }
  }

  lemma {:induction false} NothingCutKeepsText(l: Lexer, s: string)
    requires FeedAll(l, s).done == l.done
    ensures FeedAll(l, s).current == l.current + s
    decreases |s|
  {
    if s == "" {
      assert l.current + s == l.current;
    } else {
      var next := Feed(l, s[0]);
      FeedAllEarlier(next.done, Lexer([], next.current, next.mode), s[1..]);
      assert next.done + [] == next.done;
      assert Earlier(next.done, Lexer([], next.current, next.mode)) == next;
      var tail := FeedAll(Lexer([], next.current, next.mode), s[1..]);
      assert |FeedAll(l, s).done| == |next.done| + |tail.done|;
      assert next.done == l.done;
      NothingCutKeepsText(next, s[1..]);
      assert l.current + [s[0]] + s[1..] == l.current + s;
    }
  }

  lemma JoinLast(ts: seq<string>, t: string)
    requires ts != []
    ensures JoinLines(ts + [t]) == JoinLines(ts) + "\n" + t
  {
    assert (ts + [t])[..|ts|] == ts;
  }

  lemma {:induction false} JoinConcat(a: seq<string>, b: seq<string>)
    requires a != [] && b != []
    ensures JoinLines(a + b) == JoinLines(a) + "\n" + JoinLines(b)
    decreases |b|
  {
    hide JoinLines;
    var init, t := b[..|b| - 1], b[|b| - 1];
    assert a + b == a + init + [t] && b == init + [t];
    JoinLast(a + init, t);
    if init == [] {
      assert a + init == a;
      JoinOne(t);
    } else {
      JoinConcat(a, init);
      JoinLast(init, t);
    }
  }

  lemma JoinEnds(ts: seq<string>)
    requires ts != [] && EndsWithSemicolon(ts[|ts| - 1])
    ensures EndsWithSemicolon(JoinLines(ts))
  {
  }

  lemma {:induction false} TrimmedConcat(a: seq<string>, b: seq<string>)
    ensures TrimmedPieces(a + b) == TrimmedPieces(a) + TrimmedPieces(b)
    decreases |b|
  {
    hide Trim;
    if b == [] {
      assert a + b == a;
      assert TrimmedPieces(a) + [] == TrimmedPieces(a);
    } else {
      var n := |b| - 1;
      assert (a + b)[..|a + b| - 1] == a + b[..n];
      TrimmedConcat(a, b[..n]);
    }
  }

  lemma FirstTrimmed(pieces: seq<string>)
    requires pieces != [] && Trim(pieces[0]) != ""
    ensures TrimmedPieces(pieces) != [] && TrimmedPieces(pieces)[0] == Trim(pieces[0])
  {
    hide Trim, TrimmedPieces;
    TrimmedConcat([pieces[0]], pieces[1..]);
    assert [pieces[0]] + pieces[1..] == pieces;
    PiecesAppend([], pieces[0]);
    assert [] + [pieces[0]] == [pieces[0]];
    NothingYet("");
  }

  lemma TrimAfterLineBreak(s: string)
    ensures Trim("\n" + s) == Trim(s)
  {
    LineBreakIsSpace();
    assert ("\n" + s)[1..] == s;
  }

  lemma SwallowedStatement(u: string, rest: string)
    requires IsOpenText(u) && EndsWithSemicolon(rest)
    ensures var l := FeedAll(Empty(), "\n" + u + "\n" + rest);
            var found := TrimmedPieces(l.done) + LastStatement(l.current);
            Split("\n" + u + "\n" + rest) == found && found != [] && |found[0]| > |u|
  {
    hide FeedAll, IsSpace, Trim, TrimmedPieces, IsOpenText;
    OpenTextSwallows(u, rest);
    var y := FeedAll(Empty(), u + "\n" + rest);
    assert "\n" + u + "\n" + rest == "\n" + (u + "\n" + rest);
    assert AllSpace("\n") by { LineBreakIsSpace(); }
    FeedPadded("\n", u + "\n" + rest);
    var l := Prefixed("\n", y);
    if y.done != [] {
      TrimAfterLineBreak(y.done[0]);
      FirstTrimmed(l.done);
    } else {
      TrimAfterLineBreak(y.current);
      NothingYet("");
    }
  }

  /** Statements in front of a text that starts on a new line are split off one by one. */
  lemma SplitAfterStatements(ts: seq<string>, more: string)
    requires AllStatements(ts)
    ensures Split(JoinLines(ts) + more) == ts + Split(more)
  {
    hide FeedAll, Trim, TrimmedPieces, IsStatement, JoinLines;
    FeedConcat(Empty(), JoinLines(ts), more);
    FeedJoined(ts);
    var pieces := RawPieces(ts);
    assert pieces + [] == pieces;
    assert Earlier(pieces, Empty()) == Lexer(pieces, "", Plain);
    FeedAllEarlier(pieces, Empty(), more);
    TrimmedConcat(pieces, FeedAll(Empty(), more).done);
    TrimRawPieces(ts);
  }

  lemma LinesRegroup(a: string, u: string, b: string)
    ensures a + "\n" + (u + "\n" + b) == a + ("\n" + u + "\n" + b)
  {
  }

  lemma JoinAround(ts: seq<string>, n: nat)
    requires 0 < n < |ts| - 1
    ensures JoinLines(ts) == JoinLines(ts[..n]) + ("\n" + ts[n] + "\n" + JoinLines(ts[n + 1..]))
  {
    hide JoinLines;
    var a, u, b := ts[..n], ts[n], ts[n + 1..];
    assert ts == a + ([u] + b);
    JoinConcat(a, [u] + b);
    JoinConcat([u], b);
    JoinOne(u);
    LinesRegroup(JoinLines(a), u, JoinLines(b));
  }

  /** A script with an open text before its last line is not split back into its lines. */
  lemma OpenTextBreaksJoin(ts: seq<string>, n: nat)
    requires 0 < n < |ts| - 1 && AllStatements(ts[..n]) && IsOpenText(ts[n]) && EndsWithSemicolon(ts[|ts| - 1])
    ensures Split(JoinLines(ts)) != ts
  {
    hide Split, IsOpenText, JoinLines, AllStatements;
    var rest := JoinLines(ts[n + 1..]);
    JoinEnds(ts[n + 1..]);
    JoinAround(ts, n);
    var more := "\n" + ts[n] + "\n" + rest;
    SplitAfterStatements(ts[..n], more);
    SwallowedStatement(ts[n], rest);
    assert (ts[..n] + Split(more))[n] == Split(more)[0];
  }

  lemma JoinOne(u: string)
    ensures JoinLines([u]) == u
  {
  }

  lemma OpenIsNoStatement(u: string)
    requires IsOpenText(u)
    ensures !IsStatement(u)
  {
  }

  lemma FirstOccurrence(ts: seq<string>, u: string) returns (n: nat)
    requires u in ts
    ensures n < |ts| && ts[n] == u && u !in ts[..n]
  {
    n := 0;
    while ts[n] != u
      decreases |ts| - n
      invariant n < |ts| && u !in ts[..n]
      invariant exists i :: n <= i < |ts| && ts[i] == u
    {
      n := n + 1;
    }
  }

  lemma QuotedDumpBreaks(classOf: string -> Class, statements: seq<string>, u: string)
    requires AllStatements(statements) && IsOpenText(u)
    ensures var script := ImportStatements(classOf, statements + [u]); Split(JoinLines(script)) != script
  {
    hide IsStatement, IsOpenText, Sorted, Split, JoinLines;
    var all := statements + [u];
    var script := ImportStatements(classOf, all);
    PragmasAreStatements();
    OpenIsNoStatement(u);
    ClassesPartition(classOf, all);
    var sorted := Sorted(classOf, all);
    assert u in all && u in multiset(sorted);
    assert script[1..|script| - 1] == sorted;
    var n := FirstOccurrence(script, u);
    assert script[0] == FOREIGN_KEYS_OFF && script[|script| - 1] == FOREIGN_KEYS_ON;
    forall i | 0 <= i < n ensures IsStatement(script[i]) {
      assert script[i] == script[..n][i];
      if i > 0 {
        assert script[i] == sorted[i - 1] && sorted[i - 1] in multiset(sorted);
        assert script[i] in all;
      }
    }
    OpenTextBreaksJoin(script, n);
  }

  /**
   * For every dump, splitting the import script gives back exactly the statements written to it
   * if and only if the dump does not end inside a quotation.
   */
  lemma ImportScriptSplitsBackIff(classOf: string -> Class, dumpSql: string)
    ensures var script := ImportStatements(classOf, Split(dumpSql));
            Split(JoinLines(script)) == script <==> EndsUnquoted(dumpSql)
  {
    hide IsStatement, IsOpenText, FeedAll, ImportStatements, JoinLines, TrimmedPieces, Trim;
    if EndsUnquoted(dumpSql) {
      SplitGivesStatements(dumpSql);
      ImportOfStatements(classOf, Split(dumpSql));
      SplitUndoesJoin(ImportStatements(classOf, Split(dumpSql)));
    } else {
      var l := FeedAll(Empty(), dumpSql);
      PiecesAreLocal(dumpSql);
      TrimmedPiecesAreStatements(l.done);
      QuotedRestIsOpen(l.current, l.mode);
      QuotedDumpBreaks(classOf, TrimmedPieces(l.done), Terminated(Trim(l.current)));
    }
  }

  /** A dump cut off after an opening quote: the whole rest of the script becomes one statement. */
  lemma UnclosedQuoteSwallowsTheScript(classOf: string -> Class)
    ensures var script := ImportStatements(classOf, Split("'"));
            Split(JoinLines(script)) != script
  {
    hide Split, JoinLines, ImportStatements;
    assert Feed(Empty(), '\'').mode.In?;
    FeedOne(Empty(), '\'');
    ImportScriptSplitsBackIff(classOf, "'");
  }

  // ----- the order of the import script

  function Rank(kind: Class): nat {
    match kind case Pragma => 0 case TableDefinition => 1 case Other => 2 case Data => 3 case AfterData => 4
  }

  /** Table definitions come before data, data before the other definitions. */
  lemma ImportOrdersClasses(classOf: string -> Class, statements: seq<string>, i: nat, j: nat)
    requires 0 < i < j < |ImportStatements(classOf, statements)| - 1
    ensures var script := ImportStatements(classOf, statements);
            Rank(classOf(script[i])) <= Rank(classOf(script[j]))
  {
    hide OfClass;
    var a, b, c, d, e := OfClass(classOf, statements, Pragma), OfClass(classOf, statements, TableDefinition),
      OfClass(classOf, statements, Other), OfClass(classOf, statements, Data), OfClass(classOf, statements, AfterData);
    var script := ImportStatements(classOf, statements);
    OfClassIsUniform(classOf, statements, Pragma);
    OfClassIsUniform(classOf, statements, TableDefinition);
    OfClassIsUniform(classOf, statements, Other);
    OfClassIsUniform(classOf, statements, Data);
    OfClassIsUniform(classOf, statements, AfterData);
    forall k | 0 < k < |script| - 1
      ensures Rank(classOf(script[k])) ==
        if k <= |a| then 0 else if k <= |a| + |b| then 1 else if k <= |a| + |b| + |c| then 2
        else if k <= |a| + |b| + |c| + |d| then 3 else 4
    {
      var m := k - 1;
      assert script[k] == (a + b + c + d + e)[m];
    }
  }
}
