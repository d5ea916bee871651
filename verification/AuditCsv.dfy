/**
 * The audit list's CSV export, read back with the grammar of section 2 of RFC 4180 (a line feed
 * as the row end).
 */
module AuditCsv {
  import opened Options
  import opened Strings
  import opened Quoting

  datatype AuditListEvent = AuditListEvent(
    id: string, action: string, actor: string, correlationId: string,
    createdAt: string, reason: string, scope: string)

  const COLUMNS: seq<string> := ["id", "action", "actor", "correlationId", "createdAt", "reason", "scope"]

  function Cells(e: AuditListEvent): (r: seq<string>)
    ensures |r| == 7
  {
    [e.id, e.action, e.actor, e.correlationId, e.createdAt, e.reason, e.scope]
  }

  // ----- writing

  predicate IsSpecial(c: char) { c == '"' || c == ',' || c == '\n' || c == '\r' }

  predicate NeedsQuotes(cell: string) { exists i :: 0 <= i < |cell| && IsSpecial(cell[i]) }

  function EscapeCsvCell(cell: string): string {
    if NeedsQuotes(cell) then "\"" + Doubled(cell) + "\"" else cell
  }

  function RowText(cells: seq<string>): string
    requires cells != []
  {
    if |cells| == 1 then EscapeCsvCell(cells[0]) else EscapeCsvCell(cells[0]) + "," + RowText(cells[1..])
  }

  /** `cells.join(',')` */
  function JoinCommas(cells: seq<string>): string
    requires cells != []
  {
    if |cells| == 1 then cells[0] else cells[0] + "," + JoinCommas(cells[1..])
  }

  function RowTexts(rows: seq<seq<string>>): (r: seq<string>)
    requires forall i :: 0 <= i < |rows| ==> rows[i] != []
    ensures |r| == |rows|
  {
    if rows == [] then [] else RowTexts(rows[..|rows| - 1]) + [RowText(rows[|rows| - 1])]
  }

  function Rows(events: seq<AuditListEvent>): (r: seq<seq<string>>)
    ensures |r| == |events| + 1
    ensures forall i :: 0 <= i < |r| ==> r[i] != []
  {
    [COLUMNS] + seq(|events|, i requires 0 <= i < |events| => Cells(events[i]))
  }

  /** The header and the seven cells of every event, column by column. */
  ghost predicate ReadsAs(rows: seq<seq<string>>, events: seq<AuditListEvent>) {
    && |rows| == |events| + 1
    && rows[0] == ["id", "action", "actor", "correlationId", "createdAt", "reason", "scope"]
    && forall i :: 0 <= i < |events| ==>
         var e := events[i];
         rows[i + 1] == [e.id, e.action, e.actor, e.correlationId, e.createdAt, e.reason, e.scope]
  }

  method BuildAuditCsv(events: seq<AuditListEvent>) returns (csv: string)
    ensures ReadFile(csv).Some? && ReadsAs(ReadFile(csv).value, events)
    ensures csv == JoinLines(RowTexts(Rows(events))) + "\n"
  {
    hide RowText, JoinCommas;
    var lines := [JoinCommas(COLUMNS)];
    HeaderText();
    assert events[..0] == [];
    for i := 0 to |events|
      invariant lines == RowTexts(Rows(events[..i]))
    {
      lines := lines + [RowText(Cells(events[i]))];
      var before, after := Rows(events[..i]), Rows(events[..i + 1]);
      assert after == before + [Cells(events[i])];
      assert after[..|after| - 1] == before;
    }
    assert events[..|events|] == events;
    csv := JoinLines(lines) + "\n";
    CsvReadsBack(events);
  }

  // ----- reading

  function ReadBare(s: string): (r: Read<string>)
    ensures |r.rest| <= |s|
  {
    if s == "" || s[0] == '"' || s[0] == ',' || s[0] == '\n' || s[0] == '\r' then Read("", s)
    else
      var more := ReadBare(s[1..]);
      Read([s[0]] + more.value, more.rest)
  }

  function ReadField(s: string): (r: Option<Read<string>>)
    ensures r.Some? ==> |r.value.rest| <= |s|
  {
    if s != "" && s[0] == '"' then ReadQuoted(s[1..]) else Some(ReadBare(s))
  }

  function ReadRecord(s: string): (r: Option<Read<seq<string>>>)
    ensures r.Some? ==> |r.value.rest| <= |s|
    decreases |s|
  {
    match ReadField(s)
    case None => None
    case Some(Read(cell, rest)) =>
      if rest == "" || rest[0] != ',' then Some(Read([cell], rest))
      else
        match ReadRecord(rest[1..])
        case None => None
        case Some(Read(cells, rest')) => Some(Read([cell] + cells, rest'))
  }

  function ReadFile(s: string): Option<seq<seq<string>>>
    decreases |s|
  {
    if s == "" then Some([])
    else
      match ReadRecord(s)
      case None => None
      case Some(Read(row, rest)) =>
        if rest == "" then Some([row])
        else if rest[0] != '\n' then None
        else
          match ReadFile(rest[1..])
          case None => None
          case Some(rows) => Some([row] + rows)
  }

  // ----- the round trip

  lemma {:induction false} BareReadsBack(cell: string, s: string)
    requires !NeedsQuotes(cell) && s != "" && (s[0] == ',' || s[0] == '\n')
    ensures ReadBare(cell + s) == Read(cell, s)
  {
    if cell == "" {
      assert cell + s == s;
    } else {
      hide NeedsQuotes;
      TailIsPlain(cell);
      BareReadsBack(cell[1..], s);
      assert (cell + s)[1..] == cell[1..] + s;
      assert [cell[0]] + cell[1..] == cell;
    }
  }

  lemma TailIsPlain(cell: string)
    requires cell != "" && !NeedsQuotes(cell)
    ensures !IsSpecial(cell[0]) && !NeedsQuotes(cell[1..])
  {
    hide IsSpecial;
    assert forall i :: 0 <= i < |cell[1..]| ==> cell[1..][i] == cell[i + 1];
  }

  lemma CellReadsBack(cell: string, s: string)
    requires s != "" && (s[0] == ',' || s[0] == '\n')
    ensures ReadField(EscapeCsvCell(cell) + s) == Some(Read(cell, s))
  {
    hide Doubled, ReadQuoted, ReadBare;
    if NeedsQuotes(cell) {
      QuotedText(cell, s);
      QuotedReadsBack(cell, s);
    } else {
      BareReadsBack(cell, s);
      assert cell != "" ==> (cell + s)[0] == cell[0] && !IsSpecial(cell[0]);
    }
  }

  lemma QuotedText(cell: string, s: string)
    requires NeedsQuotes(cell)
    ensures EscapeCsvCell(cell) + s == "\"" + (Doubled(cell) + "\"" + s)
    ensures ("\"" + (Doubled(cell) + "\"" + s))[1..] == Doubled(cell) + "\"" + s
  {
    hide Doubled, NeedsQuotes;
  }

  lemma {:induction false} RowReadsBack(cells: seq<string>, s: string)
    requires cells != [] && s != "" && s[0] == '\n'
    ensures ReadRecord(RowText(cells) + s) == Some(Read(cells, s))
  {
    hide ReadField, EscapeCsvCell;
    if |cells| == 1 {
      CellReadsBack(cells[0], s);
      assert cells == [cells[0]];
    } else {
      var rest := "," + RowText(cells[1..]) + s;
      assert RowText(cells) + s == EscapeCsvCell(cells[0]) + rest;
      CellReadsBack(cells[0], rest);
      assert rest[1..] == RowText(cells[1..]) + s;
      RowReadsBack(cells[1..], s);
      assert cells == [cells[0]] + cells[1..];
    }
  }

  /** Every row followed by a line feed. */
  function Document(rows: seq<seq<string>>): string
    requires forall i :: 0 <= i < |rows| ==> rows[i] != []
  {
    if rows == [] then "" else RowText(rows[0]) + "\n" + Document(rows[1..])
  }

  lemma {:induction false} DocumentReadsBack(rows: seq<seq<string>>)
    requires forall i :: 0 <= i < |rows| ==> rows[i] != []
    ensures ReadFile(Document(rows)) == Some(rows)
  {
    hide ReadRecord, RowText;
    if rows != [] {
      var s := "\n" + Document(rows[1..]);
      assert Document(rows) == RowText(rows[0]) + s;
      RowReadsBack(rows[0], s);
      assert s[1..] == Document(rows[1..]);
      DocumentReadsBack(rows[1..]);
      assert rows == [rows[0]] + rows[1..];
    }
  }

  lemma {:induction false} DocumentLast(rows: seq<seq<string>>, row: seq<string>)
    requires row != [] && forall i :: 0 <= i < |rows| ==> rows[i] != []
    ensures Document(rows + [row]) == Document(rows) + RowText(row) + "\n"
  {
    hide RowText;
    if rows == [] {
      assert rows + [row] == [row];
      assert Document([row]) == RowText(row) + "\n" + Document([row][1..]);
      assert Document(rows) + RowText(row) + "\n" == RowText(row) + "\n" + "";
    } else {
      assert (rows + [row])[1..] == rows[1..] + [row] && (rows + [row])[0] == rows[0];
      DocumentLast(rows[1..], row);
      assert Document(rows + [row]) == RowText(rows[0]) + "\n" + (Document(rows[1..]) + RowText(row) + "\n");
    }
  }

  lemma {:induction false} JoinedIsDocument(rows: seq<seq<string>>)
    requires rows != [] && forall i :: 0 <= i < |rows| ==> rows[i] != []
    ensures JoinLines(RowTexts(rows)) + "\n" == Document(rows)
  {
    hide RowText;
    var init, row := rows[..|rows| - 1], rows[|rows| - 1];
    assert rows == init + [row];
    DocumentLast(init, row);
    var texts := RowTexts(rows);
    assert texts[..|texts| - 1] == RowTexts(init);
    if init == [] {
      assert Document(init) + RowText(row) == RowText(row);
    } else {
      JoinedIsDocument(init);
    }
  }

  lemma {:induction false} PlainRow(cells: seq<string>)
    requires cells != [] && forall i :: 0 <= i < |cells| ==> !NeedsQuotes(cells[i])
    ensures RowText(cells) == JoinCommas(cells)
  {
    if |cells| > 1 {
      PlainRow(cells[1..]);
    }
  }

  lemma ColumnsArePlain()
    ensures forall i :: 0 <= i < |COLUMNS| ==> !NeedsQuotes(COLUMNS[i])
  {
  }

  lemma HeaderText()
    ensures RowTexts(Rows([])) == [JoinCommas(COLUMNS)]
  {
    hide RowText, JoinCommas;
    ColumnsArePlain();
    PlainRow(COLUMNS);
    assert Rows([]) == [COLUMNS];
    assert [COLUMNS][..0] == [];
    assert RowTexts([COLUMNS]) == [] + [RowText(COLUMNS)];
  }

  /** Whatever quotes, commas or line breaks the cells hold, the export reads back cell for cell. */
  lemma CsvReadsBack(events: seq<AuditListEvent>)
    ensures ReadFile(JoinLines(RowTexts(Rows(events))) + "\n") == Some(Rows(events))
    ensures ReadsAs(Rows(events), events)
  {
    hide ReadFile;
    JoinedIsDocument(Rows(events));
    DocumentReadsBack(Rows(events));
  }

  /** A cell is written as it is unless it holds a quote, a comma or a line break. */
  lemma CellStaysIff(cell: string)
    ensures EscapeCsvCell(cell) == cell <==>
              forall i :: 0 <= i < |cell| ==> cell[i] != '"' && cell[i] != ',' && cell[i] != '\n' && cell[i] != '\r'
  {
    if NeedsQuotes(cell) {
      DoublingLengthens(cell);
    }
  }

  lemma {:induction false} DoublingLengthens(s: string)
    ensures |Doubled(s)| >= |s|
  {
    if s != "" {
      DoublingLengthens(s[1..]);
    }
  }

  /** Two lists with the same export are the same list. */
  lemma CsvIsInjective(a: seq<AuditListEvent>, b: seq<AuditListEvent>)
    requires JoinLines(RowTexts(Rows(a))) == JoinLines(RowTexts(Rows(b)))
    ensures a == b
  {
    hide ReadFile, RowTexts, Rows;
    CsvReadsBack(a);
    CsvReadsBack(b);
    assert |Rows(a)| == |Rows(b)|;
    forall i | 0 <= i < |a| ensures a[i] == b[i] {
      assert Cells(a[i]) == Cells(b[i]);
    }
  }
}
