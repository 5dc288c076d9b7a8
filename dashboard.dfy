/**
 * The waitlist dashboard: the state it keeps (`entries`, `loading`,
 * `error`), how a listing answer updates it, the signup count label, the
 * rule that disables export, and the CSV text the export builds.
 *
 * The CSV is built by joining, with no quoting: a header line, then one line
 * per entry, the cells joined by ',' and the lines by '\n'. Reading it back
 * with `Split` recovers every cell exactly when no cell contains ',' or
 * '\n'. The locale date formatter is a parameter `fmt` about which nothing
 * is assumed.
 */
module WaitlistDashboard {
  import opened Common
  import opened Text
  import opened WaitlistStore
  import opened WaitlistListing

  const HeaderCells: seq<string> := ["Name", "Email", "Date Joined"]
  const CsvHeader: string := "Name,Email,Date Joined"
  const LoadFailedError: string := "Failed to load waitlist data"
  const FetchThrewError: string := "Error fetching waitlist"

  /** The count label: singular for exactly one signup, plural otherwise, zero included. */
  function CountLabel(count: nat): (caption: string)
    ensures |caption| >= 6 && caption[..6] == "Signup"
    ensures caption == "Signup" <==> count == 1
    ensures caption == "Signup" || caption == "Signups"
  {
    if count == 1 then "Signup" else "Signups"
  }

  /** The export button's `disabled` flag, `entries.length === 0`. */
  predicate ExportDisabled(entries: seq<Entry>)
  {
    |entries| == 0
  }

  /** A name cell as `join` renders it: a NULL name is an empty cell. */
  function NameCell(name: Option<string>): (cell: string)
    ensures name.Some? ==> cell == name.value
    ensures name.None? ==> cell == ""
  {
    match name
    case Some(n) => n
    case None => ""
  }

  /** The three cells of an entry's line, one under each header cell: name, email, formatted date. */
  function RowCells(e: Entry, fmt: Timestamp -> string): (cells: seq<string>)
    ensures |cells| == |HeaderCells|
    ensures cells[0] == NameCell(e.name) && cells[1] == e.email && cells[2] == fmt(e.createdAt)
  {
    [NameCell(e.name), e.email, fmt(e.createdAt)]
  }

  /** One data line of the CSV: the name (empty for NULL), the email and the date, separated by commas. */
  function RowLine(e: Entry, fmt: Timestamp -> string): (line: string)
    ensures line == NameCell(e.name) + [','] + e.email + [','] + fmt(e.createdAt)
  {
    assert Join([e.email, fmt(e.createdAt)], ',') == e.email + [','] + fmt(e.createdAt);
    Join(RowCells(e, fmt), ',')
  }

  /** The data lines, one per entry, in the entries' order. */
  function RowLines(entries: seq<Entry>, fmt: Timestamp -> string): (lines: seq<string>)
    ensures |lines| == |entries|
    ensures forall i :: 0 <= i < |entries| ==>
      lines[i] == NameCell(entries[i].name) + [','] + entries[i].email + [','] + fmt(entries[i].createdAt)
  {
    seq(|entries|, i requires 0 <= i < |entries| => RowLine(entries[i], fmt))
  }

  /** The exported text: the header line and the data lines, joined by '\n'. */
  function ExportCsv(entries: seq<Entry>, fmt: Timestamp -> string): (csv: string)
    ensures CsvHeader <= csv
    ensures entries == [] ==> csv == CsvHeader
    ensures entries != [] ==> |csv| > |CsvHeader| && csv[|CsvHeader|] == '\n'
  {
    assert Join(HeaderCells, ',') == CsvHeader;
    Join([Join(HeaderCells, ',')] + RowLines(entries, fmt), '\n')
  }

  /** Export is disabled exactly when the file would hold nothing but the header line. */
  lemma ExportDisabledIffHeaderOnly(entries: seq<Entry>, fmt: Timestamp -> string)
    ensures ExportDisabled(entries) <==> ExportCsv(entries, fmt) == CsvHeader
  {
    if entries != [] {
      assert |ExportCsv(entries, fmt)| > |CsvHeader|;
    }
  }

  /** No cell of any entry contains `c`. */
  predicate CellsAvoid(entries: seq<Entry>, fmt: Timestamp -> string, c: char)
  {
    forall i, k :: 0 <= i < |entries| && 0 <= k < 3 ==> c !in RowCells(entries[i], fmt)[k]
  }

  /** A line whose cells avoid a character other than ',' avoids it too. */
  lemma RowLineAvoids(e: Entry, fmt: Timestamp -> string, c: char)
    requires c != ','
    requires forall k :: 0 <= k < 3 ==> c !in RowCells(e, fmt)[k]
    ensures c !in RowLine(e, fmt)
  {
    var cells := RowCells(e, fmt);
    forall q | q in cells ensures c !in q {
      var k :| 0 <= k < 3 && cells[k] == q;
    }
    JoinAvoids(cells, ',', c);
  }

  /** With no line break in any cell, no line of the export holds one. */
  lemma LinesAvoidNewline(entries: seq<Entry>, fmt: Timestamp -> string)
    requires CellsAvoid(entries, fmt, '\n')
    ensures forall p :: p in [CsvHeader] + RowLines(entries, fmt) ==> '\n' !in p
  {
    var rows := RowLines(entries, fmt);
    forall p | p in rows ensures '\n' !in p {
      var n :| 0 <= n < |entries| && rows[n] == p;
      RowLineAvoids(entries[n], fmt, '\n');
    }
    assert '\n' !in CsvHeader;
  }

  /**
   * When no cell contains a line break, the export splits into exactly
   * `|entries| + 1` lines: the header, then entry i's line at position i + 1.
   */
  lemma ExportLines(entries: seq<Entry>, fmt: Timestamp -> string)
    requires CellsAvoid(entries, fmt, '\n')
    ensures Split(ExportCsv(entries, fmt), '\n') == [CsvHeader] + RowLines(entries, fmt)
    ensures |Split(ExportCsv(entries, fmt), '\n')| == |entries| + 1
    ensures forall i :: 0 <= i < |entries| ==> Split(ExportCsv(entries, fmt), '\n')[i + 1] == RowLine(entries[i], fmt)
  {
    var rows := RowLines(entries, fmt);
    LinesAvoidNewline(entries, fmt);
    assert Join(HeaderCells, ',') == CsvHeader;
    SplitJoin([CsvHeader] + rows, '\n');
  }

  /**
   * When no cell contains ',' or '\n', splitting line i + 1 of the export
   * on ',' gives back entry i's name (empty for NULL), email and formatted date.
   */
  lemma ExportRoundTrip(entries: seq<Entry>, fmt: Timestamp -> string, i: nat)
    requires CellsAvoid(entries, fmt, '\n')
    requires i < |entries| && forall k :: 0 <= k < 3 ==> ',' !in RowCells(entries[i], fmt)[k]
    ensures |Split(ExportCsv(entries, fmt), '\n')| == |entries| + 1
    ensures Split(Split(ExportCsv(entries, fmt), '\n')[i + 1], ',')
      == [NameCell(entries[i].name), entries[i].email, fmt(entries[i].createdAt)]
  {
    ExportLines(entries, fmt);
    RowRoundTripIff(entries[i], fmt);
  }

  /** A line splits back into its cells exactly when no cell contains a comma. */
  lemma RowRoundTripIff(e: Entry, fmt: Timestamp -> string)
    ensures Split(RowLine(e, fmt), ',') == RowCells(e, fmt)
      <==> forall k :: 0 <= k < 3 ==> ',' !in RowCells(e, fmt)[k]
  {
    var cells := RowCells(e, fmt);
    if forall k :: 0 <= k < 3 ==> ',' !in cells[k] {
      forall q | q in cells ensures ',' !in q {
        var k :| 0 <= k < 3 && cells[k] == q;
      }
      SplitJoin(cells, ',');
    } else {
      SplitPartsAvoid(RowLine(e, fmt), ',');
      var k :| 0 <= k < 3 && ',' in cells[k];
      assert cells[k] in cells;
    }
  }

  /**
   * A line break in any cell breaks the export's line structure: splitting
   * the text on '\n' no longer gives the header followed by one line per entry.
   */
  lemma LineBreakSplitsRow(entries: seq<Entry>, fmt: Timestamp -> string, i: nat, k: nat)
    requires i < |entries| && k < 3 && '\n' in RowCells(entries[i], fmt)[k]
    ensures Split(ExportCsv(entries, fmt), '\n') != [CsvHeader] + RowLines(entries, fmt)
  {
    var e := entries[i];
    var lines := [CsvHeader] + RowLines(entries, fmt);
    assert lines[i + 1] == RowLine(e, fmt);
    assert '\n' in RowLine(e, fmt) by {
      var cell := RowCells(e, fmt)[k];
      var m :| 0 <= m < |cell| && cell[m] == '\n';
      var line := RowLine(e, fmt);
      if k == 0 {
        assert line[m] == '\n';
      } else if k == 1 {
        assert line[|NameCell(e.name)| + 1 + m] == '\n';
      } else {
        assert line[|NameCell(e.name)| + 1 + |e.email| + 1 + m] == '\n';
      }
    }
    SplitPartsAvoid(ExportCsv(entries, fmt), '\n');
    assert lines[i + 1] in lines;
  }

  /**
   * Cells are not quoted: a name "Doe, Jane" becomes two cells when the line
   * is read back, and the email lands in the third cell instead of the second.
   */
  lemma UnquotedCommaShiftsCells(e: Entry, fmt: Timestamp -> string)
    requires e.name == Some("Doe, Jane") && ',' !in e.email
    ensures |Split(RowLine(e, fmt), ',')| >= 4
    ensures Split(RowLine(e, fmt), ',')[..3] == ["Doe", " Jane", e.email]
  {
    var date := fmt(e.createdAt);
    var line := RowLine(e, fmt);
    assert Join([e.email, date], ',') == e.email + [','] + date;
    assert line == "Doe, Jane" + [','] + (e.email + [','] + date);
    assert "Doe, Jane" == "Doe" + [','] + " Jane";
    assert line == "Doe" + [','] + (" Jane" + [','] + (e.email + [','] + date));
    SplitAfter("Doe", " Jane" + [','] + (e.email + [','] + date), ',');
    SplitAfter(" Jane", e.email + [','] + date, ',');
    SplitAfter(e.email, date, ',');
  }

  /** What the dashboard's `fetch` of the listing produced: an exception, or a decoded answer. */
  datatype FetchResult = Threw | Answered(response: ListResponse)

  /** The dashboard component's state. */
  class Dashboard {
    var entries: seq<Entry>
    var loading: bool
    var error: string

    /** The state on mount: no entries, loading, no error. */
    constructor ()
      ensures entries == [] && loading && error == ""
    {
      entries, loading, error := [], true, "";
    }

    /**
     * `fetchWaitlist` after its request settles: a successful answer
     * replaces the entries, anything else sets an error and keeps them;
     * loading ends in every case.
     */
    method FetchWaitlist(result: FetchResult)
      modifies this
      ensures !loading
      ensures result.Answered? && result.response.Success() ==>
        entries == result.response.data && error == old(error)
      ensures result.Answered? && !result.response.Success() ==>
        entries == old(entries) && error == LoadFailedError
      ensures result.Threw? ==> entries == old(entries) && error == FetchThrewError
    {
      match result {
        case Answered(response) =>
          if response.Success() {
            entries := response.data;
          } else {
            error := LoadFailedError;
          }
        case Threw =>
          error := FetchThrewError;
      }
      loading := false;
    }

    /** The text `exportToCSV` puts in the downloaded file. */
    method ExportToCsv(fmt: Timestamp -> string) returns (csv: string)
      ensures csv == ExportCsv(entries, fmt)
    {
      csv := ExportCsv(entries, fmt);
    }
  }
}
