/** A model of the consistency check of scripts/validate_organic_data.py.
 *
 *  The CSV rows and the organic-material master list arrive already parsed:
 *  a row is a map from column name to cell, the master list a map from sample
 *  id to its expected classification. The check collects, in row order, one
 *  mismatch for every row whose sample id is in the master list and whose
 *  organic content is the sentinel "Undetermined", then prints a report and
 *  leaves with an exit status. Printing and exiting are modelled as a returned
 *  outcome: the printed lines and the status.
 */
module ValidateOrganicData {

  /** Column holding the sample id. */
  const SampleIdColumn: string := "SampleID"
  /** Column holding the observed organic content. */
  const ContentColumn: string := "OrganicContent"
  /** The value that marks organic content as not yet determined. */
  const Undetermined: string := "Undetermined"

  const SuccessLine: string := "No inconsistencies found."
  const Header: string := "Found inconsistencies:"

  /** One CSV row, column name to cell. */
  type Row = map<string, string>
  /** The master list, sample id to expected classification. */
  type MasterList = map<string, string>

  /** An inconsistency: what the CSV says and what the master list expects. */
  datatype Mismatch = Mismatch(sampleId: string, current: string, expected: string)

  /** A row without one of the two columns the check reads: Python's KeyError. */
  datatype Error = MissingColumn(column: string)

  datatype Result<T> = Ok(value: T) | Err(error: Error)

  datatype Option<T> = None | Some(value: T)

  /** What a run leaves behind: the lines printed and the exit status, or the
   *  exception that escaped before anything was printed. */
  datatype Outcome = Exit(lines: seq<string>, status: int) | Raised(error: Error)

  // ---------------------------------------------------------------------------
  // The mismatch filter
  // ---------------------------------------------------------------------------

  /** The first column the check reads that the row lacks, in the order of the
   *  two subscripts (sample id first). */
  function MissingColumnOf(row: Row): (c: Option<string>)
    ensures c == None <==> SampleIdColumn in row && ContentColumn in row
    ensures c.Some? ==> c.value !in row
    ensures SampleIdColumn !in row ==> c == Some(SampleIdColumn)
  {
    if SampleIdColumn !in row then Some(SampleIdColumn)
    else if ContentColumn !in row then Some(ContentColumn)
    else None
  }

  predicate HasColumns(row: Row) {
    SampleIdColumn in row && ContentColumn in row
  }

  /** The row is one the check reports: its id is in the master list and its
   *  content is the sentinel. */
  predicate Flagged(master: MasterList, row: Row)
    ensures Flagged(master, row) ==> MissingColumnOf(row) == None
  {
    HasColumns(row) && row[SampleIdColumn] in master && row[ContentColumn] == Undetermined
  }

  /** The mismatch a flagged row produces; the expected value is looked up in
   *  the master list, which is defined because the id is a key. */
  function MismatchOf(master: MasterList, row: Row): (m: Mismatch)
    requires Flagged(master, row)
    ensures m.sampleId in master && m.current == Undetermined && m.expected == master[m.sampleId]
  {
    Mismatch(row[SampleIdColumn], row[ContentColumn], master[row[SampleIdColumn]])
  }

  /** The mismatches of `rows`, in row order, or the KeyError of the first row
   *  that lacks a column. Defined on the last row so that it follows the
   *  loop's processed prefix. On success the mismatches are no more than the
   *  rows, and each has an id from the master list, the sentinel as its
   *  current value and the master list's entry as its expected value. */
  function FindMismatches(master: MasterList, rows: seq<Row>): (r: Result<seq<Mismatch>>)
    ensures r.Ok? ==> |r.value| <= |rows|
    ensures r.Ok? ==> forall m :: m in r.value ==>
      m.sampleId in master && m.current == Undetermined && m.expected == master[m.sampleId]
    decreases |rows|
  {
    if rows == [] then Ok([])
    else
      match FindMismatches(master, rows[..|rows| - 1])
      case Err(e) => Err(e)
      case Ok(ms) =>
        var row := rows[|rows| - 1];
        match MissingColumnOf(row)
        case Some(c) => Err(MissingColumn(c))
        case None =>
          if Flagged(master, row) then Ok(ms + [MismatchOf(master, row)]) else Ok(ms)
  }

  /** The indices of the flagged rows, in increasing order: each flagged row
   *  exactly once, and nothing else. */
  function FlaggedIndices(master: MasterList, rows: seq<Row>): (idx: seq<nat>)
    ensures forall j :: 0 <= j < |idx| ==> idx[j] < |rows| && Flagged(master, rows[idx[j]])
    ensures forall j, j' :: 0 <= j < j' < |idx| ==> idx[j] < idx[j']
    ensures forall k :: 0 <= k < |rows| && Flagged(master, rows[k]) ==> k in idx
    decreases |rows|
  {
    if rows == [] then []
    else
      var n := |rows| - 1;
      var prefix := rows[..n];
      var earlier := FlaggedIndices(master, prefix);
      assert forall j :: 0 <= j < |earlier| ==> rows[earlier[j]] == prefix[earlier[j]];
      assert forall k :: 0 <= k < n ==> rows[k] == prefix[k];
      earlier + (if Flagged(master, rows[n]) then [n] else [])
  }

  /** The filter succeeds exactly when every row has both columns; when it
   *  fails, the error names the first missing column of the first such row. */
  lemma {:induction false} FindMismatchesFails(master: MasterList, rows: seq<Row>)
    ensures FindMismatches(master, rows).Ok? <==> forall k :: 0 <= k < |rows| ==> HasColumns(rows[k])
    ensures FindMismatches(master, rows).Err? ==>
      exists k :: 0 <= k < |rows| && (forall j :: 0 <= j < k ==> HasColumns(rows[j]))
        && MissingColumnOf(rows[k]) == Some(FindMismatches(master, rows).error.column)
    decreases |rows|
  {
    if rows != [] {
      var n := |rows| - 1;
      var prefix := rows[..n];
      FindMismatchesFails(master, prefix);
      assert forall k :: 0 <= k < n ==> rows[k] == prefix[k];
      if FindMismatches(master, prefix).Err? {
        var k :| 0 <= k < n && (forall j :: 0 <= j < k ==> HasColumns(prefix[j]))
          && MissingColumnOf(prefix[k]) == Some(FindMismatches(master, prefix).error.column);
        assert rows[k] == prefix[k];
      } else if !HasColumns(rows[n]) {
        assert MissingColumnOf(rows[n]) == Some(FindMismatches(master, rows).error.column);
      }
    }
  }

  /** When the filter succeeds, its j-th mismatch is the one of the j-th
   *  flagged row: soundness, completeness, exactly once, and row order. */
  lemma {:induction false} FindMismatchesSelects(master: MasterList, rows: seq<Row>)
    requires FindMismatches(master, rows).Ok?
    ensures |FindMismatches(master, rows).value| == |FlaggedIndices(master, rows)|
    ensures forall j :: 0 <= j < |FlaggedIndices(master, rows)| ==>
      FindMismatches(master, rows).value[j] == MismatchOf(master, rows[FlaggedIndices(master, rows)[j]])
    decreases |rows|
  {
    if rows != [] {
      var n := |rows| - 1;
      var prefix := rows[..n];
      FindMismatchesSelects(master, prefix);
      var earlier := FlaggedIndices(master, prefix);
      assert forall j :: 0 <= j < |earlier| ==> rows[earlier[j]] == prefix[earlier[j]];
    }
  }

  /** A row that has both columns and an id outside the master list changes
   *  nothing, wherever it stands and whatever its organic content. */
  lemma {:induction false} UnknownSampleIgnored(master: MasterList, before: seq<Row>, row: Row, after: seq<Row>)
    requires HasColumns(row) && row[SampleIdColumn] !in master
    ensures FindMismatches(master, before + [row] + after) == FindMismatches(master, before + after)
    decreases |after|
  {
    if after == [] {
      assert (before + [row] + after)[..|before|] == before;
      assert before + after == before;
    } else {
      var n := |after| - 1;
      UnknownSampleIgnored(master, before, row, after[..n]);
      assert (before + [row] + after)[..|before| + 1 + n] == before + [row] + after[..n];
      assert (before + after)[..|before| + n] == before + after[..n];
    }
  }

  /** With an empty master list nothing is flagged, so a pass that raises no
   *  KeyError finds no mismatch. */
  lemma {:induction false} EmptyMasterNoMismatches(rows: seq<Row>)
    ensures FindMismatches(map[], rows).Ok? ==> FindMismatches(map[], rows).value == []
    decreases |rows|
  {
    if rows != [] {
      EmptyMasterNoMismatches(rows[..|rows| - 1]);
    }
  }

  /** With no rows the run reports success whatever the master list. */
  lemma EmptyRowsReportClean(master: MasterList)
    ensures Run(master, []) == Exit([SuccessLine], 0)
  {
  }

  /** The loop of main(): one pass over the rows, appending a mismatch for
   *  every flagged row; a row lacking a column aborts the pass. */
  method CollectMismatches(master: MasterList, rows: seq<Row>) returns (r: Result<seq<Mismatch>>)
    ensures r == FindMismatches(master, rows)
  {
    var inconsistencies: seq<Mismatch> := [];
    for i := 0 to |rows|
      invariant FindMismatches(master, rows[..i]) == Ok(inconsistencies)
    {
      var row := rows[i];
      assert rows[..i + 1][..i] == rows[..i];
      if SampleIdColumn !in row {
        r := Err(MissingColumn(SampleIdColumn));
        assert FindMismatches(master, rows[..i + 1]) == r;
        PrefixErrorPersists(master, rows, i + 1);
        return;
      }
      if ContentColumn !in row {
        r := Err(MissingColumn(ContentColumn));
        assert FindMismatches(master, rows[..i + 1]) == r;
        PrefixErrorPersists(master, rows, i + 1);
        return;
      }
      var sampleId := row[SampleIdColumn];
      var organicContent := row[ContentColumn];
      if sampleId in master && organicContent == Undetermined {
        var expected := master[sampleId];
        inconsistencies := inconsistencies + [Mismatch(sampleId, organicContent, expected)];
      }
    }
    assert rows[..|rows|] == rows;
    r := Ok(inconsistencies);
  }

  /** Once a prefix of the rows fails, the whole sequence fails the same way. */
  lemma {:induction false} PrefixErrorPersists(master: MasterList, rows: seq<Row>, i: nat)
    requires i <= |rows| && FindMismatches(master, rows[..i]).Err?
    ensures FindMismatches(master, rows) == FindMismatches(master, rows[..i])
    decreases |rows| - i
  {
    if i == |rows| {
      assert rows[..i] == rows;
    } else {
      assert rows[..i + 1][..i] == rows[..i];
      PrefixErrorPersists(master, rows, i + 1);
    }
  }

  // ---------------------------------------------------------------------------
  // The report and the exit status
  // ---------------------------------------------------------------------------

  /** The report line for one mismatch. */
  function FormatLine(m: Mismatch): (line: string)
    ensures |line| >= 9 && line[..9] == "  Sample "
  {
    "  Sample " + m.sampleId + ": CSV says '" + m.current + "', master list expects '" + m.expected + "'"
  }

  /** The report lines of the mismatches, one per mismatch, in order. */
  function FormatAll(ms: seq<Mismatch>): (lines: seq<string>)
    ensures |lines| == |ms|
    ensures forall k :: 0 <= k < |ms| ==> lines[k] == FormatLine(ms[k])
  {
    if ms == [] then [] else [FormatLine(ms[0])] + FormatAll(ms[1..])
  }

  /** The printed report and the exit status for a list of mismatches. */
  function Report(ms: seq<Mismatch>): (out: Outcome)
    ensures out.Exit?
    ensures out.status == 0 <==> ms == []
    ensures ms == [] ==> out.lines == [SuccessLine]
    ensures ms != [] ==>
      && out.status == 1 && |out.lines| == 1 + |ms| && out.lines[0] == Header
      && forall k :: 0 <= k < |ms| ==> out.lines[k + 1] == FormatLine(ms[k])
  {
    if ms == [] then Exit([SuccessLine], 0) else Exit([Header] + FormatAll(ms), 1)
  }

  /** The report branch of main(): a header and one printed line per
   *  mismatch with status 1, or the success line with status 0. */
  method PrintReport(ms: seq<Mismatch>) returns (lines: seq<string>, status: int)
    ensures Exit(lines, status) == Report(ms)
  {
    if ms != [] {
      lines := [Header];
      for i := 0 to |ms|
        invariant |lines| == i + 1 && lines[0] == Header
        invariant forall k :: 0 <= k < i ==> lines[k + 1] == FormatLine(ms[k])
      {
        lines := lines + [FormatLine(ms[i])];
      }
      status := 1;
    } else {
      lines := [SuccessLine];
      status := 0;
    }
  }

  /** The status the process leaves with. An exception that escapes main()
   *  makes the Python interpreter exit with status 1. */
  function ExitStatus(o: Outcome): (status: int)
    ensures status == 0 <==> o.Exit? && o.status == 0
  {
    match o
    case Exit(_, status) => status
    case Raised(_) => 1
  }

  /** The whole check on already-loaded inputs: it raises exactly when some
   *  row lacks a column, and otherwise prints at least one line and exits
   *  with status 0 or 1. */
  function Run(master: MasterList, rows: seq<Row>): (out: Outcome)
    ensures out.Raised? <==> exists k :: 0 <= k < |rows| && !HasColumns(rows[k])
    ensures out.Exit? ==> out.lines != [] && (out.status == 0 || out.status == 1)
  {
    FindMismatchesFails(master, rows);
    match FindMismatches(master, rows)
    case Err(e) => Raised(e)
    case Ok(ms) => Report(ms)
  }

  /** main() from the loaded inputs on: the loop, then the report. */
  method Validate(master: MasterList, rows: seq<Row>) returns (out: Outcome)
    ensures out == Run(master, rows)
  {
    var found := CollectMismatches(master, rows);
    match found
    case Err(e) =>
      out := Raised(e);
    case Ok(ms) =>
      var lines, status := PrintReport(ms);
      out := Exit(lines, status);
  }

  /** The run exits with status 0 exactly when every row has both columns and
   *  no row is flagged. */
  lemma RunStatus(master: MasterList, rows: seq<Row>)
    ensures ExitStatus(Run(master, rows)) == 0 <==>
      forall k :: 0 <= k < |rows| ==> HasColumns(rows[k]) && !Flagged(master, rows[k])
  {
    FindMismatchesFails(master, rows);
    if FindMismatches(master, rows).Ok? {
      FindMismatchesSelects(master, rows);
      var idx := FlaggedIndices(master, rows);
      if idx != [] {
        assert Flagged(master, rows[idx[0]]);
      }
    }
  }

  /** On rows that all have both columns, the report is the success line, or
   *  the header followed by the line of each flagged row in row order. */
  lemma RunReportsFlaggedRows(master: MasterList, rows: seq<Row>)
    requires forall k :: 0 <= k < |rows| ==> HasColumns(rows[k])
    ensures Run(master, rows).Exit?
    ensures FlaggedIndices(master, rows) == [] ==> Run(master, rows) == Exit([SuccessLine], 0)
    ensures FlaggedIndices(master, rows) != [] ==>
      && Run(master, rows).status == 1
      && |Run(master, rows).lines| == 1 + |FlaggedIndices(master, rows)|
      && Run(master, rows).lines[0] == Header
      && forall j :: 0 <= j < |FlaggedIndices(master, rows)| ==>
        Run(master, rows).lines[j + 1] == FormatLine(MismatchOf(master, rows[FlaggedIndices(master, rows)[j]]))
  {
    FindMismatchesFails(master, rows);
    FindMismatchesSelects(master, rows);
  }

  /** The first line alone tells success from failure: the success line and
   *  the header differ, and every mismatch line is indented, unlike both. */
  lemma ReportLinesDistinguishable(ms: seq<Mismatch>)
    ensures Report(ms).lines[0] == SuccessLine <==> Report(ms).status == 0
    ensures SuccessLine[0] != ' ' && Header[0] != ' '
    ensures forall k :: 1 <= k < |Report(ms).lines| ==> Report(ms).lines[k][0] == ' '
  {
  }

  /** An undetermined row whose id the master list knows is reported. */
  lemma ScenarioFlagged()
    ensures Run(map["S1" := "Plant matter"], [map[SampleIdColumn := "S1", ContentColumn := Undetermined]])
      == Exit([Header, FormatLine(Mismatch("S1", Undetermined, "Plant matter"))], 1)
  {
    var master: MasterList := map["S1" := "Plant matter"];
    var row: Row := map[SampleIdColumn := "S1", ContentColumn := Undetermined];
    assert SampleIdColumn != ContentColumn;
    assert [row][..0] == [];
    assert FindMismatches(master, [row][..0]) == Ok([]) && MissingColumnOf(row) == None;
    assert Flagged(master, row) && MismatchOf(master, row) == Mismatch("S1", Undetermined, "Plant matter");
    var m := MismatchOf(master, row);
    assert FindMismatches(master, [row]) == Ok([] + [m]);
    assert [] + [m] == [m];
  }

  /** The printed line of that mismatch, character for character. */
  lemma FormatLineExample()
    ensures FormatLine(Mismatch("S1", Undetermined, "Plant matter"))
      == "  Sample S1: CSV says 'Undetermined', master list expects 'Plant matter'"
  {
    assert "  Sample " + "S1" == "  Sample S1";
    assert "  Sample S1" + ": CSV says '" == "  Sample S1: CSV says '";
    assert "  Sample S1: CSV says '" + Undetermined == "  Sample S1: CSV says 'Undetermined";
    assert "  Sample S1: CSV says 'Undetermined" + "', master list expects '"
      == "  Sample S1: CSV says 'Undetermined', master list expects '";
    assert "  Sample S1: CSV says 'Undetermined', master list expects '" + "Plant matter"
      == "  Sample S1: CSV says 'Undetermined', master list expects 'Plant matter";
  }

  /** A determined row, and an undetermined row whose id the master list does
   *  not know, are not reported. */
  lemma ScenariosClean()
    ensures Run(map["S1" := "Plant matter"], [map[SampleIdColumn := "S1", ContentColumn := "Plant matter"]])
      == Exit([SuccessLine], 0)
    ensures Run(map[], [map[SampleIdColumn := "S2", ContentColumn := Undetermined]]) == Exit([SuccessLine], 0)
  {
    assert SampleIdColumn != ContentColumn && Undetermined != "Plant matter";
    var row2: Row := map[SampleIdColumn := "S1", ContentColumn := "Plant matter"];
    assert [row2][..0] == [];
    assert !Flagged(map["S1" := "Plant matter"], row2);
    assert FindMismatches(map["S1" := "Plant matter"], [row2]) == Ok([]);
    var row3: Row := map[SampleIdColumn := "S2", ContentColumn := Undetermined];
    assert [row3][..0] == [];
    assert !Flagged(map[], row3);
    assert FindMismatches(map[], [row3]) == Ok([]);
  }

  /** A row without the organic-content column raises before any report. */
  lemma ScenarioMissingColumn()
    ensures Run(map["S1" := "Plant matter"], [map[SampleIdColumn := "S1"]]) == Raised(MissingColumn(ContentColumn))
  {
    assert SampleIdColumn != ContentColumn;
    var row: Row := map[SampleIdColumn := "S1"];
    assert [row][..0] == [];
    assert FindMismatches(map["S1" := "Plant matter"], [row][..0]) == Ok([]);
    assert MissingColumnOf(row) == Some(ContentColumn);
    assert FindMismatches(map["S1" := "Plant matter"], [row]) == Err(MissingColumn(ContentColumn));
  }
}
