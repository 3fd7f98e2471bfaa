/** What the file loader guarantees across lines and files: one transaction
    per content line in file order, files concatenated in argument order,
    the first failure aborting everything, and a file written from a table of
    addresses reading back as that table. */
module LoaderProperties {
  import opened Base
  import opened Text
  import opened Loader

  /** A file's content lines succeed exactly when every line does. */
  lemma ContentLinesSucceed(lines: seq<string>, readIndices: set<nat>, writeIndices: set<nat>)
    ensures ContentTransactions(lines, readIndices, writeIndices).Success? <==>
            forall n :: 0 <= n < |lines| ==> LineTransaction(lines[n], readIndices, writeIndices).Success?
  {
    if ContentTransactions(lines, readIndices, writeIndices).Success? {
      ContentLinesInOrder(lines, readIndices, writeIndices);
    } else {
      ContentLinesFirstFailure(lines, readIndices, writeIndices);
    }
  }

  /** A file whose content lines succeed has one transaction per line,
      empty lines included, in order. */
  lemma ContentLinesInOrder(lines: seq<string>, readIndices: set<nat>, writeIndices: set<nat>)
    requires ContentTransactions(lines, readIndices, writeIndices).Success?
    ensures var ts := ContentTransactions(lines, readIndices, writeIndices).value;
            |ts| == |lines| &&
            forall n :: 0 <= n < |lines| ==>
              LineTransaction(lines[n], readIndices, writeIndices).Success? &&
              ts[n] == LineTransaction(lines[n], readIndices, writeIndices).value
  {
    var rs := LineResults(lines, readIndices, writeIndices);
    CollectValues(rs);
    LineResultsAt(lines, readIndices, writeIndices);
  }

  /** A failing file fails with the error of its first failing content
      line. */
  lemma ContentLinesFirstFailure(lines: seq<string>, readIndices: set<nat>, writeIndices: set<nat>)
    requires ContentTransactions(lines, readIndices, writeIndices).Failure?
    ensures exists n :: 0 <= n < |lines| &&
              LineTransaction(lines[n], readIndices, writeIndices) == Failure(ContentTransactions(lines, readIndices, writeIndices).error) &&
              forall m :: 0 <= m < n ==> LineTransaction(lines[m], readIndices, writeIndices).Success?
  {
    var rs := LineResults(lines, readIndices, writeIndices);
    CollectFirstFailure(rs);
    LineResultsAt(lines, readIndices, writeIndices);
    var n :| 0 <= n < |rs| && rs[n] == Failure(Collect(rs).error) && forall m :: 0 <= m < n ==> rs[m].Success?;
    assert forall m :: 0 <= m < n ==> LineTransaction(lines[m], readIndices, writeIndices).Success? by {
      forall m | 0 <= m < n
        ensures LineTransaction(lines[m], readIndices, writeIndices).Success?
      {
        assert rs[m] == LineTransaction(lines[m], readIndices, writeIndices);
      }
    }
    assert rs[n] == LineTransaction(lines[n], readIndices, writeIndices);
  }

  /** Loading files one after another is loading the concatenated list:
      the transactions of `b` follow those of `a`, and the first failure,
      in `a` before `b`, wins. */
  lemma {:induction false} LoadAllAppend(a: seq<File>, b: seq<File>)
    ensures LoadAll(a + b) == Then(LoadAll(a), LoadAll(b))
  {
    if a == [] {
      assert a + b == b;
      ThenEmpty(LoadAll(b));
    } else {
      var head := LoadFile(a[0]);
      calc {
        LoadAll(a + b);
        { assert (a + b)[0] == a[0]; assert (a + b)[1..] == a[1..] + b; }
        Then(head, LoadAll(a[1..] + b));
        { LoadAllAppend(a[1..], b); }
        Then(head, Then(LoadAll(a[1..]), LoadAll(b)));
        { ThenAssociative(head, LoadAll(a[1..]), LoadAll(b)); }
        Then(LoadAll(a), LoadAll(b));
      }
    }
  }

  lemma LoadOne(f: File)
    ensures LoadAll([f]) == LoadFile(f)
  {
    assert [f][1..] == [];
    var r := LoadFile(f);
    if r.Success? {
      assert r.value + [] == r.value;
    }
  }

  /** Naming the same file twice loads its transactions twice, one copy
      after the other. */
  lemma LoadSameFileTwice(f: File)
    requires LoadFile(f).Success?
    ensures LoadAll([f, f]) == Success(LoadFile(f).value + LoadFile(f).value)
  {
    assert [f, f] == [f] + [f];
    LoadAllAppend([f], [f]);
    LoadOne(f);
  }

  /** The run's load fails exactly when one of its files fails, and then
      with the error of the first failing file. */
  lemma LoadAllFirstFailure(files: seq<File>)
    ensures LoadAll(files).Failure? <==> exists i :: 0 <= i < |files| && LoadFile(files[i]).Failure?
    ensures LoadAll(files).Failure? ==>
            exists i :: 0 <= i < |files| && LoadFile(files[i]) == Failure(LoadAll(files).error) &&
              forall j :: 0 <= j < i ==> LoadFile(files[j]).Success?
  {
    if LoadAll(files).Success? {
      LoadAllSucceeds(files);
    } else {
      LoadAllFailing(files);
    }
  }

  /** A load that succeeds has every file succeed. */
  lemma {:induction false} LoadAllSucceeds(files: seq<File>)
    requires LoadAll(files).Success?
    ensures forall i :: 0 <= i < |files| ==> LoadFile(files[i]).Success?
  {
    if files != [] {
      LoadAllSucceeds(files[1..]);
      forall i | 0 < i < |files|
        ensures LoadFile(files[i]).Success?
      {
        assert files[1..][i - 1] == files[i];
      }
    }
  }

  /** A load that fails, fails with its first failing file. */
  lemma {:induction false} LoadAllFailing(files: seq<File>)
    requires LoadAll(files).Failure?
    ensures exists i :: 0 <= i < |files| && LoadFile(files[i]) == Failure(LoadAll(files).error) &&
              forall j :: 0 <= j < i ==> LoadFile(files[j]).Success?
  {
    if LoadFile(files[0]).Success? {
      LoadAllFailing(files[1..]);
      var i :| 0 <= i < |files[1..]| && LoadFile(files[1..][i]) == Failure(LoadAll(files[1..]).error) &&
            forall j :: 0 <= j < i ==> LoadFile(files[1..][j]).Success?;
      assert files[1..][i] == files[i + 1];
      forall j | 0 <= j < i + 1
        ensures LoadFile(files[j]).Success?
      {
        if j > 0 {
          assert files[1..][j - 1] == files[j];
        }
      }
    }
  }

  /** Number of content lines (all lines but the header) over the files. */
  function ContentLineCount(files: seq<File>): nat
  {
    if files == [] then 0
    else (match files[0] case Missing => 0 case Contents(lines) => if lines == [] then 0 else |lines| - 1)
         + ContentLineCount(files[1..])
  }

  /** A successful load yields exactly one transaction per content line of
      every file. */
  lemma {:induction false} LoadAllCount(files: seq<File>)
    requires LoadAll(files).Success?
    ensures |LoadAll(files).value| == ContentLineCount(files)
  {
    if files != [] {
      LoadAllCount(files[1..]);
      var lines := files[0].lines;
      ContentLinesInOrder(lines[1..], ReadColumns(lines[0]), WriteColumns(lines[0]));
    }
  }

  /** Every loaded transaction has exactly the sixteen slots of the
      driver's `std::array`, the shape `enqueueTransaction` takes. */
  lemma {:induction false} LoadAllSlots(files: seq<File>)
    requires LoadAll(files).Success?
    ensures forall t :: 0 <= t < |LoadAll(files).value| ==> |LoadAll(files).value[t]| == NumObjects
  {
    if files != [] {
      LoadAllSlots(files[1..]);
      var lines := files[0].lines;
      var readIndices, writeIndices := ReadColumns(lines[0]), WriteColumns(lines[0]);
      var head := ContentTransactions(lines[1..], readIndices, writeIndices).value;
      ContentLinesInOrder(lines[1..], readIndices, writeIndices);
      forall t | 0 <= t < |head|
        ensures |head[t]| == NumObjects
      {
        LineSlots(lines[1..][t], readIndices, writeIndices, 0);
      }
    }
  }

  /** Transaction `n` of a loaded file is its content line `n`. */
  lemma LoadFileLines(lines: seq<string>, n: nat)
    requires lines != [] && LoadFile(Contents(lines)).Success?
    requires n < |lines| - 1
    ensures |LoadFile(Contents(lines)).value| == |lines| - 1
    ensures LineTransaction(lines[n + 1], ReadColumns(lines[0]), WriteColumns(lines[0])).Success?
    ensures LoadFile(Contents(lines)).value[n] == LineTransaction(lines[n + 1], ReadColumns(lines[0]), WriteColumns(lines[0])).value
  {
    ContentLinesInOrder(lines[1..], ReadColumns(lines[0]), WriteColumns(lines[0]));
    assert lines[1..][n] == lines[n + 1];
  }

  /** The four exits: a path that does not open is code 1, a file without a
      header line code 2, and a content line whose first failing examined
      field has no digits or is too large is code 3 or 4. */
  lemma FileErrors(lines: seq<string>)
    ensures ExitCode(LoadFile(Missing).error) == 1
    ensures ExitCode(LoadFile(Contents([])).error) == 2
    ensures lines != [] && LoadFile(Contents(lines)).Failure? ==>
            exists n, k: nat :: 0 < n < |lines| &&
              (forall m :: 0 < m < n ==> LineTransaction(lines[m], ReadColumns(lines[0]), WriteColumns(lines[0])).Success?) &&
              FirstBadField(Fields(lines[n]), ReadColumns(lines[0]), WriteColumns(lines[0]), k) &&
              ExitCode(LoadFile(Contents(lines)).error) == (if Stoul(Fields(lines[n])[k]).error == InvalidArgument then 3 else 4)
  {
    if lines != [] && LoadFile(Contents(lines)).Failure? {
      BadLineError(lines, ReadColumns(lines[0]), WriteColumns(lines[0]), LoadFile(Contents(lines)).error);
    }
  }

  lemma BadLineError(lines: seq<string>, readIndices: set<nat>, writeIndices: set<nat>, error: LoadError)
    requires lines != [] && ContentTransactions(lines[1..], readIndices, writeIndices) == Failure(error)
    ensures exists n, k: nat :: 0 < n < |lines| &&
              (forall m :: 0 < m < n ==> LineTransaction(lines[m], readIndices, writeIndices).Success?) &&
              FirstBadField(Fields(lines[n]), readIndices, writeIndices, k) &&
              ExitCode(error) == (if Stoul(Fields(lines[n])[k]).error == InvalidArgument then 3 else 4)
  {
    var body := lines[1..];
    var n, k := ContentLinesBadField(body, readIndices, writeIndices);
    assert body[n] == lines[n + 1];
    forall m | 0 < m < n + 1
      ensures LineTransaction(lines[m], readIndices, writeIndices).Success?
    {
      assert body[m - 1] == lines[m];
    }
    AbortExitCode(Stoul(Fields(body[n])[k]).error);
  }

  /** A failing file's error is that of the first examined field `k`, on
      its first failing content line `n`, that does not convert. */
  lemma ContentLinesBadField(lines: seq<string>, readIndices: set<nat>, writeIndices: set<nat>) returns (n: nat, k: nat)
    requires ContentTransactions(lines, readIndices, writeIndices).Failure?
    ensures n < |lines| && FirstBadField(Fields(lines[n]), readIndices, writeIndices, k)
    ensures forall m :: 0 <= m < n ==> LineTransaction(lines[m], readIndices, writeIndices).Success?
    ensures ContentTransactions(lines, readIndices, writeIndices).error == AbortFor(Stoul(Fields(lines[n])[k]).error)
  {
    ContentLinesFirstFailure(lines, readIndices, writeIndices);
    n :| 0 <= n < |lines| &&
         LineTransaction(lines[n], readIndices, writeIndices) == Failure(ContentTransactions(lines, readIndices, writeIndices).error) &&
         forall m :: 0 <= m < n ==> LineTransaction(lines[m], readIndices, writeIndices).Success?;
    LineFails(lines[n], readIndices, writeIndices);
    k :| FirstBadField(Fields(lines[n]), readIndices, writeIndices, k) &&
         LineTransaction(lines[n], readIndices, writeIndices).error == AbortFor(Stoul(Fields(lines[n])[k]).error);
  }

  /** A header without any recognised label makes every transaction of the
      file entirely unset. */
  lemma NoRecognisedLabels(header: string, body: seq<string>, n: nat)
    requires ReadColumns(header) == {} && WriteColumns(header) == {}
    requires n < |body|
    ensures LoadFile(Contents([header] + body)).Success?
    ensures |LoadFile(Contents([header] + body)).value| == |body|
    ensures LoadFile(Contents([header] + body)).value[n] == UnsetSlots(NumObjects)
  {
    var lines := [header] + body;
    assert lines[1..] == body;
    forall m | 0 <= m < |body|
      ensures LineTransaction(body[m], {}, {}) == Success(UnsetSlots(NumObjects))
    {
      ScanCellsPastFields([], {}, {}, 0);
      ScanCellsUnmarked(Fields(body[m]), 0);
    }
    ContentLinesSucceed(body, {}, {});
    ContentLinesInOrder(body, {}, {});
  }

  /** With no marked column a line reads as unset slots only,
      whatever its fields. */
  lemma {:induction false} ScanCellsUnmarked(fields: seq<string>, k: nat)
    requires k <= NumObjects
    ensures ScanCells(fields, {}, {}, k) == ScanCells([], {}, {}, k)
    decreases NumObjects - k
  {
    if k < NumObjects {
      ScanCellsUnmarked(fields, k + 1);
    }
  }

  // ----- Writing a table of addresses and loading it back -----

  /** The text of one cell of a table row: the decimal address, or nothing. */
  function CellText(cell: Option<nat>): (t: string)
    ensures ',' !in t
    ensures t == [] <==> cell.None?
  {
    match cell
    case None => []
    case Some(n) => DigitsHaveNoComma(Decimal(n)); Decimal(n)
  }

  /** A table row written as a content line, one cell per column. */
  function RowLine(row: seq<Option<nat>>): string
  {
    if row == [] then [] else Join(seq(|row|, k requires 0 <= k < |row| => CellText(row[k])))
  }

  /** The slot cell `k` of a row should load as under the header's columns. */
  function RowSlot(row: seq<Option<nat>>, readIndices: set<nat>, writeIndices: set<nat>, k: nat): Slot
  {
    if k < |row| && row[k].Some? && (k in readIndices || k in writeIndices) then
      Some(Object(true, k in writeIndices, row[k].value))
    else None
  }

  /** Every address among the first sixteen cells fits an `unsigned long`. */
  predicate RowFits(row: seq<Option<nat>>)
  {
    forall k :: 0 <= k < |row| && k < NumObjects && row[k].Some? ==> row[k].value <= UlongMax
  }

  /** A written row delivers at most one field per cell. */
  lemma RowFieldCount(row: seq<Option<nat>>)
    ensures |Fields(RowLine(row))| <= |row|
  {
    if row == [] {
      FieldsJoin(RowLine(row));
    } else {
      FieldsOfCells(seq(|row|, m requires 0 <= m < |row| => CellText(row[m])));
    }
  }

  /** Field `k` of a written row is cell `k`'s text; only an empty last cell
      is not delivered. */
  lemma RowField(row: seq<Option<nat>>, k: nat)
    requires k < |row|
    ensures k < |Fields(RowLine(row))| ==> Fields(RowLine(row))[k] == CellText(row[k])
    ensures k >= |Fields(RowLine(row))| ==> row[k].None?
  {
    var cells := seq(|row|, m requires 0 <= m < |row| => CellText(row[m]));
    FieldsOfCells(cells);
    assert cells[k] == CellText(row[k]);
  }

  /** Round trip of one line: a row of addresses written as a content line
      loads back as the transaction whose slot `k` holds cell `k`'s address
      when the cell is set and column `k` is marked, and is unset otherwise. */
  lemma LineRoundTrip(row: seq<Option<nat>>, readIndices: set<nat>, writeIndices: set<nat>)
    requires RowFits(row)
    ensures LineTransaction(RowLine(row), readIndices, writeIndices).Success?
    ensures |LineTransaction(RowLine(row), readIndices, writeIndices).value| == NumObjects
    ensures forall k :: 0 <= k < NumObjects ==>
              LineTransaction(RowLine(row), readIndices, writeIndices).value[k] == RowSlot(row, readIndices, writeIndices, k)
  {
    var line := RowLine(row);
    var fields := Fields(line);
    RowFieldCount(row);
    forall k: nat | Examined(fields, readIndices, writeIndices, k)
      ensures Stoul(fields[k]).Success? && k < |row| && row[k].Some? && Stoul(fields[k]).value == row[k].value
    {
      RowField(row, k);
      StoulDecimal(row[k].value, []);
      assert Decimal(row[k].value) + [] == Decimal(row[k].value);
    }
    LineSucceeds(line, readIndices, writeIndices);
    LineSlots(line, readIndices, writeIndices, 0);
    forall k | 0 <= k < NumObjects
      ensures LineTransaction(line, readIndices, writeIndices).value[k] == RowSlot(row, readIndices, writeIndices, k)
    {
      LineSlots(line, readIndices, writeIndices, k);
      if k < |row| {
        RowField(row, k);
      }
    }
  }

  /** A table written as a file under `header`, one row per content line. */
  function TableFile(header: string, rows: seq<seq<Option<nat>>>): File
  {
    Contents([header] + seq(|rows|, m requires 0 <= m < |rows| => RowLine(rows[m])))
  }

  /** Round trip of a file: a table of addresses written under a header
      loads back row by row, each row as `LineRoundTrip` describes. */
  lemma FileRoundTrip(header: string, rows: seq<seq<Option<nat>>>)
    requires forall m :: 0 <= m < |rows| ==> RowFits(rows[m])
    ensures LoadFile(TableFile(header, rows)).Success?
    ensures |LoadFile(TableFile(header, rows)).value| == |rows|
    ensures forall m :: 0 <= m < |rows| ==>
              |LoadFile(TableFile(header, rows)).value[m]| == NumObjects &&
              forall k :: 0 <= k < NumObjects ==>
                LoadFile(TableFile(header, rows)).value[m][k] == RowSlot(rows[m], ReadColumns(header), WriteColumns(header), k)
  {
    var lines := TableFile(header, rows).lines;
    var body := lines[1..];
    forall m | 0 <= m < |rows|
      ensures body[m] == RowLine(rows[m])
    {
      assert body[m] == lines[m + 1];
    }
    ContentRoundTrip(body, rows, ReadColumns(header), WriteColumns(header));
  }

  /** The content lines written from the rows of a table load back as those
      rows. */
  lemma ContentRoundTrip(body: seq<string>, rows: seq<seq<Option<nat>>>, readIndices: set<nat>, writeIndices: set<nat>)
    requires |body| == |rows|
    requires forall m :: 0 <= m < |rows| ==> body[m] == RowLine(rows[m]) && RowFits(rows[m])
    ensures ContentTransactions(body, readIndices, writeIndices).Success?
    ensures |ContentTransactions(body, readIndices, writeIndices).value| == |rows|
    ensures forall m :: 0 <= m < |rows| ==>
              |ContentTransactions(body, readIndices, writeIndices).value[m]| == NumObjects &&
              forall k :: 0 <= k < NumObjects ==>
                ContentTransactions(body, readIndices, writeIndices).value[m][k] == RowSlot(rows[m], readIndices, writeIndices, k)
  {
    forall m | 0 <= m < |rows|
      ensures LineTransaction(body[m], readIndices, writeIndices).Success?
    {
      LineRoundTrip(rows[m], readIndices, writeIndices);
    }
    ContentLinesSucceed(body, readIndices, writeIndices);
    ContentLinesInOrder(body, readIndices, writeIndices);
    forall m | 0 <= m < |rows|
      ensures |ContentTransactions(body, readIndices, writeIndices).value[m]| == NumObjects
      ensures forall k :: 0 <= k < NumObjects ==>
                ContentTransactions(body, readIndices, writeIndices).value[m][k] == RowSlot(rows[m], readIndices, writeIndices, k)
    {
      LineRoundTrip(rows[m], readIndices, writeIndices);
    }
  }
}
