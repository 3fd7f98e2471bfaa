/** The file loader: every file named on the command line is read as a
    header line of column labels followed by content lines of comma-separated
    object addresses, one transaction per content line. */
module Loader {
  import opened Base
  import opened Text

  /** A command-line argument as the loader sees it: a path that cannot be
      opened, or the lines `std::getline` reads from the opened file. */
  datatype File = Missing | Contents(lines: seq<string>)

  /** The four ways loading aborts the run. */
  datatype LoadError = FileNotOpen | NoHeader | NotAnAddress | AddressOutOfRange

  /** The process exit status for each failure. */
  function ExitCode(e: LoadError): (code: nat)
    ensures 1 <= code <= 4
    ensures e == FileNotOpen <==> code == 1
    ensures e == NoHeader <==> code == 2
    ensures e == NotAnAddress <==> code == 3
    ensures e == AddressOutOfRange <==> code == 4
  {
    match e
    case FileNotOpen => 1
    case NoHeader => 2
    case NotAnAddress => 3
    case AddressOutOfRange => 4
  }

  const ReadPrefix: string := "Read object"
  const WritePrefix: string := "Written object"

  /** `set_contains`: membership in an index set. */
  predicate SetContains(s: set<nat>, key: nat)
  {
    key in s
  }

  // ----- Header -----

  /** Columns whose label begins with the read prefix. */
  function ReadColumns(header: string): set<nat>
  {
    var labels := Fields(header);
    set k | 0 <= k < |labels| && ReadPrefix <= labels[k]
  }

  /** Columns whose label does not begin with the read prefix but begins
      with the write prefix (the `else if`). */
  function WriteColumns(header: string): set<nat>
  {
    var labels := Fields(header);
    set k | 0 <= k < |labels| && !(ReadPrefix <= labels[k]) && WritePrefix <= labels[k]
  }

  /** The header loop: one label per comma-separated field, its index
      inserted into the read set or the write set by its prefix. */
  method ParseHeader(header: string) returns (readIndices: set<nat>, writeIndices: set<nat>)
    ensures readIndices == ReadColumns(header)
    ensures writeIndices == WriteColumns(header)
  {
    var labels := Fields(header);
    readIndices, writeIndices := {}, {};
    var i := 0;
    while i < |labels|
      invariant 0 <= i <= |labels|
      invariant readIndices == set k | 0 <= k < i && ReadPrefix <= labels[k]
      invariant writeIndices == set k | 0 <= k < i && !(ReadPrefix <= labels[k]) && WritePrefix <= labels[k]
    {
      var heading := labels[i];
      if ReadPrefix <= heading {
        readIndices := readIndices + {i};
      } else if WritePrefix <= heading {
        writeIndices := writeIndices + {i};
      }
      i := i + 1;
    }
  }

  /** No label begins with both prefixes: they differ in their second
      character. */
  lemma PrefixesExclusive(heading: string)
    ensures !(ReadPrefix <= heading && WritePrefix <= heading)
  {
    if ReadPrefix <= heading {
      assert heading[1] == 'e';
      assert !(WritePrefix <= heading) by {
        assert WritePrefix[1] == 'r';
      }
    }
  }

  /** Column `k` is a read column exactly when label `k` begins with
      "Read object", a write column exactly when it begins with "Written
      object", and never both. */
  lemma HeaderColumns(header: string, k: nat)
    ensures k in ReadColumns(header) <==> k < |Fields(header)| && ReadPrefix <= Fields(header)[k]
    ensures k in WriteColumns(header) <==> k < |Fields(header)| && WritePrefix <= Fields(header)[k]
    ensures ReadColumns(header) !! WriteColumns(header)
  {
    if k < |Fields(header)| {
      PrefixesExclusive(Fields(header)[k]);
    }
  }

  // ----- Content lines -----

  /** The condition under which the line loop converts field `k`: the loop
      is still below sixteen and inside the line, and the field is non-empty
      and in a marked column. */
  predicate Examined(fields: seq<string>, readIndices: set<nat>, writeIndices: set<nat>, k: nat)
  {
    k < NumObjects && k < |fields| && |fields[k]| != 0 &&
    (SetContains(readIndices, k) || SetContains(writeIndices, k))
  }

  /** What field `k` contributes: nothing (the slot stays unset), a
      populated slot, or the abort its conversion causes. */
  function CellSlot(fields: seq<string>, readIndices: set<nat>, writeIndices: set<nat>, k: nat): Result<Slot, LoadError>
  {
    if Examined(fields, readIndices, writeIndices, k) then
      match Stoul(fields[k])
      case Failure(e) => Failure(AbortFor(e))
      case Success(address) => Success(Some(Object(true, SetContains(writeIndices, k), address)))
    else Success(None)
  }

  /** Slots `k` to 15 of a line, left to right; the first failing field
      decides the failure. */
  function ScanCells(fields: seq<string>, readIndices: set<nat>, writeIndices: set<nat>, k: nat): Result<seq<Slot>, LoadError>
    requires k <= NumObjects
    decreases NumObjects - k
  {
    if k == NumObjects then Success([])
    else Then(Single(CellSlot(fields, readIndices, writeIndices, k)), ScanCells(fields, readIndices, writeIndices, k + 1))
  }

  /** The transaction a content line describes, or the error it causes. */
  function LineTransaction(line: string, readIndices: set<nat>, writeIndices: set<nat>): Result<Transaction, LoadError>
  {
    ScanCells(Fields(line), readIndices, writeIndices, 0)
  }

  /** `n` slots that were never written. */
  function UnsetSlots(n: nat): (slots: seq<Slot>)
    ensures |slots| == n && forall k :: 0 <= k < n ==> slots[k] == None
  {
    seq(n, _ => None)
  }

  /** Past the end of the line every remaining slot stays unset. */
  lemma {:induction false} ScanCellsPastFields(fields: seq<string>, readIndices: set<nat>, writeIndices: set<nat>, k: nat)
    requires k <= NumObjects && (|fields| <= k || k == NumObjects)
    ensures ScanCells(fields, readIndices, writeIndices, k) == Success(UnsetSlots(NumObjects - k))
    decreases NumObjects - k
  {
    if k < NumObjects {
      ScanCellsPastFields(fields, readIndices, writeIndices, k + 1);
      assert [None] + UnsetSlots(NumObjects - (k + 1)) == UnsetSlots(NumObjects - k);
    }
  }

  /** One step of the line loop over a field that contributes `slot`: the
      slots done so far, followed by slots `k` onwards, are the slots done so
      far with `slot` appended, followed by slots `k + 1` onwards. */
  lemma ScanCellsAdvance(fields: seq<string>, readIndices: set<nat>, writeIndices: set<nat>, done: seq<Slot>, k: nat, slot: Slot)
    requires k < NumObjects && CellSlot(fields, readIndices, writeIndices, k) == Success(slot)
    ensures Then(Success(done), ScanCells(fields, readIndices, writeIndices, k)) ==
            Then(Success(done + [slot]), ScanCells(fields, readIndices, writeIndices, k + 1))
  {
    ThenAssociative(Success(done), Success([slot]), ScanCells(fields, readIndices, writeIndices, k + 1));
  }

  /** A field that does not convert is the failure of the line. */
  lemma ScanCellsAbort(fields: seq<string>, readIndices: set<nat>, writeIndices: set<nat>, done: seq<Slot>, k: nat)
    requires k < NumObjects && CellSlot(fields, readIndices, writeIndices, k).Failure?
    ensures Then(Success(done), ScanCells(fields, readIndices, writeIndices, k)) ==
            Failure(CellSlot(fields, readIndices, writeIndices, k).error)
  {
  }

  /** The line loop: a fresh sixteen-slot array, fields converted left to
      right, the run aborted at the first field that is not an address. */
  method ParseLine(line: string, readIndices: set<nat>, writeIndices: set<nat>)
    returns (r: Result<Transaction, LoadError>)
    ensures r == LineTransaction(line, readIndices, writeIndices)
  {
    var objs := new Slot[NumObjects](_ => None);
    var fields := Fields(line);
    var i := 0;
    ghost var whole := ScanCells(fields, readIndices, writeIndices, 0);
    LineLoopStart(fields, readIndices, writeIndices, objs[..]);
    while i < NumObjects && i < |fields|
      invariant 0 <= i <= NumObjects
      invariant LineLoop(fields, readIndices, writeIndices, whole, objs[..], i)
    {
      var failed := StoreField(objs, fields, readIndices, writeIndices, whole, i);
      if failed.Some? {
        return Failure(failed.value);
      }
      i := i + 1;
    }
    r := Success(objs[..]);
    ScanCellsFinish(fields, readIndices, writeIndices, whole, objs[..], i);
  }

  /** One pass of the field loop over field `i`: a non-empty field in a
      marked column is converted and stored in slot `i`, and a field that
      does not convert ends the line with the abort it causes. */
  method StoreField(objs: array<Slot>, fields: seq<string>, readIndices: set<nat>, writeIndices: set<nat>,
                    ghost whole: Result<Transaction, LoadError>, i: nat)
    returns (failed: Option<LoadError>)
    requires i < NumObjects && i < |fields| && LineLoop(fields, readIndices, writeIndices, whole, objs[..], i)
    modifies objs
    ensures failed.Some? ==>
              CellSlot(fields, readIndices, writeIndices, i) == Failure(failed.value) &&
              objs[..] == old(objs[..]) && whole == Failure(failed.value)
    ensures failed.None? ==>
              CellSlot(fields, readIndices, writeIndices, i).Success? &&
              objs[..] == old(objs[..])[i := CellSlot(fields, readIndices, writeIndices, i).value] &&
              LineLoop(fields, readIndices, writeIndices, whole, objs[..], i + 1)
  {
    ghost var before := objs[..];
    var value := fields[i];
    if |value| != 0 && (SetContains(readIndices, i) || SetContains(writeIndices, i)) {
      var address := Stoul(value);
      if address.Failure? {
        LineLoopAbort(fields, readIndices, writeIndices, whole, before, i);
        return Some(AbortFor(address.error));
      }
      objs[i] := Some(Object(true, SetContains(writeIndices, i), address.value));
    }
    LineLoopStep(fields, readIndices, writeIndices, whole, before, objs[..], i);
    failed := None;
  }

  /** The line loop's invariant over its array `slots` before field `i`:
      the slots not yet reached are unset, and the slots done so far
      followed by what fields `i` onwards contribute make up `whole`, the
      line's transaction. */
  predicate LineLoop(fields: seq<string>, readIndices: set<nat>, writeIndices: set<nat>,
                     whole: Result<Transaction, LoadError>, slots: seq<Slot>, i: nat)
  {
    i <= NumObjects == |slots| &&
    (forall k :: i <= k < NumObjects ==> slots[k] == None) &&
    whole == Then(Success(slots[..i]), ScanCells(fields, readIndices, writeIndices, i))
  }

  lemma LineLoopStart(fields: seq<string>, readIndices: set<nat>, writeIndices: set<nat>, slots: seq<Slot>)
    requires |slots| == NumObjects && forall k :: 0 <= k < NumObjects ==> slots[k] == None
    ensures LineLoop(fields, readIndices, writeIndices, ScanCells(fields, readIndices, writeIndices, 0), slots, 0)
  {
    assert slots[..0] == [];
    ThenEmpty(ScanCells(fields, readIndices, writeIndices, 0));
  }

  /** Storing what field `i` contributes, and changing nothing else, keeps
      the invariant as the loop moves on. */
  lemma LineLoopStep(fields: seq<string>, readIndices: set<nat>, writeIndices: set<nat>,
                     whole: Result<Transaction, LoadError>, slots: seq<Slot>, after: seq<Slot>, i: nat)
    requires i < NumObjects && LineLoop(fields, readIndices, writeIndices, whole, slots, i)
    requires |after| == |slots| && forall k :: 0 <= k < |slots| && k != i ==> after[k] == slots[k]
    requires CellSlot(fields, readIndices, writeIndices, i) == Success(after[i])
    ensures LineLoop(fields, readIndices, writeIndices, whole, after, i + 1)
  {
    assert after[..i + 1] == slots[..i] + [after[i]];
    ScanCellsAdvance(fields, readIndices, writeIndices, slots[..i], i, after[i]);
  }

  /** A field that does not convert ends the loop with the line's
      failure. */
  lemma LineLoopAbort(fields: seq<string>, readIndices: set<nat>, writeIndices: set<nat>,
                      whole: Result<Transaction, LoadError>, slots: seq<Slot>, i: nat)
    requires i < NumObjects && LineLoop(fields, readIndices, writeIndices, whole, slots, i)
    requires CellSlot(fields, readIndices, writeIndices, i).Failure?
    ensures whole == Failure(CellSlot(fields, readIndices, writeIndices, i).error)
  {
    ScanCellsAbort(fields, readIndices, writeIndices, slots[..i], i);
  }

  /** When the line loop stops, the slots it has not reached are unset, so
      the whole array is the line's transaction. */
  lemma ScanCellsFinish(fields: seq<string>, readIndices: set<nat>, writeIndices: set<nat>,
                         whole: Result<Transaction, LoadError>, slots: seq<Slot>, i: nat)
    requires LineLoop(fields, readIndices, writeIndices, whole, slots, i)
    requires |fields| <= i || i == NumObjects
    ensures whole == Success(slots)
  {
    ScanCellsPastFields(fields, readIndices, writeIndices, i);
    assert slots[i..] == UnsetSlots(NumObjects - i);
    assert slots == slots[..i] + slots[i..];
  }

  /** What `ScanCells` from `k` means, slot by slot. */
  lemma ScanCellsMeaning(fields: seq<string>, readIndices: set<nat>, writeIndices: set<nat>, k: nat)
    requires k <= NumObjects
    ensures ScanCells(fields, readIndices, writeIndices, k).Success? <==>
            forall m :: k <= m < NumObjects ==> CellSlot(fields, readIndices, writeIndices, m).Success?
    ensures ScanCells(fields, readIndices, writeIndices, k).Success? ==>
            |ScanCells(fields, readIndices, writeIndices, k).value| == NumObjects - k &&
            forall m :: k <= m < NumObjects ==>
              ScanCells(fields, readIndices, writeIndices, k).value[m - k] == CellSlot(fields, readIndices, writeIndices, m).value
    ensures ScanCells(fields, readIndices, writeIndices, k).Failure? ==>
            exists m :: k <= m < NumObjects &&
              CellSlot(fields, readIndices, writeIndices, m) == Failure(ScanCells(fields, readIndices, writeIndices, k).error) &&
              forall m' :: k <= m' < m ==> CellSlot(fields, readIndices, writeIndices, m').Success?
  {
    if ScanCells(fields, readIndices, writeIndices, k).Success? {
      ScanCellsValues(fields, readIndices, writeIndices, k);
    } else {
      ScanCellsFirstFailure(fields, readIndices, writeIndices, k);
    }
  }

  /** Slots `k` to 15 that succeed hold each field's contribution in
      order. */
  lemma {:induction false} ScanCellsValues(fields: seq<string>, readIndices: set<nat>, writeIndices: set<nat>, k: nat)
    requires k <= NumObjects && ScanCells(fields, readIndices, writeIndices, k).Success?
    ensures var v := ScanCells(fields, readIndices, writeIndices, k).value;
            |v| == NumObjects - k &&
            forall m :: k <= m < NumObjects ==>
              CellSlot(fields, readIndices, writeIndices, m).Success? &&
              v[m - k] == CellSlot(fields, readIndices, writeIndices, m).value
    decreases NumObjects - k
  {
    if k < NumObjects {
      ScanCellsValues(fields, readIndices, writeIndices, k + 1);
      var c := CellSlot(fields, readIndices, writeIndices, k);
      var rest := ScanCells(fields, readIndices, writeIndices, k + 1).value;
      var v := ScanCells(fields, readIndices, writeIndices, k).value;
      assert v == [c.value] + rest;
      forall m | k < m < NumObjects
        ensures v[m - k] == CellSlot(fields, readIndices, writeIndices, m).value
      {
        assert v[m - k] == rest[m - (k + 1)];
      }
    }
  }

  /** Slots `k` to 15 that fail, fail with the first failing field. */
  lemma {:induction false} ScanCellsFirstFailure(fields: seq<string>, readIndices: set<nat>, writeIndices: set<nat>, k: nat)
    requires k <= NumObjects && ScanCells(fields, readIndices, writeIndices, k).Failure?
    ensures exists m :: k <= m < NumObjects &&
              CellSlot(fields, readIndices, writeIndices, m) == Failure(ScanCells(fields, readIndices, writeIndices, k).error) &&
              forall m' :: k <= m' < m ==> CellSlot(fields, readIndices, writeIndices, m').Success?
    decreases NumObjects - k
  {
    var c := CellSlot(fields, readIndices, writeIndices, k);
    if c.Success? {
      ScanCellsFirstFailure(fields, readIndices, writeIndices, k + 1);
      var m :| k + 1 <= m < NumObjects &&
            CellSlot(fields, readIndices, writeIndices, m) == Failure(ScanCells(fields, readIndices, writeIndices, k + 1).error) &&
            forall m' :: k + 1 <= m' < m ==> CellSlot(fields, readIndices, writeIndices, m').Success?;
      assert forall m' :: k <= m' < m ==> CellSlot(fields, readIndices, writeIndices, m').Success?;
    }
  }

  /** Field `k` is examined and does not convert, and every examined field
      before it converts. */
  predicate FirstBadField(fields: seq<string>, readIndices: set<nat>, writeIndices: set<nat>, k: nat)
  {
    Examined(fields, readIndices, writeIndices, k) && Stoul(fields[k]).Failure? &&
    forall m: nat :: m < k && Examined(fields, readIndices, writeIndices, m) ==> Stoul(fields[m]).Success?
  }

  /** The exit the driver takes for each `std::stoul` exception. */
  function AbortFor(e: StoulError): (r: LoadError)
    ensures r == NotAnAddress || r == AddressOutOfRange
  {
    if e == InvalidArgument then NotAnAddress else AddressOutOfRange
  }

  /** A field that is not a number ends the run with status 3, one out of
      range with status 4. */
  lemma AbortExitCode(e: StoulError)
    ensures ExitCode(AbortFor(e)) == if e == InvalidArgument then 3 else 4
  {
  }

  /** A content line succeeds exactly when every examined field converts. */
  lemma LineSucceeds(line: string, readIndices: set<nat>, writeIndices: set<nat>)
    ensures LineTransaction(line, readIndices, writeIndices).Success? <==>
            forall k: nat :: Examined(Fields(line), readIndices, writeIndices, k) ==> Stoul(Fields(line)[k]).Success?
  {
    var fields := Fields(line);
    ScanCellsMeaning(fields, readIndices, writeIndices, 0);
    if LineTransaction(line, readIndices, writeIndices).Success? {
      forall k: nat | Examined(fields, readIndices, writeIndices, k)
        ensures Stoul(fields[k]).Success?
      {
        assert CellSlot(fields, readIndices, writeIndices, k).Success?;
      }
    } else {
      var m :| 0 <= m < NumObjects && CellSlot(fields, readIndices, writeIndices, m).Failure?;
      assert Examined(fields, readIndices, writeIndices, m) && Stoul(fields[m]).Failure?;
    }
  }

  /** A content line that succeeds, slot by slot: slot `k` is populated
      exactly when field `k` is examined, and then it is valid, it is a write
      exactly when `k` is a write column, and its object is the converted
      field. Every other slot stays unset. */
  lemma LineSlots(line: string, readIndices: set<nat>, writeIndices: set<nat>, k: nat)
    requires LineTransaction(line, readIndices, writeIndices).Success?
    requires k < NumObjects
    ensures var t := LineTransaction(line, readIndices, writeIndices).value;
            |t| == NumObjects &&
            (t[k].Some? <==> Examined(Fields(line), readIndices, writeIndices, k)) &&
            (t[k].Some? ==>
               t[k].value.valid &&
               t[k].value.write == (k in writeIndices) &&
               Stoul(Fields(line)[k]) == Success(t[k].value.obj))
  {
    var fields := Fields(line);
    ScanCellsMeaning(fields, readIndices, writeIndices, 0);
    var t := LineTransaction(line, readIndices, writeIndices).value;
    assert t[k - 0] == CellSlot(fields, readIndices, writeIndices, k).value;
  }

  /** A content line that fails, fails with the error of its first examined
      field that does not convert: code 3 when the field has no digits, code
      4 when its value exceeds `ULONG_MAX`. */
  lemma LineFails(line: string, readIndices: set<nat>, writeIndices: set<nat>)
    requires LineTransaction(line, readIndices, writeIndices).Failure?
    ensures exists k: nat :: FirstBadField(Fields(line), readIndices, writeIndices, k) &&
              LineTransaction(line, readIndices, writeIndices).error == AbortFor(Stoul(Fields(line)[k]).error)
  {
    var fields := Fields(line);
    ScanCellsMeaning(fields, readIndices, writeIndices, 0);
    var e := LineTransaction(line, readIndices, writeIndices).error;
    var k :| 0 <= k < NumObjects &&
          CellSlot(fields, readIndices, writeIndices, k) == Failure(e) &&
          forall m' :: 0 <= m' < k ==> CellSlot(fields, readIndices, writeIndices, m').Success?;
    assert Examined(fields, readIndices, writeIndices, k);
    forall m: nat | m < k && Examined(fields, readIndices, writeIndices, m)
      ensures Stoul(fields[m]).Success?
    {
      assert CellSlot(fields, readIndices, writeIndices, m).Success?;
    }
    assert FirstBadField(fields, readIndices, writeIndices, k);
  }

  /** Fields from index 16 on are never looked at: whatever they hold, even
      text that is not a number, the line reads as its first sixteen fields. */
  lemma {:induction false} ScanCellsFirstSixteen(fields: seq<string>, readIndices: set<nat>, writeIndices: set<nat>, k: nat)
    requires |fields| >= NumObjects && k <= NumObjects
    ensures ScanCells(fields, readIndices, writeIndices, k) == ScanCells(fields[..NumObjects], readIndices, writeIndices, k)
    decreases NumObjects - k
  {
    if k < NumObjects {
      ScanCellsFirstSixteen(fields, readIndices, writeIndices, k + 1);
      assert CellSlot(fields, readIndices, writeIndices, k) == CellSlot(fields[..NumObjects], readIndices, writeIndices, k);
    }
  }

  lemma LineIgnoresExtraFields(fields: seq<string>, extra: seq<string>, readIndices: set<nat>, writeIndices: set<nat>)
    requires |fields| == NumObjects
    ensures ScanCells(fields + extra, readIndices, writeIndices, 0) == ScanCells(fields, readIndices, writeIndices, 0)
  {
    ScanCellsFirstSixteen(fields + extra, readIndices, writeIndices, 0);
    assert (fields + extra)[..NumObjects] == fields;
  }

  // ----- Files -----

  /** What each content line yields, line by line. */
  function LineResults(lines: seq<string>, readIndices: set<nat>, writeIndices: set<nat>): seq<Result<Transaction, LoadError>>
  {
    if lines == [] then [] else [LineTransaction(lines[0], readIndices, writeIndices)] + LineResults(lines[1..], readIndices, writeIndices)
  }

  lemma {:induction false} LineResultsAt(lines: seq<string>, readIndices: set<nat>, writeIndices: set<nat>)
    ensures |LineResults(lines, readIndices, writeIndices)| == |lines|
    ensures forall n :: 0 <= n < |lines| ==>
              LineResults(lines, readIndices, writeIndices)[n] == LineTransaction(lines[n], readIndices, writeIndices)
  {
    if lines != [] {
      LineResultsAt(lines[1..], readIndices, writeIndices);
      forall n | 0 < n < |lines|
        ensures LineResults(lines, readIndices, writeIndices)[n] == LineTransaction(lines[n], readIndices, writeIndices)
      {
        assert lines[1..][n - 1] == lines[n];
      }
    }
  }

  /** The transactions of a file's content lines, in order, or the failure
      of the first line that fails. */
  function ContentTransactions(lines: seq<string>, readIndices: set<nat>, writeIndices: set<nat>): Result<seq<Transaction>, LoadError>
  {
    Collect(LineResults(lines, readIndices, writeIndices))
  }

  /** The first content line, then the others. */
  lemma ContentTransactionsCons(lines: seq<string>, readIndices: set<nat>, writeIndices: set<nat>)
    requires lines != []
    ensures ContentTransactions(lines, readIndices, writeIndices) ==
            Then(Single(LineTransaction(lines[0], readIndices, writeIndices)),
                 ContentTransactions(lines[1..], readIndices, writeIndices))
  {
  }

  /** One file: opened, its header read and parsed, then its content lines. */
  function LoadFile(file: File): Result<seq<Transaction>, LoadError>
  {
    match file
    case Missing => Failure(FileNotOpen)
    case Contents(lines) =>
      if lines == [] then Failure(NoHeader)
      else ContentTransactions(lines[1..], ReadColumns(lines[0]), WriteColumns(lines[0]))
  }

  /** All files in argument order, each file's transactions after those of
      the files before it; the first failure aborts. */
  function LoadAll(files: seq<File>): Result<seq<Transaction>, LoadError>
  {
    if files == [] then Success([]) else Then(LoadFile(files[0]), LoadAll(files[1..]))
  }

  /** The loading loop over the command-line files. */
  method LoadTests(files: seq<File>) returns (r: Result<seq<Transaction>, LoadError>)
    ensures r == LoadAll(files)
  {
    ghost var whole := LoadAll(files);
    var tests: seq<Transaction> := [];
    var f := 0;
    FilesStart(files);
    while f < |files|
      invariant 0 <= f <= |files|
      invariant whole == Then(Success(tests), LoadAll(files[f..]))
    {
      var source := files[f];
      FileStep(whole, tests, files, f);
      if source.Missing? {
        return Failure(FileNotOpen);
      }
      if |source.lines| == 0 {
        return Failure(NoHeader);
      }
      var readIndices, writeIndices := ParseHeader(source.lines[0]);
      var n := 1;
      while n < |source.lines|
        invariant 1 <= n <= |source.lines|
        invariant whole == Then(Success(tests),
                    Then(ContentTransactions(source.lines[n..], readIndices, writeIndices), LoadAll(files[f + 1..])))
      {
        var objs := ParseLine(source.lines[n], readIndices, writeIndices);
        LineStep(whole, tests, source.lines, n, readIndices, writeIndices, LoadAll(files[f + 1..]), objs);
        if objs.Failure? {
          return Failure(objs.error);
        }
        tests := tests + [objs.value];
        n := n + 1;
      }
      FileDone(whole, tests, source.lines, readIndices, writeIndices, LoadAll(files[f + 1..]));
      f := f + 1;
    }
    FilesDone(whole, tests, files);
    r := Success(tests);
  }

  lemma FilesStart(files: seq<File>)
    ensures LoadAll(files) == Then(Success([]), LoadAll(files[0..]))
  {
    assert files[0..] == files;
    ThenEmpty(LoadAll(files));
  }

  /** Moving to the next file: the run's result is the transactions so far,
      then this file's, then the rest. */
  lemma FileStep(whole: Result<seq<Transaction>, LoadError>, tests: seq<Transaction>, files: seq<File>, f: nat)
    requires f < |files| && whole == Then(Success(tests), LoadAll(files[f..]))
    ensures files[f].Missing? ==> whole == Failure(FileNotOpen)
    ensures files[f] == Contents([]) ==> whole == Failure(NoHeader)
    ensures files[f].Contents? && files[f].lines != [] ==>
            var lines := files[f].lines;
            whole == Then(Success(tests),
                       Then(ContentTransactions(lines[1..], ReadColumns(lines[0]), WriteColumns(lines[0])), LoadAll(files[f + 1..])))
  {
    assert files[f..][1..] == files[f + 1..];
    ThenAssociative(Success(tests), LoadFile(files[f]), LoadAll(files[f + 1..]));
  }

  /** One content line in the line loop: its failure is the run's failure,
      its transaction is appended otherwise. */
  lemma LineStep(whole: Result<seq<Transaction>, LoadError>, tests: seq<Transaction>, lines: seq<string>, n: nat,
                 readIndices: set<nat>, writeIndices: set<nat>, tail: Result<seq<Transaction>, LoadError>,
                 objs: Result<Transaction, LoadError>)
    requires n < |lines| && objs == LineTransaction(lines[n], readIndices, writeIndices)
    requires whole == Then(Success(tests), Then(ContentTransactions(lines[n..], readIndices, writeIndices), tail))
    ensures objs.Failure? ==> whole == Failure(objs.error)
    ensures objs.Success? ==>
            whole == Then(Success(tests + [objs.value]), Then(ContentTransactions(lines[n + 1..], readIndices, writeIndices), tail))
  {
    ContentTransactionsCons(lines[n..], readIndices, writeIndices);
    assert lines[n..][1..] == lines[n + 1..];
    var rest := ContentTransactions(lines[n + 1..], readIndices, writeIndices);
    ThenAssociative(Single(objs), rest, tail);
    if objs.Success? {
      ThenAssociative(Success(tests), Success([objs.value]), Then(rest, tail));
    }
  }

  /** The line loop reaches the end of the file. */
  lemma FileDone(whole: Result<seq<Transaction>, LoadError>, tests: seq<Transaction>, lines: seq<string>,
                 readIndices: set<nat>, writeIndices: set<nat>, tail: Result<seq<Transaction>, LoadError>)
    requires whole == Then(Success(tests), Then(ContentTransactions(lines[|lines|..], readIndices, writeIndices), tail))
    ensures whole == Then(Success(tests), tail)
  {
    assert lines[|lines|..] == [];
    ThenEmpty(tail);
  }

  /** The file loop reaches the last argument. */
  lemma FilesDone(whole: Result<seq<Transaction>, LoadError>, tests: seq<Transaction>, files: seq<File>)
    requires whole == Then(Success(tests), LoadAll(files[|files|..]))
    ensures whole == Success(tests)
  {
    assert files[|files|..] == [];
    assert tests + [] == tests;
  }
}
