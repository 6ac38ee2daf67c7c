/** The filename selection of `create_filtered_zip`: the set of names read
    from one column of the chunk's CSV, and the archive's member names
    filtered down to that set. The CSV is taken as already parsed by
    `csv.DictReader`: each row maps the header's column names to a field,
    `None` standing for the value a row too short for the header gets. */
module Selection {
  import opened PyText

  datatype Option<T> = None | Some(value: T)

  datatype Result<T, E> = Ok(value: T) | Err(error: E)

  /** The two ways reading the CSV can fail: the `KeyError` for a column the
      row does not have ("does not contain column"), and any other exception
      ("Error reading CSV file"), here the `.strip()` of a `None` field. */
  datatype CsvError = MissingColumn(column: string) | ReadFailure

  type DictRow = map<string, Option<string>>

  /** `row[column].strip()` succeeds on this row. */
  predicate Readable(row: DictRow, column: string)
  {
    column in row && row[column].Some?
  }

  /** The stripped value of the column on a readable row. */
  function RowName(row: DictRow, column: string): string
    requires Readable(row, column)
  {
    Strip(row[column].value)
  }

  /** One pass of the row loop: fail on the row, or add its stripped value to
      the set when it is not empty. */
  function RowStep(files: set<string>, row: DictRow, column: string): Result<set<string>, CsvError>
  {
    if column !in row then Err(MissingColumn(column))
    else match row[column]
      case None => Err(ReadFailure)
      case Some(v) =>
        var filename := Strip(v);
        Ok(if filename != "" then files + {filename} else files)
  }

  /** The outcome of the row loop over `rows`: the rows are taken in order,
      so the first row that fails decides the error. */
  function ReadFilenames(rows: seq<DictRow>, column: string): Result<set<string>, CsvError>
  {
    if rows == [] then Ok({})
    else match ReadFilenames(rows[..|rows| - 1], column)
      case Err(e) => Err(e)
      case Ok(files) => RowStep(files, rows[|rows| - 1], column)
  }

  /** The filename a row contributes: its stripped column value, unless the
      row is unreadable or the value is blank. */
  function KeptName(row: DictRow, column: string): Option<string>
  {
    if Readable(row, column) && RowName(row, column) != "" then Some(RowName(row, column)) else None
  }

  /** The filenames the rows name: every non-blank stripped column value. */
  ghost function NamedFiles(rows: seq<DictRow>, column: string): set<string>
  {
    set j | 0 <= j < |rows| && KeptName(rows[j], column).Some? :: KeptName(rows[j], column).value
  }

  /** The names of the rows are those of all rows but the last, plus the
      last row's name when it has a non-blank one. */
  lemma NamedFilesSnoc(rows: seq<DictRow>, column: string)
    requires rows != []
    ensures var init, kept := rows[..|rows| - 1], KeptName(rows[|rows| - 1], column);
      NamedFiles(rows, column) == NamedFiles(init, column) + (if kept.Some? then {kept.value} else {})
  {
    var init, kept := rows[..|rows| - 1], KeptName(rows[|rows| - 1], column);
    var extra := if kept.Some? then {kept.value} else {};
    forall x | x in NamedFiles(rows, column) ensures x in NamedFiles(init, column) + extra {
      var j :| 0 <= j < |rows| && KeptName(rows[j], column).Some? && KeptName(rows[j], column).value == x;
      if j < |init| {
        assert rows[j] == init[j];
      }
    }
    forall x | x in NamedFiles(init, column) ensures x in NamedFiles(rows, column) {
      var j :| 0 <= j < |init| && KeptName(init[j], column).Some? && KeptName(init[j], column).value == x;
      assert rows[j] == init[j];
    }
  }

  /** The row loop succeeds exactly when every row is readable, and then the
      set holds exactly the non-blank stripped column values: blank and
      whitespace-only values never enter it, duplicates collapse. With no
      rows the loop never runs, the set is empty and nothing fails. */
  lemma {:induction false} ReadFilenamesOk(rows: seq<DictRow>, column: string)
    ensures ReadFilenames(rows, column).Ok? <==> forall j :: 0 <= j < |rows| ==> Readable(rows[j], column)
    ensures ReadFilenames(rows, column).Ok? ==> ReadFilenames(rows, column).value == NamedFiles(rows, column)
  {
    if rows != [] {
      var init := rows[..|rows| - 1];
      ReadFilenamesOk(init, column);
      NamedFilesSnoc(rows, column);
      assert forall j :: 0 <= j < |init| ==> init[j] == rows[j];
    }
  }

  /** Once a prefix of the rows has failed, the loop has stopped: the whole
      read fails with the same error. */
  lemma {:induction false} ReadFilenamesStopsAtError(rows: seq<DictRow>, column: string, k: nat)
    requires k <= |rows| && ReadFilenames(rows[..k], column).Err?
    ensures ReadFilenames(rows, column) == ReadFilenames(rows[..k], column)
    decreases |rows| - k
  {
    if k < |rows| {
      assert rows[..k + 1][..k] == rows[..k];
      ReadFilenamesStopsAtError(rows, column, k + 1);
    } else {
      assert rows[..k] == rows;
    }
  }

  /** The first unreadable row decides the error: a missing column key gives
      the "does not contain column" error, a `None` field the generic one. */
  lemma FirstFailingRow(rows: seq<DictRow>, column: string, j: nat)
    requires j < |rows| && !Readable(rows[j], column)
    requires forall i :: 0 <= i < j ==> Readable(rows[i], column)
    ensures ReadFilenames(rows, column)
         == Err(if column !in rows[j] then MissingColumn(column) else ReadFailure)
  {
    var init := rows[..j];
    ReadFilenamesOk(init, column);
    assert rows[..j + 1][..j] == init;
    ReadFilenamesStopsAtError(rows, column, j + 1);
  }

  /** A column that is not in the CSV header is missing from every row: the
      read fails with "does not contain column" as soon as there is one row,
      and succeeds with the empty set when there is none. */
  lemma ColumnNotInHeader(rows: seq<DictRow>, column: string)
    requires forall j :: 0 <= j < |rows| ==> column !in rows[j]
    ensures ReadFilenames(rows, column) == if rows == [] then Ok({}) else Err(MissingColumn(column))
  {
    if rows != [] {
      FirstFailingRow(rows, column, 0);
    }
  }

  /** Every kept filename is non-blank and already stripped. */
  lemma NamedFilesAreStripped(rows: seq<DictRow>, column: string, name: string)
    requires name in NamedFiles(rows, column)
    ensures name != "" && !AllSpace(name) && Strip(name) == name
  {
    var j :| 0 <= j < |rows| && KeptName(rows[j], column).Some? && KeptName(rows[j], column).value == name;
    StripIdempotent(rows[j][column].value);
    StripEmptyIffBlank(name);
  }

  /** The row loop of `create_filtered_zip`, adding to a mutable set. */
  method CollectFilenames(rows: seq<DictRow>, column: string) returns (r: Result<set<string>, CsvError>)
    ensures r == ReadFilenames(rows, column)
    ensures r.Ok? <==> forall j :: 0 <= j < |rows| ==> Readable(rows[j], column)
    ensures r.Ok? ==> r.value == NamedFiles(rows, column)
  {
    ReadFilenamesOk(rows, column);
    var filesToExtract: set<string> := {};
    for i := 0 to |rows|
      invariant ReadFilenames(rows[..i], column) == Ok(filesToExtract)
    {
      assert rows[..i + 1][..i] == rows[..i];
      var row := rows[i];
      if column !in row {
        ReadFilenamesStopsAtError(rows, column, i + 1);
        return Err(MissingColumn(column));
      }
      match row[column]
      case None =>
        ReadFilenamesStopsAtError(rows, column, i + 1);
        return Err(ReadFailure);
      case Some(v) =>
        var filename := Strip(v);
        if filename != "" {
          filesToExtract := filesToExtract + {filename};
        }
    }
    assert rows[..|rows|] == rows;
    r := Ok(filesToExtract);
  }

  /** `[f for f in names if f in keep]`. */
  function FilterNames(names: seq<string>, keep: set<string>): (r: seq<string>)
    ensures |r| <= |names|
    ensures forall k :: 0 <= k < |r| ==> r[k] in keep && r[k] in names
  {
    if names == [] then []
    else
      var init, last := names[..|names| - 1], names[|names| - 1];
      var r := FilterNames(init, keep);
      assert forall k :: 0 <= k < |r| ==> r[k] in init ==> r[k] in names;
      if last in keep then r + [last] else r
  }

  /** The positions of `names` whose name is in `keep`, in increasing order. */
  function KeptPositions(names: seq<string>, keep: set<string>): seq<nat>
  {
    if names == [] then []
    else
      var r := KeptPositions(names[..|names| - 1], keep);
      if names[|names| - 1] in keep then r + [|names| - 1] else r
  }

  lemma {:induction false} KeptPositionsBounded(names: seq<string>, keep: set<string>)
    ensures forall k :: 0 <= k < |KeptPositions(names, keep)| ==> KeptPositions(names, keep)[k] < |names|
    ensures forall a, b :: 0 <= a < b < |KeptPositions(names, keep)| ==>
              KeptPositions(names, keep)[a] < KeptPositions(names, keep)[b]
  {
    if names != [] {
      KeptPositionsBounded(names[..|names| - 1], keep);
    }
  }

  lemma {:induction false} FilterNamesAt(names: seq<string>, keep: set<string>)
    ensures var r, idx := FilterNames(names, keep), KeptPositions(names, keep);
      && |idx| == |r|
      && (forall k :: 0 <= k < |idx| ==> idx[k] < |names| && r[k] == names[idx[k]])
  {
    if names != [] {
      var init, last := names[..|names| - 1], names[|names| - 1];
      FilterNamesAt(init, keep);
      var r0, idx0 := FilterNames(init, keep), KeptPositions(init, keep);
      var r, idx := FilterNames(names, keep), KeptPositions(names, keep);
      forall k | 0 <= k < |idx0| ensures idx[k] < |names| && r[k] == names[idx[k]] {
        assert idx[k] == idx0[k] && r[k] == r0[k] && init[idx0[k]] == names[idx0[k]];
      }
    }
  }

  lemma {:induction false} KeptPositionsComplete(names: seq<string>, keep: set<string>)
    ensures forall j :: 0 <= j < |names| && names[j] in keep ==> j in KeptPositions(names, keep)
  {
    if names != [] {
      var init := names[..|names| - 1];
      KeptPositionsComplete(init, keep);
      forall j | 0 <= j < |init| && names[j] in keep ensures j in KeptPositions(names, keep) {
        assert init[j] == names[j];
      }
    }
  }

  /** The filtered list is the archive's list read at exactly the positions
      whose name is in the set, in archive order: a subsequence of the member
      list that skips only names outside the set. */
  lemma FilterNamesPositions(names: seq<string>, keep: set<string>)
    ensures var r, idx := FilterNames(names, keep), KeptPositions(names, keep);
      && |idx| == |r|
      && (forall k :: 0 <= k < |idx| ==> idx[k] < |names| && r[k] == names[idx[k]])
      && (forall a, b :: 0 <= a < b < |idx| ==> idx[a] < idx[b])
      && (forall j :: 0 <= j < |names| && names[j] in keep ==> j in idx)
  {
    KeptPositionsBounded(names, keep);
    FilterNamesAt(names, keep);
    KeptPositionsComplete(names, keep);
  }

  /** Each name in the set occurs in the filtered list as often as in the
      archive's list; a name outside the set never does. */
  lemma {:induction false} FilterNamesCounts(names: seq<string>, keep: set<string>, x: string)
    ensures multiset(FilterNames(names, keep))[x] == if x in keep then multiset(names)[x] else 0
  {
    if names != [] {
      var init := names[..|names| - 1];
      FilterNamesCounts(init, keep, x);
      assert names == init + [names[|names| - 1]];
    }
  }

  /** Names in the set that the archive does not hold contribute nothing:
      filtering by the set is filtering by its part the archive holds. */
  lemma FilterIgnoresAbsentNames(names: seq<string>, keep: set<string>)
    ensures FilterNames(names, keep) == FilterNames(names, keep * (set x | x in names))
  {
    FilterKeepsOnlyListed(names, keep * (set x | x in names), keep);
  }

  /** Only the part of the set that occurs in the list matters. */
  lemma {:induction false} FilterKeepsOnlyListed(names: seq<string>, keep: set<string>, wider: set<string>)
    requires keep <= wider && forall x :: x in wider && x in names ==> x in keep
    ensures FilterNames(names, keep) == FilterNames(names, wider)
  {
    if names != [] {
      FilterKeepsOnlyListed(names[..|names| - 1], keep, wider);
    }
  }
}
