/** The ingestion stage: monthly files whose name carries a requested month
    label are appended, in sorted path order, to the `green_tripdata` table.
    The file system is a parameter: the paths the glob pattern matched, and
    what reading and appending each one gives. */
module Ingest {
  import opened Wrappers
  import opened Strings
  import opened PathOrder
  import opened Trips
  import opened Seqs

  /** `filename.split('-')[1].split('.')[0]`: the second `-`-separated
      segment up to its first `.`; None where `[1]` raises IndexError. */
  function MonthLabel(filename: string): (month: Option<string>)
  {
    var segments := Split(filename, '-');
    if |segments| < 2 then None else Some(Split(segments[1], '.')[0])
  }

  /** Only a name without any `-` lacks a label; `.split('.')[0]` never fails. */
  lemma MonthLabelMissingIff(filename: string)
    ensures MonthLabel(filename).None? <==> '-' !in filename
  {
    NoOccurrences(filename, '-');
  }

  /** The label is the text between the first `-` and the next `-`, cut at its
      first `.`: the segment-level reading of the split expression. */
  lemma MonthLabelBySearch(filename: string)
    ensures MonthLabel(filename) ==
      if '-' !in filename then None
      else
        var rest := filename[Find(filename, '-') + 1..];
        var segment := rest[..Find(rest, '-')];
        Some(segment[..Find(segment, '.')])
  {
    MonthLabelMissingIff(filename);
    if '-' in filename {
      var rest := filename[Find(filename, '-') + 1..];
      var segment := rest[..Find(rest, '-')];
      SplitHead(filename, '-');
      SplitHead(rest, '-');
      SplitHead(segment, '.');
      assert Split(filename, '-')[1] == Split(filename, '-')[1..][0];
    }
  }

  /** `month` is the run of `filename` from offset `start`: it holds
      neither `-` nor `.`, and ends at a `-`, a `.` or the end of the name. */
  predicate RunAt(filename: string, start: int, month: string)
  {
    && 0 <= start && start + |month| <= |filename|
    && filename[start..start + |month|] == month
    && '-' !in month && '.' !in month
    && (start + |month| == |filename| || filename[start + |month|] == '-' || filename[start + |month|] == '.')
  }

  /** Searching for the next `-`, then for the first `.`, finds the run. */
  lemma SearchedRunShape(filename: string, start: nat)
    requires start <= |filename|
    ensures var rest := filename[start..];
            var segment := rest[..Find(rest, '-')];
            RunAt(filename, start, segment[..Find(segment, '.')])
  {
    var rest := filename[start..];
    var i := Find(rest, '-');
    var segment := rest[..i];
    var j := Find(segment, '.');
    var month := segment[..j];
    assert month == filename[start..start + j];
    forall k | 0 <= k < |month| ensures month[k] != '-' {
      assert month[k] == segment[k];
    }
    if j < |segment| {
      assert filename[start + j] == segment[j];
    } else if i < |rest| {
      assert filename[start + j] == rest[i];
    }
  }

  /** Character by character: the label is the run that starts right after
      the first `-` of the name. */
  lemma MonthLabelIsRunAfterFirstDash(filename: string)
    requires '-' in filename
    ensures MonthLabel(filename).Some?
    ensures RunAt(filename, Find(filename, '-') + 1, MonthLabel(filename).value)
  {
    MonthLabelBySearch(filename);
    SearchedRunShape(filename, Find(filename, '-') + 1);
  }

  /** A name shaped like the glob pattern `<prefix>-<mm>.parquet` carries the
      label `<mm>`: `green_tripdata_2025-03.parquet` is labelled `03`. */
  lemma MonthLabelOfMonthlyFile(prefix: string, mm: string)
    requires '-' !in prefix
    requires '-' !in mm && '.' !in mm
    ensures MonthLabel(prefix + "-" + mm + ".parquet") == Some(mm)
  {
    var f := prefix + "-" + mm + ".parquet";
    assert f[|prefix|] == '-' && f[..|prefix|] == prefix;
    assert Find(f, '-') == |prefix|;
    var rest := f[|prefix| + 1..];
    assert rest == mm + ".parquet";
    assert '-' !in rest;
    assert Find(rest, '-') == |rest|;
    assert rest[..|rest|] == rest;
    assert rest[|mm|] == '.' && rest[..|mm|] == mm;
    assert Find(rest, '.') == |mm|;
    MonthLabelBySearch(f);
  }

  /** What reading a file and appending its frame to the table gives: its rows,
      or an exception (which may happen to be an IndexError) and no rows. */
  datatype FileContent =
    | Readable(rows: seq<Trip>)
    | Unreadable(raisesIndexError: bool)

  /** How the loop disposed of one file. The source reports this only in
      log lines, and logs nothing for a file it does not request. */
  datatype FileStatus =
    | Imported(rowCount: nat)  // read and appended
    | NotRequested             // label not among the target months: skipped
    | MalformedName            // IndexError caught: reported as a malformed name
    | Failed                   // any other exception caught and reported

  /** The fate of the file at `path` in one run of the loop body. */
  function Status(path: string, targetMonths: seq<string>, disk: string -> FileContent): FileStatus
  {
    var month := MonthLabel(Basename(path));
    if month.None? then MalformedName
    else if month.value !in targetMonths then NotRequested
    else match disk(path)
      case Readable(rows) => Imported(|rows|)
      case Unreadable(indexError) => if indexError then MalformedName else Failed
  }

  /** The rows one file adds to the table. */
  function Appended(path: string, targetMonths: seq<string>, disk: string -> FileContent): seq<Trip>
  {
    if Status(path, targetMonths, disk).Imported? then disk(path).rows else []
  }

  /** The rows each file of a run over `paths` adds, file by file. */
  function Chunks(paths: seq<string>, targetMonths: seq<string>, disk: string -> FileContent): (chunks: seq<seq<Trip>>)
    ensures |chunks| == |paths|
  {
    Map(paths, path => Appended(path, targetMonths, disk))
  }

  /** The rows a run over `paths`, in that order, adds to the table. */
  function Ingested(paths: seq<string>, targetMonths: seq<string>, disk: string -> FileContent): seq<Trip>
  {
    Concat(Chunks(paths, targetMonths, disk))
  }

  /** The statuses of a run over `paths`: one per file, in visiting order. */
  function Statuses(paths: seq<string>, targetMonths: seq<string>, disk: string -> FileContent): (statuses: seq<FileStatus>)
    ensures |statuses| == |paths|
  {
    Map(paths, path => Status(path, targetMonths, disk))
  }

  /** A file is appended exactly when its label is one of the requested
      strings, compared as is (so `1` does not select `01`), and it reads and
      writes without an exception. */
  lemma ImportedIff(path: string, targetMonths: seq<string>, disk: string -> FileContent)
    ensures Status(path, targetMonths, disk).Imported? <==>
      && '-' in Basename(path)
      && MonthLabel(Basename(path)).Some? && MonthLabel(Basename(path)).value in targetMonths
      && disk(path).Readable?
  {
    MonthLabelMissingIff(Basename(path));
  }

  /** A base name without `-` raises IndexError: the file gets the
      malformed-name status and adds no rows, whatever its content. */
  lemma NoDashSkipped(path: string, targetMonths: seq<string>, disk: string -> FileContent)
    requires '-' !in Basename(path)
    ensures Status(path, targetMonths, disk) == MalformedName
    ensures Appended(path, targetMonths, disk) == []
  {
    MonthLabelMissingIff(Basename(path));
  }

  /** The files of a run contribute independently and in order: whatever
      happens to the files of `a` (a failure included), the files of `b`
      still add their rows after them. */
  lemma IngestedConcat(a: seq<string>, b: seq<string>, targetMonths: seq<string>, disk: string -> FileContent)
    ensures Ingested(a + b, targetMonths, disk) == Ingested(a, targetMonths, disk) + Ingested(b, targetMonths, disk)
  {
    MapAppend(a, b, path => Appended(path, targetMonths, disk));
    ConcatAppend(Chunks(a, targetMonths, disk), Chunks(b, targetMonths, disk));
  }

  /** A file adds a row exactly when it is imported and holds the row. */
  lemma AppendedMembership(path: string, targetMonths: seq<string>, disk: string -> FileContent, t: Trip)
    ensures t in Appended(path, targetMonths, disk) <==>
      Status(path, targetMonths, disk).Imported? && t in disk(path).rows
  {
    if Status(path, targetMonths, disk).Imported? {
      assert disk(path).Readable?;
    }
  }

  /** A row is added by a run exactly when some file of the run was imported
      and holds it. */
  lemma IngestedRowsComeFromImportedFiles(paths: seq<string>, targetMonths: seq<string>, disk: string -> FileContent, t: Trip)
    ensures t in Ingested(paths, targetMonths, disk) <==>
      exists k :: 0 <= k < |paths| && Status(paths[k], targetMonths, disk).Imported? && t in disk(paths[k]).rows
  {
    var chunks := Chunks(paths, targetMonths, disk);
    ConcatMembership(chunks, t);
    forall k | 0 <= k < |paths|
      ensures t in chunks[k] <==> Status(paths[k], targetMonths, disk).Imported? && t in disk(paths[k]).rows
    {
      assert chunks[k] == Appended(paths[k], targetMonths, disk);
      AppendedMembership(paths[k], targetMonths, disk, t);
    }
  }

  /** Rows added by a run, counted from its statuses. */
  function ImportedRowCount(statuses: seq<FileStatus>): nat
  {
    if statuses == [] then 0
    else
      var last := statuses[|statuses| - 1];
      ImportedRowCount(statuses[..|statuses| - 1]) + (if last.Imported? then last.rowCount else 0)
  }

  /** The table grows by exactly the row counts of the imported files. */
  lemma {:induction false} IngestedLength(paths: seq<string>, targetMonths: seq<string>, disk: string -> FileContent)
    ensures |Ingested(paths, targetMonths, disk)| == ImportedRowCount(Statuses(paths, targetMonths, disk))
    decreases |paths|
  {
    if paths != [] {
      var init := paths[..|paths| - 1];
      IngestedLength(init, targetMonths, disk);
      MapPrefix(paths, |paths| - 1, path => Appended(path, targetMonths, disk));
      MapPrefix(paths, |paths| - 1, path => Status(path, targetMonths, disk));
    }
  }

  /** The `green_tripdata` table: its rows in insertion order. */
  class Table {
    var rows: seq<Trip>

    constructor ()
      ensures rows == []
    {
      rows := [];
    }

    /** `df.to_sql(..., if_exists='append')`: the frame's rows go after the
        rows already there, which stay as they were. */
    method Append(frame: seq<Trip>)
      modifies this
      ensures rows == old(rows) + frame
    {
      rows := rows + frame;
    }
  }

  /** For a file `<dir>/<prefix>-<mm>.parquet` the decision rests on `mm`
      alone, compared as a string with the requested labels. */
  lemma MonthlyFileStatus(dir: string, prefix: string, mm: string, targetMonths: seq<string>, disk: string -> FileContent)
    requires '/' !in prefix && '-' !in prefix
    requires '/' !in mm && '-' !in mm && '.' !in mm
    ensures var path := dir + "/" + (prefix + "-" + mm + ".parquet");
            Status(path, targetMonths, disk) ==
              if mm !in targetMonths then NotRequested
              else match disk(path)
                case Readable(rows) => Imported(|rows|)
                case Unreadable(indexError) => if indexError then MalformedName else Failed
  {
    var name := prefix + "-" + mm + ".parquet";
    assert '/' !in name;
    BasenameOfChild(dir, name);
    MonthLabelOfMonthlyFile(prefix, mm);
  }

  /** No normalisation: a file labelled `1` is not selected by the request `01`. */
  lemma UnpaddedLabelNotSelected(dir: string, disk: string -> FileContent)
    ensures Status(dir + "/" + "green_tripdata_2025-1.parquet", ["01"], disk) == NotRequested
  {
    assert "green_tripdata_2025-1.parquet" == "green_tripdata_2025" + "-" + "1" + ".parquet";
    MonthlyFileStatus(dir, "green_tripdata_2025", "1", ["01"], disk);
  }

  /** Extending a run by one file extends its rows and its statuses by that file's. */
  lemma RunStep(paths: seq<string>, i: nat, targetMonths: seq<string>, disk: string -> FileContent)
    requires i < |paths|
    ensures Ingested(paths[..i + 1], targetMonths, disk)
         == Ingested(paths[..i], targetMonths, disk) + Appended(paths[i], targetMonths, disk)
    ensures Statuses(paths[..i + 1], targetMonths, disk)
         == Statuses(paths[..i], targetMonths, disk) + [Status(paths[i], targetMonths, disk)]
  {
    var prefix := paths[..i + 1];
    assert prefix[..i] == paths[..i];
    MapPrefix(prefix, i, path => Appended(path, targetMonths, disk));
    MapPrefix(prefix, i, path => Status(path, targetMonths, disk));
  }

  /** Appending in two steps is appending the two parts at once. */
  lemma AppendAssociative(a: seq<Trip>, b: seq<Trip>, c: seq<Trip>)
    ensures (a + b) + c == a + (b + c)
  {
  }

  /** One pass of the loop body: the `try` block and its two handlers. */
  method ProcessFile(table: Table, filePath: string, targetMonths: seq<string>, disk: string -> FileContent)
    returns (status: FileStatus)
    modifies table
    ensures table.rows == old(table.rows) + Appended(filePath, targetMonths, disk)
    ensures status == Status(filePath, targetMonths, disk)
  {
    var filename := Basename(filePath);
    var monthStr := MonthLabel(filename);
    if monthStr.None? {
      status := MalformedName;
    } else if monthStr.value in targetMonths {
      match disk(filePath)
      case Readable(df) =>
        table.Append(df);
        status := Imported(|df|);
      case Unreadable(indexError) =>
        status := if indexError then MalformedName else Failed;
    } else {
      status := NotRequested;
    }
  }

  /** `ingest_monthly_data`: visits the matched paths in sorted order and
      appends each requested, readable file; every other file is skipped and
      the loop goes on. Returns one status per visited file. */
  method IngestMonthlyData(table: Table, targetMonths: seq<string>, matched: seq<string>, disk: string -> FileContent)
    returns (statuses: seq<FileStatus>)
    modifies table
    ensures table.rows == old(table.rows) + Ingested(SortPaths(matched), targetMonths, disk)
    ensures statuses == Statuses(SortPaths(matched), targetMonths, disk)
  {
    var allFiles := SortPaths(matched);
    statuses := [];
    for i := 0 to |allFiles|
      invariant table.rows == old(table.rows) + Ingested(allFiles[..i], targetMonths, disk)
      invariant statuses == Statuses(allFiles[..i], targetMonths, disk)
    {
      ghost var added := Ingested(allFiles[..i], targetMonths, disk);
      var status := ProcessFile(table, allFiles[i], targetMonths, disk);
      statuses := statuses + [status];
      RunStep(allFiles, i, targetMonths, disk);
      AppendAssociative(old(table.rows), added, Appended(allFiles[i], targetMonths, disk));
    }
    assert allFiles[..|allFiles|] == allFiles;
  }
}
