/** Deduplication and selection: the names already in the "Posted" log, and the
    first listed video whose name is not among them. */
module Selection {
  import opened Wrappers

  /** A video as the Drive listing describes it. */
  datatype MediaFile = MediaFile(id: string, name: string, modifiedTime: string)

  /** One "Posted" log row as the Sheets API returns it (possibly empty). */
  type LogRow = seq<string>

  /** `set(v[0] for v in vals if v)`: the first cell of every non-empty log row. */
  function PostedSet(log: seq<LogRow>): (posted: set<string>)
    ensures forall name :: name in posted <==> exists i | 0 <= i < |log| :: log[i] != [] && log[i][0] == name
  {
    set i | 0 <= i < |log| && log[i] != [] :: log[i][0]
  }

  /** The row `log_posted` appends: filename, file id, UTC timestamp, slot. */
  function PostedRow(file: MediaFile, postedAt: string, slot: string): LogRow {
    [file.name, file.id, postedAt, slot]
  }

  /** Appending a row adds its first cell to the posted set and nothing else;
      the file id, timestamp and slot columns play no part in membership. */
  lemma PostedSetAppend(log: seq<LogRow>, row: LogRow)
    requires row != []
    ensures PostedSet(log + [row]) == PostedSet(log) + {row[0]}
  {
    var after := log + [row];
    assert after[|log|] == row;
    forall name | name in PostedSet(log)
      ensures name in PostedSet(after)
    {
      var i :| 0 <= i < |log| && log[i] != [] && log[i][0] == name;
      assert after[i] == log[i];
    }
  }

  /** `read_posted_log` reads `Posted!A2:A10000`: sheet rows 2 to 10000, that is,
      the first 9,999 log rows. */
  const LogReadRows: nat := 9999

  /** A log row as the column-A read returns it: `[name]`, or `[]` when the A cell is
      empty; the other columns are not read. */
  function ColumnA(row: LogRow): (cell: LogRow)
    ensures |cell| <= 1
    ensures cell != [] <==> row != [] && row[0] != ""
    ensures cell != [] ==> cell[0] == row[0]
  {
    if row != [] && row[0] != "" then [row[0]] else []
  }

  /** The rows the read returns: column A of the log up to the end of the read range. */
  function RowsRead(log: seq<LogRow>): (read: seq<LogRow>)
    ensures |read| <= LogReadRows && |read| <= |log|
    ensures |log| <= LogReadRows ==> |read| == |log|
    ensures |log| >= LogReadRows ==> |read| == LogReadRows
    ensures forall i | 0 <= i < |read| :: read[i] == ColumnA(log[i])
  {
    var n := if |log| <= LogReadRows then |log| else LogReadRows;
    seq(n, i requires 0 <= i < n => ColumnA(log[i]))
  }

  /** `read_posted_log()`: the names the run treats as posted. */
  function ReadPostedLog(log: seq<LogRow>): set<string> {
    PostedSet(RowsRead(log))
  }

  /** The names a read finds: the non-empty A cells among the first 9,999 log rows.
      An empty name is never among them. */
  lemma ReadPostedLogNames(log: seq<LogRow>)
    ensures forall name :: name in ReadPostedLog(log) <==>
      exists i | 0 <= i < |log| && i < LogReadRows :: log[i] != [] && log[i][0] == name && name != ""
    ensures "" !in ReadPostedLog(log)
  {
    var read := RowsRead(log);
    forall name | name in ReadPostedLog(log)
      ensures exists i | 0 <= i < |log| && i < LogReadRows :: log[i] != [] && log[i][0] == name && name != ""
    {
      var i :| 0 <= i < |read| && read[i] != [] && read[i][0] == name;
      assert read[i] == ColumnA(log[i]);
    }
    forall name, i | 0 <= i < |log| && i < LogReadRows && log[i] != [] && log[i][0] == name && name != ""
      ensures name in ReadPostedLog(log)
    {
      assert read[i] == ColumnA(log[i]);
    }
  }

  /** What a later read sees of a row `log_posted` appends: while the log is shorter
      than the read range, a non-empty name is read back; an empty name, or any row
      once the log fills the range, adds nothing to later reads. A read never loses a
      name the log grows by. */
  lemma ReadPostedLogAppend(log: seq<LogRow>, row: LogRow, later: seq<LogRow>)
    requires row != []
    ensures |log| < LogReadRows && row[0] != "" ==> row[0] in ReadPostedLog(log + [row] + later)
    ensures |log| >= LogReadRows ==> ReadPostedLog(log + [row] + later) == ReadPostedLog(log)
    ensures ReadPostedLog(log) <= ReadPostedLog(log + [row] + later)
  {
    var all := log + [row] + later;
    var before, after := RowsRead(log), RowsRead(all);
    if |log| < LogReadRows && row[0] != "" {
      assert after[|log|] == ColumnA(all[|log|]) == [row[0]];
      assert row[0] in PostedSet(after);
    }
    if |log| >= LogReadRows {
      assert after == before;
    }
    forall name | name in PostedSet(before)
      ensures name in PostedSet(after)
    {
      var i :| 0 <= i < |before| && before[i] != [] && before[i][0] == name;
      assert after[i] == ColumnA(all[i]) == ColumnA(log[i]) == before[i];
    }
  }

  /** A row with an empty name, as `log_posted` writes for a file named "", is never
      read back: the log reads as if the row were not there. */
  lemma EmptyNameNotRead(log: seq<LogRow>, row: LogRow)
    requires row != [] && row[0] == ""
    ensures ReadPostedLog(log + [row]) == ReadPostedLog(log)
  {
    var all := log + [row];
    ReadPostedLogNames(log);
    ReadPostedLogNames(all);
    forall name | name in ReadPostedLog(all)
      ensures name in ReadPostedLog(log)
    {
      var i :| 0 <= i < |all| && i < LogReadRows && all[i] != [] && all[i][0] == name && name != "";
      assert i < |log| && all[i] == log[i];
    }
    forall name | name in ReadPostedLog(log)
      ensures name in ReadPostedLog(all)
    {
      var i :| 0 <= i < |log| && i < LogReadRows && log[i] != [] && log[i][0] == name && name != "";
      assert all[i] == log[i];
    }
  }

  /** The specification of the selection loop: the first file, in list order,
      whose name is not posted. */
  function FirstUnposted(files: seq<MediaFile>, posted: set<string>): Option<MediaFile> {
    if files == [] then None
    else if files[0].name !in posted then Some(files[0])
    else FirstUnposted(files[1..], posted)
  }

  /** The selection loop of the main run, with its `break` on the first unposted name. */
  method SelectNext(files: seq<MediaFile>, posted: set<string>) returns (next: Option<MediaFile>)
    ensures next == FirstUnposted(files, posted)
    ensures next.None? <==> forall i | 0 <= i < |files| :: files[i].name in posted
    ensures next.Some? ==> exists i | 0 <= i < |files| ::
      && files[i] == next.value
      && next.value.name !in posted
      && forall j | 0 <= j < i :: files[j].name in posted
  {
    next := None;
    var i := 0;
    while i < |files|
      invariant 0 <= i <= |files|
      invariant forall j | 0 <= j < i :: files[j].name in posted
      invariant FirstUnposted(files, posted) == FirstUnposted(files[i..], posted)
    {
      assert files[i..][1..] == files[i + 1..];
      if files[i].name !in posted {
        next := Some(files[i]);
        break;
      }
      i := i + 1;
    }
  }

  /** Where the chosen file sits: every file before it is posted, it is not. */
  lemma {:induction false} FirstUnpostedIndex(files: seq<MediaFile>, posted: set<string>)
    ensures FirstUnposted(files, posted).None? <==> forall i | 0 <= i < |files| :: files[i].name in posted
    ensures FirstUnposted(files, posted).Some? ==> exists i | 0 <= i < |files| ::
      && files[i] == FirstUnposted(files, posted).value
      && files[i].name !in posted
      && forall j | 0 <= j < i :: files[j].name in posted
  {
    if files != [] && files[0].name in posted {
      FirstUnpostedIndex(files[1..], posted);
      if FirstUnposted(files, posted).Some? {
        var i :| 0 <= i < |files[1..]|
          && files[1..][i] == FirstUnposted(files, posted).value
          && files[1..][i].name !in posted
          && forall j | 0 <= j < i :: files[1..][j].name in posted;
        assert files[i + 1] == files[1..][i];
        forall j | 0 <= j < i + 1
          ensures files[j].name in posted
        {
          if j > 0 {
            assert files[j] == files[1..][j - 1];
          }
        }
      } else {
        forall i | 0 <= i < |files|
          ensures files[i].name in posted
        {
          if i > 0 {
            assert files[i] == files[1..][i - 1];
          }
        }
      }
    }
  }

  /** Python's `<=` on strings: lexicographic by code point. */
  predicate NameLe(a: string, b: string) {
    a == [] || (b != [] && (a[0] < b[0] || (a[0] == b[0] && NameLe(a[1..], b[1..]))))
  }

  lemma {:induction false} NameLeReflexive(a: string)
    ensures NameLe(a, a)
  {
    if a != [] {
      NameLeReflexive(a[1..]);
    }
  }

  /** `sorted(files, key=lambda x: x['name'])`. */
  predicate SortedByName(files: seq<MediaFile>) {
    forall i, j | 0 <= i < j < |files| :: NameLe(files[i].name, files[j].name)
  }

  /** On a listing sorted by name, the chosen file has the least unposted name. */
  lemma LeastUnpostedName(files: seq<MediaFile>, posted: set<string>)
    requires SortedByName(files)
    requires FirstUnposted(files, posted).Some?
    ensures forall g | g in files && g.name !in posted :: NameLe(FirstUnposted(files, posted).value.name, g.name)
  {
    var f := FirstUnposted(files, posted).value;
    FirstUnpostedIndex(files, posted);
    var i :| 0 <= i < |files| && files[i] == f && f.name !in posted
      && forall j | 0 <= j < i :: files[j].name in posted;
    forall g | g in files && g.name !in posted
      ensures NameLe(f.name, g.name)
    {
      var k :| 0 <= k < |files| && files[k] == g;
      if k == i {
        NameLeReflexive(f.name);
      }
    }
  }

  /** A posted name is never selected, from any listing. */
  lemma NeverReselected(files: seq<MediaFile>, posted: set<string>, name: string)
    requires name in posted
    ensures FirstUnposted(files, posted).Some? ==> FirstUnposted(files, posted).value.name != name
  {
    FirstUnpostedIndex(files, posted);
  }

  /** Names that become posted do not change the choice unless the chosen one is among them. */
  lemma {:induction false} FirstUnpostedGrows(files: seq<MediaFile>, posted: set<string>, posted': set<string>)
    requires posted <= posted'
    requires FirstUnposted(files, posted).Some?
    requires FirstUnposted(files, posted).value.name !in posted'
    ensures FirstUnposted(files, posted') == FirstUnposted(files, posted)
  {
    if files[0].name in posted {
      FirstUnpostedGrows(files[1..], posted, posted');
    }
  }

  /** The worked example: with "a" posted, "b" is next. */
  lemma SelectsB()
    ensures FirstUnposted([MediaFile("1", "a", ""), MediaFile("2", "b", ""), MediaFile("3", "c", "")], {"a"})
      == Some(MediaFile("2", "b", ""))
  {
    var files := [MediaFile("1", "a", ""), MediaFile("2", "b", ""), MediaFile("3", "c", "")];
    assert "b" != "a";
    assert files[1..][0] == MediaFile("2", "b", "");
  }
}
