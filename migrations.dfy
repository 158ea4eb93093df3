/** The start-up migrations of the corrections table: the rebuild that drops
    its foreign keys, the one-time backfill from the JSONL export logs (gated
    by a sentinel row), and the column added for the writing type. */
module Migrations {
  import opened Wrappers
  import opened Text
  import opened Sorting
  import opened Schema
  import opened Corrections

  // ---------------------------------------------------------------------
  // The log directory as the backfill sees it

  /** The fields of one parsed JSONL line that the backfill reads; a field is
      `Some` when the line holds it with the expected JSON type. `notes` is
      the line's `notes` value as it is stored back into `notes_json`. */
  datatype JsonRecord = JsonRecord(
    highlightId: Option<string>,
    documentId: Option<string>,
    sessionId: Option<string>,
    originalText: Option<string>,
    prefixContext: Option<string>,
    suffixContext: Option<string>,
    extendedContext: Option<string>,
    notes: Notes,
    documentTitle: Option<string>,
    documentSource: Option<string>,
    documentPath: Option<string>,
    highlightColor: Option<string>,
    exportedAt: Option<int>)

  /** A line of a log file, or the error reading it returned. */
  datatype LogLine = Unreadable | Line(raw: string)

  /** A directory entry: its path, and its lines, or None when it cannot be opened. */
  datatype LogFile = LogFile(path: string, lines: Option<seq<LogLine>>)

  /** The corrections directory: absent, present but not listable, or its
      entries (None for an entry the listing reports as an error). */
  datatype LogDir = Missing | Unlistable | Listing(entries: seq<Option<LogFile>>)

  /** The last path component. */
  function FileName(path: string): (r: string)
    ensures |r| <= |path| && r == path[|path| - |r|..]
    ensures forall i :: 0 <= i < |r| ==> r[i] != '/'
  {
    if path == [] || path[|path| - 1] == '/' then []
    else FileName(path[..|path| - 1]) + [path[|path| - 1]]
  }

  /** The position of the last '.' in `name`. */
  function LastDot(name: string): (r: Option<nat>)
    ensures r.Some? ==> (r.value < |name| && name[r.value] == '.'
      && forall j :: r.value < j < |name| ==> name[j] != '.')
    ensures r.None? ==> forall j :: 0 <= j < |name| ==> name[j] != '.'
  {
    if name == [] then None
    else if name[|name| - 1] == '.' then Some(|name| - 1)
    else LastDot(name[..|name| - 1])
  }

  /** `Path::extension` of a file name: what follows the last '.', unless the
      name is ".." or that dot is its first character. */
  function Extension(name: string): (r: Option<string>)
    ensures r.Some? ==> exists k :: 0 < k < |name| && name[k] == '.' && r.value == name[k + 1..]
    ensures r.Some? ==> forall j :: 0 <= j < |r.value| ==> r.value[j] != '.'
    ensures (exists k :: 0 < k < |name| && name[k] == '.') && name != ".." ==> r.Some?
  {
    if name == ".." then None
    else
      match LastDot(name)
      case None => None
      case Some(k) => if k == 0 then None else Some(name[k + 1..])
  }

  lemma LastDotAt(name: string, k: nat)
    requires k < |name| && name[k] == '.' && forall j :: k < j < |name| ==> name[j] != '.'
    ensures LastDot(name) == Some(k)
  {
  }

  /** A dated log file has the extension. */
  lemma DatedLogIsJsonl()
    ensures Extension("2024-01-01.jsonl") == Some("jsonl")
  {
    LastDotAt("2024-01-01.jsonl", 10);
    assert "2024-01-01.jsonl"[11..] == "jsonl";
  }

  /** A name whose only dot is its first character has no extension. */
  lemma HiddenNameHasNoExtension(name: string)
    requires |name| > 0 && name[0] == '.' && forall j :: 0 < j < |name| ==> name[j] != '.'
    ensures Extension(name) == None
  {
  }

  /** Text files are passed over. */
  lemma TextFileIsNotJsonl()
    ensures Extension("notes.txt") == Some("txt")
  {
    LastDotAt("notes.txt", 5);
    assert "notes.txt"[6..] == "txt";
  }

  /** `path.extension() == Some("jsonl")`. */
  predicate IsJsonl(f: LogFile) {
    Extension(FileName(f.path)) == Some("jsonl")
  }

  /** The open-able and un-openable files the listing yields, errors dropped. */
  function Listed(entries: seq<Option<LogFile>>): (r: seq<LogFile>)
    ensures forall f :: f in r <==> Some(f) in entries
  {
    if entries == [] then []
    else
      var rest := Listed(entries[1..]);
      assert forall e :: e in entries <==> e == entries[0] || e in entries[1..];
      match entries[0]
      case None => rest
      case Some(f) => [f] + rest
  }

  /** `paths.sort()`: for entries of one directory, comparing paths component
      by component orders them as their names' code points do. */
  predicate PathLe(a: LogFile, b: LogFile) {
    StrLe(a.path, b.path)
  }

  /** The files the backfill reads, in the order it reads them. */
  function JsonlFiles(dir: LogDir): seq<LogFile> {
    match dir
    case Listing(entries) => SortBy(Filter(Listed(entries), IsJsonl), PathLe)
    case _ => []
  }

  /** Only `.jsonl` entries are read, every one of them, in ascending path order. */
  lemma JsonlFilesInOrder(dir: LogDir)
    requires dir.Listing?
    ensures SortedBy(JsonlFiles(dir), PathLe)
    ensures forall f :: f in JsonlFiles(dir) <==> Some(f) in dir.entries && IsJsonl(f)
  {
    var chosen := Filter(Listed(dir.entries), IsJsonl);
    assert TotalPreorder(PathLe) by {
      StrLeTotalPreorder();
      forall a: LogFile, b: LogFile ensures PathLe(a, b) || PathLe(b, a) {
        StrLeTotal(a.path, b.path);
      }
      forall a: LogFile, b: LogFile, c: LogFile | PathLe(a, b) && PathLe(b, c) ensures PathLe(a, c) {
        StrLeTransitive(a.path, b.path, c.path);
      }
    }
    SortBySorted(chosen, PathLe);
    forall f ensures f in JsonlFiles(dir) <==> Some(f) in dir.entries && IsJsonl(f) {
      assert f in JsonlFiles(dir) <==> f in multiset(JsonlFiles(dir));
      assert f in chosen <==> f in multiset(chosen);
      FilterMembers(Listed(dir.entries), IsJsonl, f);
    }
  }

  // ---------------------------------------------------------------------
  // Which lines become rows

  /** The record a line contributes: read, non-blank once trimmed, valid
      JSON (`parse` stands for serde), and holding a string `highlight_id`. */
  function Accepted(line: LogLine, parse: string -> Option<JsonRecord>): (r: Option<JsonRecord>)
    ensures r.Some? ==> r.value.highlightId.Some?
  {
    match line
    case Unreadable => None
    case Line(raw) =>
      var t := Trim(raw);
      if t == [] then None
      else
        match parse(t)
        case None => None
        case Some(rec) => if rec.highlightId.None? then None else Some(rec)
  }

  /** A line is taken exactly when it is readable, not blank once trimmed,
      parses, and has a string `highlight_id`; what is taken is the parse of
      the trimmed line. */
  lemma AcceptedLines(line: LogLine, parse: string -> Option<JsonRecord>)
    ensures Accepted(line, parse).Some? <==>
      (line.Line? && !IsBlank(line.raw) && parse(Trim(line.raw)).Some? && parse(Trim(line.raw)).value.highlightId.Some?)
    ensures Accepted(line, parse).Some? ==> Accepted(line, parse) == parse(Trim(line.raw))
  {
    if line.Line? {
      TrimEmptyIffBlank(line.raw);
    }
  }

  /** The records one line contributes: none or one. */
  function LineRecords(line: LogLine, parse: string -> Option<JsonRecord>): (r: seq<JsonRecord>)
    ensures |r| <= 1 && AllHaveIds(r)
  {
    match Accepted(line, parse)
    case None => []
    case Some(rec) => [rec]
  }

  /** The records of a file's lines, in line order. */
  function LinesRecords(lines: seq<LogLine>, parse: string -> Option<JsonRecord>): (r: seq<JsonRecord>)
    ensures |r| <= |lines|
    ensures AllHaveIds(r)
  {
    if lines == [] then []
    else
      var n := |lines| - 1;
      LinesRecords(lines[..n], parse) + LineRecords(lines[n], parse)
  }

  lemma {:induction false} LinesRecordsAppend(a: seq<LogLine>, b: seq<LogLine>, parse: string -> Option<JsonRecord>)
    ensures LinesRecords(a + b, parse) == LinesRecords(a, parse) + LinesRecords(b, parse)
  {
    if b == [] {
      assert a + b == a;
    } else {
      var n := |b| - 1;
      LinesRecordsAppend(a, b[..n], parse);
      TakeAppend(a, b);
      LinesRecordsLast(a + b, parse);
      LinesRecordsLast(b, parse);
      Assoc(LinesRecords(a, parse), LinesRecords(b[..n], parse), LineRecords(b[n], parse));
    }
  }

  lemma LinesRecordsLast(lines: seq<LogLine>, parse: string -> Option<JsonRecord>)
    requires lines != []
    ensures LinesRecords(lines, parse)
      == LinesRecords(lines[..|lines| - 1], parse) + LineRecords(lines[|lines| - 1], parse)
  {
  }

  lemma LinesRecordsSnoc(lines: seq<LogLine>, j: nat, parse: string -> Option<JsonRecord>)
    requires j < |lines|
    ensures LinesRecords(lines[..j + 1], parse) == LinesRecords(lines[..j], parse) + LineRecords(lines[j], parse)
  {
    assert lines[..j + 1][..j] == lines[..j];
  }

  /** A skipped line (unreadable, blank, malformed or without an id) adds
      nothing and stops nothing: the lines around it contribute as before. */
  lemma SkippedLineIgnored(a: seq<LogLine>, line: LogLine, b: seq<LogLine>, parse: string -> Option<JsonRecord>)
    requires Accepted(line, parse).None?
    ensures LinesRecords(a + [line] + b, parse) == LinesRecords(a + b, parse)
  {
    var s := a + [line];
    LinesRecordsSnoc(s, |a|, parse);
    assert s[..|a| + 1] == s && s[..|a|] == a && s[|a|] == line;
    assert LinesRecords(s, parse) == LinesRecords(a, parse);
    LinesRecordsAppend(s, b, parse);
    LinesRecordsAppend(a, b, parse);
  }

  /** The records of the files in order; a file that cannot be opened adds none. */
  function FilesRecords(files: seq<LogFile>, parse: string -> Option<JsonRecord>): seq<JsonRecord> {
    if files == [] then []
    else
      var n := |files| - 1;
      FilesRecords(files[..n], parse)
        + (match files[n].lines case None => [] case Some(lines) => LinesRecords(lines, parse))
  }

  function DirRecords(dir: LogDir, parse: string -> Option<JsonRecord>): seq<JsonRecord> {
    FilesRecords(JsonlFiles(dir), parse)
  }

  // ---------------------------------------------------------------------
  // backfill_corrections_from_dir

  /** The row one record offers; missing fields take the statement's defaults. */
  function BackfillRow(rec: JsonRecord, rowId: string): (r: Correction)
    requires rec.highlightId.Some?
    ensures r.highlightId == rec.highlightId.value && r.writingType.None? && r.category.None?
  {
    Correction(rowId, rec.highlightId.value, rec.documentId.GetOr(""), rec.sessionId.GetOr(""),
               rec.originalText.GetOr(""), rec.prefixContext, rec.suffixContext, rec.extendedContext,
               rec.notes, rec.documentTitle, rec.documentSource.GetOr("unknown"), rec.documentPath,
               None, rec.highlightColor.GetOr("yellow"), rec.exportedAt.GetOr(0), rec.exportedAt.GetOr(0), None)
  }

  predicate AllHaveIds(recs: seq<JsonRecord>) {
    forall i :: 0 <= i < |recs| ==> recs[i].highlightId.Some?
  }

  /** The rows offered, in order; `rowId(k)` is the fresh UUID of the k-th. */
  function BackfillRows(recs: seq<JsonRecord>, rowId: nat -> string): (r: seq<Correction>)
    requires AllHaveIds(recs)
    ensures |r| == |recs|
    ensures forall i :: 0 <= i < |recs| ==> r[i] == BackfillRow(recs[i], rowId(i))
  {
    seq(|recs|, i requires 0 <= i < |recs| => BackfillRow(recs[i], rowId(i)))
  }

  lemma {:induction false} FilesRecordsHaveIds(files: seq<LogFile>, parse: string -> Option<JsonRecord>)
    ensures AllHaveIds(FilesRecords(files, parse))
  {
    if files != [] {
      FilesRecordsHaveIds(files[..|files| - 1], parse);
    }
  }

  /** Upserts of rows without a writing type keep "no writing type" true of every row. */
  lemma UpsertKeepsNoWritingType(rows: seq<Correction>, incoming: Correction, policy: ConflictPolicy)
    requires incoming.writingType.None?
    requires forall i :: 0 <= i < |rows| ==> rows[i].writingType.None?
    ensures var r := Upsert(rows, incoming, policy);
      forall i :: 0 <= i < |r| ==> r[i].writingType.None?
  {
  }

  /** The rows whose upserts succeed, in order. The k-th record offered gets
      the fresh id `rowId(k)`; `fails(k)` says that its `INSERT` returned an
      error, which is logged, and the record is then skipped. */
  function Succeeded(recs: seq<JsonRecord>, rowId: nat -> string, fails: nat -> bool): (r: seq<Correction>)
    requires AllHaveIds(recs)
    ensures |r| <= |recs|
    ensures NoWritingType(r)
  {
    if recs == [] then []
    else
      var n := |recs| - 1;
      Succeeded(recs[..n], rowId, fails) + (if fails(n) then [] else [BackfillRow(recs[n], rowId(n))])
  }

  /** When no upsert fails, every record's row is upserted. */
  lemma {:induction false} NoFailuresAllSucceed(recs: seq<JsonRecord>, rowId: nat -> string, fails: nat -> bool)
    requires AllHaveIds(recs)
    requires forall k :: 0 <= k < |recs| ==> !fails(k)
    ensures Succeeded(recs, rowId, fails) == BackfillRows(recs, rowId)
  {
    if recs != [] {
      var n := |recs| - 1;
      NoFailuresAllSucceed(recs[..n], rowId, fails);
      assert BackfillRows(recs, rowId) == BackfillRows(recs[..n], rowId) + [BackfillRow(recs[n], rowId(n))];
    }
  }

  /** Nothing is counted exactly when every offered upsert fails. */
  lemma {:induction false} NoneSucceedIffAllFail(recs: seq<JsonRecord>, rowId: nat -> string, fails: nat -> bool)
    requires AllHaveIds(recs)
    ensures Succeeded(recs, rowId, fails) == [] <==> forall k :: 0 <= k < |recs| ==> fails(k)
  {
    if recs != [] {
      var n := |recs| - 1;
      NoneSucceedIffAllFail(recs[..n], rowId, fails);
    }
  }

  /** Offering one more record adds its row to the successful ones unless its upsert fails. */
  lemma BackfillStep(done: seq<JsonRecord>, rec: JsonRecord, rowId: nat -> string, fails: nat -> bool)
    requires AllHaveIds(done) && rec.highlightId.Some?
    ensures AllHaveIds(done + [rec])
    ensures Succeeded(done + [rec], rowId, fails)
      == Succeeded(done, rowId, fails) + (if fails(|done|) then [] else [BackfillRow(rec, rowId(|done|))])
  {
    var recs := done + [rec];
    assert recs[..|done|] == done && recs[|done|] == rec;
    assert AllHaveIds(recs) by {
      forall i | 0 <= i < |recs| ensures recs[i].highlightId.Some? {
        if i < |done| { assert recs[i] == done[i]; }
      }
    }
  }

  /** The rows so far, the upserts attempted, and the `imported` counter. */
  datatype BackfillState = BackfillState(rows: seq<Correction>, attempts: nat, imported: nat)

  /** One line: an accepted line is offered as the next row; it is upserted
      and counted unless the upsert fails. */
  function StepLine(s: BackfillState, line: LogLine, parse: string -> Option<JsonRecord>, rowId: nat -> string,
                    fails: nat -> bool): BackfillState
  {
    match Accepted(line, parse)
    case None => s
    case Some(rec) =>
      if fails(s.attempts) then s.(attempts := s.attempts + 1)
      else BackfillState(Upsert(s.rows, BackfillRow(rec, rowId(s.attempts)), BackfillPolicy), s.attempts + 1, s.imported + 1)
  }

  function RunLines(s: BackfillState, lines: seq<LogLine>, parse: string -> Option<JsonRecord>, rowId: nat -> string,
                    fails: nat -> bool): BackfillState
  {
    if lines == [] then s
    else StepLine(RunLines(s, lines[..|lines| - 1], parse, rowId, fails), lines[|lines| - 1], parse, rowId, fails)
  }

  function RunFile(s: BackfillState, file: LogFile, parse: string -> Option<JsonRecord>, rowId: nat -> string,
                   fails: nat -> bool): BackfillState
  {
    match file.lines
    case None => s
    case Some(lines) => RunLines(s, lines, parse, rowId, fails)
  }

  function RunFiles(s: BackfillState, files: seq<LogFile>, parse: string -> Option<JsonRecord>, rowId: nat -> string,
                    fails: nat -> bool): BackfillState
  {
    if files == [] then s
    else RunFile(RunFiles(s, files[..|files| - 1], parse, rowId, fails), files[|files| - 1], parse, rowId, fails)
  }

  /** The state after offering `done` on top of `base`. */
  function Offered(base: seq<Correction>, done: seq<JsonRecord>, rowId: nat -> string, fails: nat -> bool): BackfillState
    requires AllHaveIds(done)
  {
    var ok := Succeeded(done, rowId, fails);
    BackfillState(UpsertAll(base, ok, BackfillPolicy), |done|, |ok|)
  }

  lemma StepLineOffers(base: seq<Correction>, done: seq<JsonRecord>, line: LogLine,
                       parse: string -> Option<JsonRecord>, rowId: nat -> string, fails: nat -> bool)
    requires AllHaveIds(done)
    ensures AllHaveIds(done + LineRecords(line, parse))
    ensures StepLine(Offered(base, done, rowId, fails), line, parse, rowId, fails)
         == Offered(base, done + LineRecords(line, parse), rowId, fails)
  {
    match Accepted(line, parse)
    case None =>
      assert LineRecords(line, parse) == [];
      assert done + [] == done;
    case Some(rec) =>
      assert LineRecords(line, parse) == [rec];
      BackfillStep(done, rec, rowId, fails);
      var ok := Succeeded(done, rowId, fails);
      if fails(|done|) {
        assert Succeeded(done + [rec], rowId, fails) == ok by {
          assert ok + [] == ok;
        }
      } else {
        var row := BackfillRow(rec, rowId(|done|));
        assert UpsertAll(base, ok + [row], BackfillPolicy) == Upsert(UpsertAll(base, ok, BackfillPolicy), row, BackfillPolicy) by {
          assert (ok + [row])[..|ok|] == ok;
        }
      }
  }

  /** Running over lines offers exactly the lines' records, in order. */
  lemma {:induction false} RunLinesOffers(base: seq<Correction>, done: seq<JsonRecord>, lines: seq<LogLine>,
                                          parse: string -> Option<JsonRecord>, rowId: nat -> string, fails: nat -> bool)
    requires AllHaveIds(done)
    ensures AllHaveIds(done + LinesRecords(lines, parse))
    ensures RunLines(Offered(base, done, rowId, fails), lines, parse, rowId, fails)
         == Offered(base, done + LinesRecords(lines, parse), rowId, fails)
  {
    if lines == [] {
      assert done + [] == done;
    } else {
      var n := |lines| - 1;
      var front, last := LinesRecords(lines[..n], parse), LineRecords(lines[n], parse);
      var mid := done + front;
      assert done + LinesRecords(lines, parse) == mid + last by {
        assert LinesRecords(lines, parse) == front + last;
        Assoc(done, front, last);
      }
      var start := Offered(base, done, rowId, fails);
      RunLinesOffers(base, done, lines[..n], parse, rowId, fails);
      assert RunLines(start, lines, parse, rowId, fails)
          == StepLine(Offered(base, mid, rowId, fails), lines[n], parse, rowId, fails);
      StepLineOffers(base, mid, lines[n], parse, rowId, fails);
    }
  }

  /** Running over files offers exactly the files' records, in order, and
      counts the ones whose upserts succeed. */
  lemma {:induction false} RunFilesOffers(base: seq<Correction>, files: seq<LogFile>,
                                          parse: string -> Option<JsonRecord>, rowId: nat -> string, fails: nat -> bool)
    ensures AllHaveIds(FilesRecords(files, parse))
    ensures RunFiles(Offered(base, [], rowId, fails), files, parse, rowId, fails)
         == Offered(base, FilesRecords(files, parse), rowId, fails)
  {
    FilesRecordsHaveIds(files, parse);
    if files != [] {
      var n := |files| - 1;
      RunFilesOffers(base, files[..n], parse, rowId, fails);
      var mid := FilesRecords(files[..n], parse);
      match files[n].lines
      case None =>
        assert mid + [] == mid;
      case Some(lines) =>
        RunLinesOffers(base, mid, lines, parse, rowId, fails);
    }
  }

  /** The inner loop over one file's lines. */
  method BackfillFile(rows: seq<Correction>, attempts: nat, imported: nat, lines: seq<LogLine>,
                      parse: string -> Option<JsonRecord>, rowId: nat -> string, fails: nat -> bool)
    returns (after: seq<Correction>, tried: nat, total: nat)
    ensures BackfillState(after, tried, total)
         == RunLines(BackfillState(rows, attempts, imported), lines, parse, rowId, fails)
  {
    after, tried, total := rows, attempts, imported;
    var j := 0;
    while j < |lines|
      invariant 0 <= j <= |lines|
      invariant BackfillState(after, tried, total)
             == RunLines(BackfillState(rows, attempts, imported), lines[..j], parse, rowId, fails)
    {
      assert lines[..j + 1][..j] == lines[..j];
      match lines[j] {
        case Unreadable =>
        case Line(raw) =>
          var t := Trim(raw);
          if t != [] {
            var parsed := parse(t);
            if parsed.Some? && parsed.value.highlightId.Some? {
              if !fails(tried) {
                after := Upsert(after, BackfillRow(parsed.value, rowId(tried)), BackfillPolicy);
                total := total + 1;
              }
              tried := tried + 1;
            }
          }
      }
      j := j + 1;
    }
    assert lines[..|lines|] == lines;
  }

  /** The outer loop over the files, in the order given. */
  method BackfillFiles(rows: seq<Correction>, paths: seq<LogFile>, parse: string -> Option<JsonRecord>,
                       rowId: nat -> string, fails: nat -> bool) returns (after: seq<Correction>, imported: nat)
    ensures var s := RunFiles(BackfillState(rows, 0, 0), paths, parse, rowId, fails);
      after == s.rows && imported == s.imported
  {
    after, imported := rows, 0;
    var tried := 0;
    var i := 0;
    while i < |paths|
      invariant 0 <= i <= |paths|
      invariant BackfillState(after, tried, imported) == RunFiles(BackfillState(rows, 0, 0), paths[..i], parse, rowId, fails)
    {
      assert paths[..i + 1][..i] == paths[..i];
      if paths[i].lines.Some? {
        after, tried, imported := BackfillFile(after, tried, imported, paths[i].lines.value, parse, rowId, fails);
      }
      i := i + 1;
    }
    assert paths[..|paths|] == paths;
  }

  /** `backfill_corrections_from_dir`: no rows and 0 when the directory is
      missing or cannot be listed; otherwise every accepted line of every
      `.jsonl` file, in path order and line order, is offered to the upsert
      under the backfill policy, and the ones whose upserts succeed are
      counted. */
  method BackfillCorrectionsFromDir(db: Database, dir: LogDir, parse: string -> Option<JsonRecord>,
                                    rowId: nat -> string, fails: nat -> bool) returns (imported: nat)
    requires db.Valid()
    modifies db`corrections
    ensures db.Valid()
    ensures AllHaveIds(DirRecords(dir, parse))
    ensures imported == |Succeeded(DirRecords(dir, parse), rowId, fails)| <= |DirRecords(dir, parse)|
    ensures db.corrections
         == UpsertAll(old(db.corrections), Succeeded(DirRecords(dir, parse), rowId, fails), BackfillPolicy)
    ensures (forall k :: 0 <= k < |DirRecords(dir, parse)| ==> !fails(k)) ==> imported == |DirRecords(dir, parse)|
    ensures !dir.Listing? ==> imported == 0 && db.corrections == old(db.corrections)
  {
    FilesRecordsHaveIds(JsonlFiles(dir), parse);
    BackfillValid(db, Succeeded(DirRecords(dir, parse), rowId, fails));
    var rows;
    rows, imported := BackfillDir(db.corrections, dir, parse, rowId, fails);
    db.corrections := rows;
  }

  /** The backfill on the table's rows. */
  method BackfillDir(rows: seq<Correction>, dir: LogDir, parse: string -> Option<JsonRecord>,
                     rowId: nat -> string, fails: nat -> bool) returns (after: seq<Correction>, imported: nat)
    ensures AllHaveIds(DirRecords(dir, parse))
    ensures imported == |Succeeded(DirRecords(dir, parse), rowId, fails)| <= |DirRecords(dir, parse)|
    ensures after == UpsertAll(rows, Succeeded(DirRecords(dir, parse), rowId, fails), BackfillPolicy)
    ensures (forall k :: 0 <= k < |DirRecords(dir, parse)| ==> !fails(k)) ==> imported == |DirRecords(dir, parse)|
    ensures !dir.Listing? ==> imported == 0 && after == rows
  {
    DirOffers(rows, dir, parse, rowId, fails);
    var recs := DirRecords(dir, parse);
    if forall k :: 0 <= k < |recs| ==> !fails(k) {
      NoFailuresAllSucceed(recs, rowId, fails);
    }
    if !dir.Listing? {
      return rows, 0;
    }
    after, imported := BackfillFiles(rows, JsonlFiles(dir), parse, rowId, fails);
  }

  /** The run over a directory's files offers exactly the directory's
      records; an unlistable directory offers none. */
  lemma DirOffers(rows: seq<Correction>, dir: LogDir, parse: string -> Option<JsonRecord>, rowId: nat -> string,
                  fails: nat -> bool)
    ensures AllHaveIds(DirRecords(dir, parse))
    ensures RunFiles(BackfillState(rows, 0, 0), JsonlFiles(dir), parse, rowId, fails)
      == Offered(rows, DirRecords(dir, parse), rowId, fails)
    ensures !dir.Listing? ==> DirRecords(dir, parse) == []
  {
    RunFilesOffers(rows, JsonlFiles(dir), parse, rowId, fails);
    assert Succeeded([], rowId, fails) == [];
  }

  /** Backfill rows have no writing type, so upserting them keeps the table valid. */
  lemma BackfillValid(db: Database, offered: seq<Correction>)
    requires db.Valid()
    requires forall i :: 0 <= i < |offered| ==> offered[i].writingType.None?
    ensures Declared(db.documents, db.highlights, db.marginNotes, UpsertAll(db.corrections, offered, BackfillPolicy),
                     db.openTabs, db.correctionsHasWritingType)
  {
    UpsertAllUnique(db.corrections, offered, BackfillPolicy);
    if !db.correctionsHasWritingType {
      UpsertAllNoWritingType(db.corrections, offered, BackfillPolicy);
    }
  }

  predicate NoWritingType(rows: seq<Correction>) {
    forall i :: 0 <= i < |rows| ==> rows[i].writingType.None?
  }

  lemma {:induction false} UpsertAllNoWritingType(rows: seq<Correction>, offered: seq<Correction>, policy: ConflictPolicy)
    requires NoWritingType(rows) && NoWritingType(offered)
    ensures NoWritingType(UpsertAll(rows, offered, policy))
  {
    if offered != [] {
      var n := |offered| - 1;
      assert forall i :: 0 <= i < n ==> offered[..n][i] == offered[i];
      UpsertAllNoWritingType(rows, offered[..n], policy);
      UpsertKeepsNoWritingType(UpsertAll(rows, offered[..n], policy), offered[n], policy);
    }
  }

  /** The last record for a highlight id decides the overwritten columns of
      its row: text, notes, title, colour and `updated_at`. */
  lemma BackfillLastLineWins(rows: seq<Correction>, recs: seq<JsonRecord>, rowId: nat -> string, j: nat)
    requires UniqueBy(rows, CorrectionKey) && AllHaveIds(recs) && j < |recs|
    requires forall i :: j < i < |recs| ==> recs[i].highlightId != recs[j].highlightId
    ensures var r := RowFor(UpsertAll(rows, BackfillRows(recs, rowId), BackfillPolicy), recs[j].highlightId.value);
      && r.Some?
      && r.value.originalText == recs[j].originalText.GetOr("")
      && r.value.notes == recs[j].notes
      && r.value.documentTitle == recs[j].documentTitle
      && r.value.highlightColor == recs[j].highlightColor.GetOr("yellow")
      && r.value.updatedAt == recs[j].exportedAt.GetOr(0)
  {
    var offered := BackfillRows(recs, rowId);
    forall i | j < i < |offered| ensures offered[i].highlightId != offered[j].highlightId {
      assert recs[i].highlightId != recs[j].highlightId;
    }
    UpsertAllLastWins(rows, offered, BackfillPolicy, j);
  }

  /** A row already in the table keeps `id`, `document_id`, `session_id`,
      `created_at`, `writing_type` and the other columns the backfill does
      not overwrite, whatever lines follow. */
  lemma BackfillKeepsExisting(rows: seq<Correction>, recs: seq<JsonRecord>, rowId: nat -> string, hid: string)
    requires UniqueBy(rows, CorrectionKey) && AllHaveIds(recs) && RowFor(rows, hid).Some?
    ensures var before := RowFor(rows, hid).value;
      var r := RowFor(UpsertAll(rows, BackfillRows(recs, rowId), BackfillPolicy), hid);
      && r.Some?
      && r.value.id == before.id && r.value.documentId == before.documentId
      && r.value.sessionId == before.sessionId && r.value.createdAt == before.createdAt
      && r.value.writingType == before.writingType
  {
    UpsertAllKeeps(rows, BackfillRows(recs, rowId), BackfillPolicy, hid);
  }

  // ---------------------------------------------------------------------
  // migrate_corrections_drop_fks

  /** The sentinel row that marks the backfill as done. */
  const MarkerId: string := "__backfill_marker__"

  function Marker(): (r: Correction)
    ensures r.sessionId == Backfilled && r.highlightId == MarkerId && r.writingType.None?
  {
    Correction(MarkerId, MarkerId, "", Backfilled, "", None, None, None, NoteList([]), None, "system", None,
               None, "none", 0, 0, None)
  }

  /** Some row carries the backfill session id. */
  predicate HasBackfilledRow(rows: seq<Correction>) {
    exists i :: 0 <= i < |rows| && rows[i].sessionId == Backfilled
  }

  /** `INSERT OR IGNORE` of the sentinel: ignored when a row already holds its
      id or its highlight id. */
  function WithMarker(rows: seq<Correction>): seq<Correction> {
    if exists i :: 0 <= i < |rows| && (rows[i].id == MarkerId || rows[i].highlightId == MarkerId) then rows
    else rows + [Marker()]
  }

  /** Once the sentinel is in, the gate is closed. */
  lemma MarkerClosesGate(rows: seq<Correction>)
    requires forall i ::
      (0 <= i < |rows| && (rows[i].id == MarkerId || rows[i].highlightId == MarkerId)) ==> rows[i].sessionId == Backfilled
    ensures HasBackfilledRow(WithMarker(rows))
  {
    var r := WithMarker(rows);
    if exists i :: 0 <= i < |rows| && (rows[i].id == MarkerId || rows[i].highlightId == MarkerId) {
      var i :| 0 <= i < |rows| && (rows[i].id == MarkerId || rows[i].highlightId == MarkerId);
      assert r[i].sessionId == Backfilled;
    } else {
      assert r[|rows|] == Marker();
    }
  }

  /** Export-and-clear keeps the backfilled rows, so it keeps the gate closed. */
  lemma ClearKeepsGateClosed(rows: seq<Correction>)
    requires HasBackfilledRow(rows)
    ensures HasBackfilledRow(BackfilledRows(rows))
  {
    var i :| 0 <= i < |rows| && rows[i].sessionId == Backfilled;
    ExportClearPartition(rows);
    assert rows[i] in BackfilledRows(rows);
    var k :| 0 <= k < |BackfilledRows(rows)| && BackfilledRows(rows)[k] == rows[i];
  }

  /** The sentinel insert; its error, if any (`markerFails`), is discarded
      and leaves the rows as they were. */
  method InsertMarker(db: Database, markerFails: bool)
    requires db.Valid()
    modifies db`corrections
    ensures db.Valid()
    ensures db.corrections == if markerFails then old(db.corrections) else WithMarker(old(db.corrections))
  {
    if markerFails {
      return;
    }
    var ignored := exists i :: 0 <= i < |db.corrections|
                     && (db.corrections[i].id == MarkerId || db.corrections[i].highlightId == MarkerId);
    if !ignored {
      UpsertRowFor(db.corrections, Marker(), BackfillPolicy, MarkerId);
      assert IndexOf(db.corrections, CorrectionKey, MarkerId).None?;
      db.corrections := db.corrections + [Marker()];
    }
  }

  /** What the backfill step of the migration does to the rows: the
      successful upserts, then the sentinel when at least one was counted
      and its insert does not fail. */
  function AfterBackfill(rows: seq<Correction>, recs: seq<JsonRecord>, rowId: nat -> string, fails: nat -> bool,
                         markerFails: bool): seq<Correction>
    requires AllHaveIds(recs)
  {
    var ok := Succeeded(recs, rowId, fails);
    var upserted := UpsertAll(rows, ok, BackfillPolicy);
    if |ok| > 0 && !markerFails then WithMarker(upserted) else upserted
  }

  /** `migrate_corrections_drop_fks`. When the table has foreign keys they are
      switched off, the table is rebuilt without them holding every row, and
      they are switched back on; a failing rebuild returns its error with
      foreign keys left off. The rebuilt table has no `writing_type` column,
      so `SELECT *` from a table that already has one supplies a value too
      many and the rebuild fails as well. Then, unless a row already has the backfill
      session id (or the check itself fails, `gateFails`) or the home
      directory is unknown (`dir` is None), the backfill runs, and when it
      counted anything the sentinel row goes in, unless that insert fails
      (`markerFails`), whose error is discarded. */
  method MigrateCorrectionsDropFks(db: Database, rebuildFails: bool, gateFails: bool, dir: Option<LogDir>,
                                   parse: string -> Option<JsonRecord>, rowId: nat -> string, upsertFails: nat -> bool,
                                   markerFails: bool)
    returns (r: Result<Unit>)
    requires db.Valid()
    modifies db`corrections, db`correctionsHasFks, db`foreignKeysOn
    ensures db.Valid()
    ensures r.Err? <==> old(db.correctionsHasFks) && (rebuildFails || old(db.correctionsHasWritingType))
    ensures r.Err? ==> db.corrections == old(db.corrections) && db.correctionsHasFks && !db.foreignKeysOn
    ensures r.Ok? ==> (!db.correctionsHasFks
      && db.foreignKeysOn == (old(db.foreignKeysOn) || old(db.correctionsHasFks)))
    ensures r.Ok? && (gateFails || HasBackfilledRow(old(db.corrections)) || dir.None?) ==>
      db.corrections == old(db.corrections)
    ensures r.Ok? && !gateFails && !HasBackfilledRow(old(db.corrections)) && dir.Some? ==>
      AllHaveIds(DirRecords(dir.value, parse))
      && db.corrections == AfterBackfill(old(db.corrections), DirRecords(dir.value, parse), rowId, upsertFails, markerFails)
  {
    if db.correctionsHasFks {
      db.foreignKeysOn := false;
      if rebuildFails || db.correctionsHasWritingType {
        return Err("failed to rebuild corrections");
      }
      // INSERT INTO corrections_new SELECT * FROM corrections moves every row
      // over unchanged, so `db.corrections` keeps its value.
      db.correctionsHasFks := false;
      db.foreignKeysOn := true;
    }
    BackfillOnce(db, gateFails, dir, parse, rowId, upsertFails, markerFails);
    return Ok(Unit);
  }

  /** The gated second half of the migration: the backfill and its sentinel,
      skipped when a backfilled row is already there, the check fails or
      there is no home directory. The sentinel goes in only when some upsert
      succeeded and its insert does not fail, so a backfill whose upserts all
      fail, or whose sentinel insert fails, leaves the gate open. */
  method BackfillOnce(db: Database, gateFails: bool, dir: Option<LogDir>,
                      parse: string -> Option<JsonRecord>, rowId: nat -> string, upsertFails: nat -> bool,
                      markerFails: bool)
    requires db.Valid()
    modifies db`corrections
    ensures db.Valid()
    ensures gateFails || HasBackfilledRow(old(db.corrections)) || dir.None? ==> db.corrections == old(db.corrections)
    ensures !gateFails && !HasBackfilledRow(old(db.corrections)) && dir.Some? ==>
      AllHaveIds(DirRecords(dir.value, parse))
      && db.corrections == AfterBackfill(old(db.corrections), DirRecords(dir.value, parse), rowId, upsertFails, markerFails)
  {
    var backfilled := gateFails || HasBackfilledRow(db.corrections);
    if !backfilled && dir.Some? {
      var count := BackfillCorrectionsFromDir(db, dir.value, parse, rowId, upsertFails);
      if count > 0 {
        InsertMarker(db, markerFails);
      }
    }
  }

  // ---------------------------------------------------------------------
  // migrate_corrections_add_writing_type

  /** `migrate_corrections_add_writing_type`: reads the table's columns
      (`pragmaFails` says that query errs) and adds the column only when it
      is absent (`alterFails` says the `ALTER TABLE` errs). Either error is
      returned with the table as it was; on success the column is there,
      existing rows read NULL, and a second run changes nothing. */
  method MigrateCorrectionsAddWritingType(db: Database, pragmaFails: bool, alterFails: bool) returns (r: Result<Unit>)
    requires db.Valid()
    modifies db`correctionsHasWritingType
    ensures db.Valid()
    ensures r.Err? <==> pragmaFails || (!old(db.correctionsHasWritingType) && alterFails)
    ensures r.Err? ==> unchanged(db)
    ensures r.Ok? ==> db.correctionsHasWritingType
    ensures r.Ok? && !old(db.correctionsHasWritingType) ==>
      forall i :: 0 <= i < |db.corrections| ==> db.corrections[i].writingType.None?
    ensures old(db.correctionsHasWritingType) ==> unchanged(db)
  {
    if pragmaFails {
      return Err("failed to read the columns of corrections");
    }
    if !db.correctionsHasWritingType {
      if alterFails {
        return Err("failed to add writing_type");
      }
      db.correctionsHasWritingType := true;
    }
    return Ok(Unit);
  }

  /** The migration steps of `init_db`, in order; the first error stops them. */
  method RunCorrectionsMigrations(db: Database, rebuildFails: bool, gateFails: bool, dir: Option<LogDir>,
                                  parse: string -> Option<JsonRecord>, rowId: nat -> string, upsertFails: nat -> bool,
                                  markerFails: bool, pragmaFails: bool, alterFails: bool) returns (r: Result<Unit>)
    requires db.Valid()
    modifies db`corrections, db`correctionsHasFks, db`foreignKeysOn, db`correctionsHasWritingType
    ensures db.Valid()
    ensures r.Ok? <==> !(old(db.correctionsHasFks) && (rebuildFails || old(db.correctionsHasWritingType)))
                       && !(pragmaFails || (!old(db.correctionsHasWritingType) && alterFails))
    ensures r.Ok? ==> !db.correctionsHasFks && db.correctionsHasWritingType
  {
    r := MigrateCorrectionsDropFks(db, rebuildFails, gateFails, dir, parse, rowId, upsertFails, markerFails);
    if r.Err? {
      return r;
    }
    r := MigrateCorrectionsAddWritingType(db, pragmaFails, alterFails);
  }
}
