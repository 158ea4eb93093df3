/** The corrections store: the `corrections` table keyed on `highlight_id`,
    its two upserts (the editor's persist and the JSONL backfill), the
    reads that order it newest first, the targeted update and delete, and
    export-and-clear, which spares the rows whose session is `__backfilled__`. */
module Corrections {
  import opened Wrappers
  import opened Text
  import opened Sorting
  import opened Grouping
  import opened Schema
  import opened Calendar

  // ---------------------------------------------------------------------
  // sanitize_filename_component

  /** The characters a file-name component may keep. */
  predicate IsFilenameSafe(c: char) {
    IsAsciiAlphanumeric(c) || c == '-' || c == '_' || c == '.'
  }

  function FilenameChar(c: char): char {
    if IsFilenameSafe(c) then c else '_'
  }

  /** Longest component the filter produces. Every character it pushes is
      ASCII, one byte, so the byte cap is a character cap. */
  const MaxComponentLength: nat := 64

  /** `sanitize_filename_component`: walk the characters, stop once 64 are
      out, keep the safe ones and write '_' for the rest; nothing out
      becomes "unknown". */
  method SanitizeFilenameComponent(input: string) returns (out: string)
    ensures input == [] ==> out == "unknown"
    ensures input != [] ==> |out| == if |input| < MaxComponentLength then |input| else MaxComponentLength
    ensures input != [] ==> forall i :: 0 <= i < |out| ==> out[i] == FilenameChar(input[i])
    ensures out != [] && |out| <= MaxComponentLength
    ensures forall i :: 0 <= i < |out| ==> IsFilenameSafe(out[i])
  {
    var buf := "";
    var i := 0;
    while i < |input|
      invariant 0 <= i <= |input| && |buf| == i && i <= MaxComponentLength
      invariant forall k :: 0 <= k < i ==> buf[k] == FilenameChar(input[k])
    {
      if |buf| >= MaxComponentLength {
        break;
      }
      buf := buf + [FilenameChar(input[i])];
      i := i + 1;
    }
    if buf == [] {
      out := "unknown";
    } else {
      out := buf;
    }
  }

  // ---------------------------------------------------------------------
  // Limit clamps of the handlers

  /** `limit.unwrap_or(default).max(lo).min(hi)`. */
  function ClampLimit(limit: Option<int>, default: int, lo: int, hi: int): (r: int)
    requires lo <= hi
    ensures lo <= r <= hi
    ensures limit.Some? && lo <= limit.value <= hi ==> r == limit.value
    ensures limit.Some? && limit.value < lo ==> r == lo
    ensures limit.Some? && hi < limit.value ==> r == hi
    ensures limit.None? && lo <= default <= hi ==> r == default
  {
    var v := limit.GetOr(default);
    var atLeast := if v > lo then v else lo;
    if atLeast < hi then atLeast else hi
  }

  /** `get_all_corrections`: 200 by default, between 1 and 2000. */
  function AllCorrectionsLimit(limit: Option<int>): (r: int)
    ensures 1 <= r <= 2000
    ensures limit.None? ==> r == 200
  {
    ClampLimit(limit, 200, 1, 2000)
  }

  /** `get_corrections_by_document`: 50 by default, between 1 and 500. */
  function ByDocumentLimit(limit: Option<int>): (r: int)
    ensures 1 <= r <= 500
    ensures limit.None? ==> r == 50
  {
    ClampLimit(limit, 50, 1, 500)
  }

  // ---------------------------------------------------------------------
  // Reads ordered newest first

  /** `ORDER BY created_at DESC`. */
  predicate NewestFirst(a: Correction, b: Correction) {
    a.createdAt >= b.createdAt
  }

  lemma NewestFirstOrders()
    ensures TotalPreorder(NewestFirst)
  {
  }

  datatype CorrectionRecord = CorrectionRecord(
    originalText: string,
    notes: seq<string>,
    highlightColor: string,
    documentTitle: Option<string>,
    documentId: string,
    createdAt: int,
    writingType: Option<string>)

  function RecordOf(c: Correction): CorrectionRecord {
    CorrectionRecord(c.originalText, DecodeNotes(c.notes), c.highlightColor, c.documentTitle, c.documentId,
                     c.createdAt, c.writingType)
  }

  /** `fetch_corrections`: every row, backfilled or not, newest first, cut at `limit`. */
  function FetchCorrections(rows: seq<Correction>, limit: int): (r: seq<CorrectionRecord>)
    ensures |r| <= |rows|
    ensures 0 <= limit ==> |r| == if limit < |rows| then limit else |rows|
  {
    SortByLength(rows, NewestFirst);
    var top := Take(SortBy(rows, NewestFirst), limit);
    seq(|top|, i requires 0 <= i < |top| => RecordOf(top[i]))
  }

  /** The records come newest first. */
  lemma FetchCorrectionsOrdered(rows: seq<Correction>, limit: int)
    ensures var r := FetchCorrections(rows, limit);
      forall i, j :: 0 <= i < j < |r| ==> r[i].createdAt >= r[j].createdAt
  {
    NewestFirstOrders();
    TopRows(rows, NewestFirst, limit);
    var top := Take(SortBy(rows, NewestFirst), limit);
    assert forall i, j :: 0 <= i < j < |top| ==> NewestFirst(top[i], top[j]);
  }

  /** Each record is the record of a row of the table. */
  lemma FetchCorrectionsFromRows(rows: seq<Correction>, limit: int)
    ensures var r := FetchCorrections(rows, limit);
      forall i :: 0 <= i < |r| ==> exists k :: 0 <= k < |rows| && r[i] == RecordOf(rows[k])
  {
    NewestFirstOrders();
    TopRows(rows, NewestFirst, limit);
    var top := Take(SortBy(rows, NewestFirst), limit);
    var r := FetchCorrections(rows, limit);
    forall i | 0 <= i < |r| ensures exists k :: 0 <= k < |rows| && r[i] == RecordOf(rows[k]) {
      assert top[i] in multiset(top);
      assert top[i] in multiset(rows);
      var k :| 0 <= k < |rows| && rows[k] == top[i];
    }
  }

  /** No row left out by the limit is newer than a row returned. */
  lemma FetchCorrectionsTop(rows: seq<Correction>, limit: int, c: Correction)
    requires c in multiset(rows) - multiset(Take(SortBy(rows, NewestFirst), limit))
    ensures var r := FetchCorrections(rows, limit);
      forall i :: 0 <= i < |r| ==> r[i].createdAt >= c.createdAt
  {
    NewestFirstOrders();
    TopRows(rows, NewestFirst, limit);
    var top := Take(SortBy(rows, NewestFirst), limit);
    var r := FetchCorrections(rows, limit);
    forall i | 0 <= i < |r| ensures r[i].createdAt >= c.createdAt {
      assert top[i] in top;
      assert NewestFirst(top[i], c);
    }
  }

  /** `get_all_corrections`. */
  function GetAllCorrections(rows: seq<Correction>, limit: Option<int>): (r: seq<CorrectionRecord>)
    ensures |r| <= 2000
    ensures rows != [] ==> |r| >= 1
    ensures limit.None? ==> |r| == if |rows| < 200 then |rows| else 200
  {
    FetchCorrections(rows, AllCorrectionsLimit(limit))
  }

  // ---------------------------------------------------------------------
  // The upserts

  /** The two `ON CONFLICT(highlight_id) DO UPDATE` clauses. */
  datatype ConflictPolicy = PersistPolicy | BackfillPolicy

  /** The columns `policy` leaves alone keep `before`'s values; under the
      persist policy a set writing type stays set. */
  predicate KeepsColumns(policy: ConflictPolicy, before: Correction, after: Correction) {
    && after.id == before.id
    && after.highlightId == before.highlightId
    && after.documentId == before.documentId
    && after.createdAt == before.createdAt
    && after.category == before.category
    && (policy == PersistPolicy ==> (before.writingType.Some? ==> after.writingType.Some?))
    && (policy == BackfillPolicy ==>
          && after.sessionId == before.sessionId
          && after.writingType == before.writingType
          && after.prefixContext == before.prefixContext
          && after.suffixContext == before.suffixContext
          && after.extendedContext == before.extendedContext
          && after.documentSource == before.documentSource
          && after.documentPath == before.documentPath)
  }

  /** The columns `policy` overwrites carry `incoming`'s values; a writing
      type is taken only when the incoming row has one. */
  predicate TakesColumns(policy: ConflictPolicy, incoming: Correction, after: Correction) {
    && after.originalText == incoming.originalText
    && after.notes == incoming.notes
    && after.documentTitle == incoming.documentTitle
    && after.highlightColor == incoming.highlightColor
    && after.updatedAt == incoming.updatedAt
    && (policy == PersistPolicy ==>
          && after.sessionId == incoming.sessionId
          && after.prefixContext == incoming.prefixContext
          && after.suffixContext == incoming.suffixContext
          && after.extendedContext == incoming.extendedContext
          && after.documentSource == incoming.documentSource
          && after.documentPath == incoming.documentPath
          && (incoming.writingType.Some? ==> after.writingType == incoming.writingType))
  }

  lemma KeepsColumnsTransitive(policy: ConflictPolicy, a: Correction, b: Correction, c: Correction)
    requires KeepsColumns(policy, a, b) && KeepsColumns(policy, b, c)
    ensures KeepsColumns(policy, a, c)
  {
  }

  /** The row that results when `incoming` conflicts with `existing`. */
  function Merge(policy: ConflictPolicy, existing: Correction, incoming: Correction): (r: Correction)
    ensures KeepsColumns(policy, existing, r) && TakesColumns(policy, incoming, r)
    ensures policy == PersistPolicy && incoming.writingType.None? ==> r.writingType == existing.writingType
  {
    match policy
    case PersistPolicy =>
      existing.(sessionId := incoming.sessionId, originalText := incoming.originalText,
                prefixContext := incoming.prefixContext, suffixContext := incoming.suffixContext,
                extendedContext := incoming.extendedContext, notes := incoming.notes,
                documentTitle := incoming.documentTitle, documentSource := incoming.documentSource,
                documentPath := incoming.documentPath, highlightColor := incoming.highlightColor,
                updatedAt := incoming.updatedAt,
                writingType := if incoming.writingType.Some? then incoming.writingType else existing.writingType)
    case BackfillPolicy =>
      existing.(originalText := incoming.originalText, notes := incoming.notes,
                documentTitle := incoming.documentTitle, highlightColor := incoming.highlightColor,
                updatedAt := incoming.updatedAt)
  }

  /** The row of the table whose `highlight_id` is `hid`. */
  function RowFor(rows: seq<Correction>, hid: string): Option<Correction> {
    match IndexOf(rows, CorrectionKey, hid)
    case None => None
    case Some(i) => Some(rows[i])
  }

  lemma RowForAt(rows: seq<Correction>, hid: string, i: nat)
    requires UniqueBy(rows, CorrectionKey) && i < |rows| && rows[i].highlightId == hid
    ensures RowFor(rows, hid) == Some(rows[i])
  {
    var j := IndexOf(rows, CorrectionKey, hid);
    assert HasKey(rows, CorrectionKey, hid) by {
      assert CorrectionKey(rows[i]) == hid;
    }
    UniqueIndex(rows, CorrectionKey, j.value, i);
  }

  /** INSERT … ON CONFLICT(highlight_id) DO UPDATE: a new key appends a row,
      a known key merges into its row in place. */
  function Upsert(rows: seq<Correction>, incoming: Correction, policy: ConflictPolicy): (r: seq<Correction>)
    ensures |rows| <= |r| <= |rows| + 1
  {
    match IndexOf(rows, CorrectionKey, incoming.highlightId)
    case None => rows + [incoming]
    case Some(i) => rows[i := Merge(policy, rows[i], incoming)]
  }

  /** The effect of one upsert on the row for any highlight id, and the
      table keeps one row per highlight id. */
  lemma UpsertRowFor(rows: seq<Correction>, incoming: Correction, policy: ConflictPolicy, hid: string)
    requires UniqueBy(rows, CorrectionKey)
    ensures UniqueBy(Upsert(rows, incoming, policy), CorrectionKey)
    ensures RowFor(Upsert(rows, incoming, policy), hid) ==
      if hid == incoming.highlightId then
        Some(match RowFor(rows, hid) case None => incoming case Some(e) => Merge(policy, e, incoming))
      else RowFor(rows, hid)
  {
    var k := incoming.highlightId;
    var r := Upsert(rows, incoming, policy);
    match IndexOf(rows, CorrectionKey, k)
    case None =>
      assert r == rows + [incoming];
      forall i, j | 0 <= i < j < |r| ensures CorrectionKey(r[i]) != CorrectionKey(r[j]) {
        if j == |rows| {
          assert CorrectionKey(rows[i]) != k;
        }
      }
      RowForAt(r, k, |rows|);
      if hid != k {
        match IndexOf(rows, CorrectionKey, hid)
        case None =>
          assert !HasKey(r, CorrectionKey, hid);
        case Some(i) =>
          RowForAt(r, hid, i);
      }
    case Some(i) =>
      var m := Merge(policy, rows[i], incoming);
      assert r == rows[i := m];
      assert forall j :: 0 <= j < |r| ==> CorrectionKey(r[j]) == CorrectionKey(rows[j]);
      RowForAt(rows, k, i);
      RowForAt(r, k, i);
      if hid != k {
        match IndexOf(rows, CorrectionKey, hid)
        case None =>
          assert !HasKey(r, CorrectionKey, hid);
        case Some(j) =>
          RowForAt(r, hid, j);
      }
  }

  /** A run of upserts, in order. */
  function UpsertAll(rows: seq<Correction>, incoming: seq<Correction>, policy: ConflictPolicy): (r: seq<Correction>)
    ensures |rows| <= |r| <= |rows| + |incoming|
  {
    if incoming == [] then rows
    else Upsert(UpsertAll(rows, incoming[..|incoming| - 1], policy), incoming[|incoming| - 1], policy)
  }

  lemma {:induction false} UpsertAllUnique(rows: seq<Correction>, incoming: seq<Correction>, policy: ConflictPolicy)
    requires UniqueBy(rows, CorrectionKey)
    ensures UniqueBy(UpsertAll(rows, incoming, policy), CorrectionKey)
  {
    if incoming != [] {
      var n := |incoming| - 1;
      UpsertAllUnique(rows, incoming[..n], policy);
      UpsertRowFor(UpsertAll(rows, incoming[..n], policy), incoming[n], policy, incoming[n].highlightId);
    }
  }

  /** Highlight ids no incoming row carries keep their row as it was. */
  lemma {:induction false} UpsertAllOthers(rows: seq<Correction>, incoming: seq<Correction>, policy: ConflictPolicy, hid: string)
    requires UniqueBy(rows, CorrectionKey)
    requires forall i :: 0 <= i < |incoming| ==> incoming[i].highlightId != hid
    ensures RowFor(UpsertAll(rows, incoming, policy), hid) == RowFor(rows, hid)
  {
    if incoming != [] {
      var n := |incoming| - 1;
      UpsertAllOthers(rows, incoming[..n], policy, hid);
      UpsertAllUnique(rows, incoming[..n], policy);
      UpsertRowFor(UpsertAll(rows, incoming[..n], policy), incoming[n], policy, hid);
    }
  }

  /** The last incoming row for a highlight id decides every column the
      policy overwrites. */
  lemma UpsertAllLastWins(rows: seq<Correction>, incoming: seq<Correction>, policy: ConflictPolicy, j: nat)
    requires UniqueBy(rows, CorrectionKey) && j < |incoming|
    requires forall i :: j < i < |incoming| ==> incoming[i].highlightId != incoming[j].highlightId
    ensures var r := RowFor(UpsertAll(rows, incoming, policy), incoming[j].highlightId);
      r.Some? && TakesColumns(policy, incoming[j], r.value)
  {
    var hid := incoming[j].highlightId;
    var pre := incoming[..j + 1];
    assert pre[|pre| - 1] == incoming[j];
    UpsertLastTakes(rows, pre, policy);
    var post := incoming[j + 1..];
    var mid := UpsertAll(rows, pre, policy);
    assert UpsertAll(rows, incoming, policy) == UpsertAll(mid, post, policy) by {
      assert incoming == pre + post;
      UpsertAllAppend(rows, pre, post, policy);
    }
    assert RowFor(UpsertAll(mid, post, policy), hid) == RowFor(mid, hid) by {
      UpsertAllUnique(rows, pre, policy);
      forall i | 0 <= i < |post| ensures post[i].highlightId != hid {
        assert post[i] == incoming[j + 1 + i];
      }
      UpsertAllOthers(mid, post, policy, hid);
    }
  }

  /** Right after a row is upserted, its highlight's row carries the
      columns the policy takes from it. */
  lemma UpsertLastTakes(rows: seq<Correction>, pre: seq<Correction>, policy: ConflictPolicy)
    requires UniqueBy(rows, CorrectionKey) && pre != []
    ensures var last := pre[|pre| - 1];
      var r := RowFor(UpsertAll(rows, pre, policy), last.highlightId);
      r.Some? && TakesColumns(policy, last, r.value)
  {
    var n := |pre| - 1;
    UpsertAllUnique(rows, pre[..n], policy);
    UpsertRowFor(UpsertAll(rows, pre[..n], policy), pre[n], policy, pre[n].highlightId);
  }

  lemma {:induction false} UpsertAllAppend(rows: seq<Correction>, a: seq<Correction>, b: seq<Correction>, policy: ConflictPolicy)
    ensures UpsertAll(rows, a + b, policy) == UpsertAll(UpsertAll(rows, a, policy), b, policy)
  {
    if b == [] {
      assert a + b == a;
    } else {
      var n := |b| - 1;
      TakeAppend(a, b);
      UpsertAllAppend(rows, a, b[..n], policy);
    }
  }

  /** Once a row exists for a highlight id, later upserts keep the columns
      the policy protects: its `id`, `document_id`, `created_at` and
      `category` stay those of its first insert, and so on per policy. */
  lemma {:induction false} UpsertAllKeeps(rows: seq<Correction>, incoming: seq<Correction>, policy: ConflictPolicy, hid: string)
    requires UniqueBy(rows, CorrectionKey) && RowFor(rows, hid).Some?
    ensures var r := RowFor(UpsertAll(rows, incoming, policy), hid);
      r.Some? && KeepsColumns(policy, RowFor(rows, hid).value, r.value)
  {
    if incoming != [] {
      var n := |incoming| - 1;
      var mid := UpsertAll(rows, incoming[..n], policy);
      UpsertAllKeeps(rows, incoming[..n], policy, hid);
      UpsertAllUnique(rows, incoming[..n], policy);
      UpsertRowFor(mid, incoming[n], policy, hid);
      if hid == incoming[n].highlightId {
        KeepsColumnsTransitive(policy, RowFor(rows, hid).value, RowFor(mid, hid).value,
                               Merge(policy, RowFor(mid, hid).value, incoming[n]));
      }
    }
  }

  /** A row first inserted from `incoming[j]` keeps that insert's `id` and
      `created_at` (and the other protected columns) through the rest. */
  lemma UpsertAllFirstInsert(rows: seq<Correction>, incoming: seq<Correction>, policy: ConflictPolicy, j: nat)
    requires UniqueBy(rows, CorrectionKey) && j < |incoming|
    requires RowFor(rows, incoming[j].highlightId).None?
    requires forall i :: 0 <= i < j ==> incoming[i].highlightId != incoming[j].highlightId
    ensures var r := RowFor(UpsertAll(rows, incoming, policy), incoming[j].highlightId);
      r.Some? && KeepsColumns(policy, incoming[j], r.value)
  {
    var hid := incoming[j].highlightId;
    var pre, post := incoming[..j + 1], incoming[j + 1..];
    var mid := UpsertAll(rows, pre, policy);
    assert RowFor(mid, hid) == Some(incoming[j]) by {
      assert pre[..j] == incoming[..j];
      UpsertAllOthers(rows, incoming[..j], policy, hid);
      UpsertAllUnique(rows, incoming[..j], policy);
      UpsertRowFor(UpsertAll(rows, incoming[..j], policy), incoming[j], policy, hid);
    }
    assert UpsertAll(rows, incoming, policy) == UpsertAll(mid, post, policy) by {
      assert incoming == pre + post;
      UpsertAllAppend(rows, pre, post, policy);
    }
    UpsertAllUnique(rows, pre, policy);
    UpsertAllKeeps(mid, post, policy, hid);
  }

  // ---------------------------------------------------------------------
  // persist_corrections

  /** One correction as the editor sends it. */
  datatype CorrectionInput = CorrectionInput(
    highlightId: string,
    originalText: string,
    prefixContext: Option<string>,
    suffixContext: Option<string>,
    extendedContext: Option<string>,
    notes: seq<string>,
    highlightColor: string,
    writingType: Option<string>)

  /** The document and session every row of one persist call shares. */
  datatype PersistContext = PersistContext(
    documentId: string,
    documentTitle: Option<string>,
    documentSource: string,
    documentPath: Option<string>,
    sessionId: string,
    now: int)

  /** The row offered for one input; `category` is always NULL and both
      timestamps are the call's `now`. */
  function IncomingRow(input: CorrectionInput, rowId: string, ctx: PersistContext): Correction {
    Correction(rowId, input.highlightId, ctx.documentId, ctx.sessionId, input.originalText,
               input.prefixContext, input.suffixContext, input.extendedContext, NoteList(input.notes),
               ctx.documentTitle, ctx.documentSource, ctx.documentPath, None, input.highlightColor,
               ctx.now, ctx.now, input.writingType)
  }

  /** The rows offered for the inputs; `rowId(i)` is the fresh UUID of input `i`. */
  function IncomingRows(inputs: seq<CorrectionInput>, rowId: nat -> string, ctx: PersistContext): (r: seq<Correction>)
    ensures |r| == |inputs|
    ensures forall i :: 0 <= i < |inputs| ==> r[i].highlightId == inputs[i].highlightId
  {
    var r := seq(|inputs|, i requires 0 <= i < |inputs| => IncomingRow(inputs[i], rowId(i), ctx));
    assert forall i :: 0 <= i < |inputs| ==> r[i] == IncomingRow(inputs[i], rowId(i), ctx);
    r
  }

  /** `persist_corrections`: inside one transaction, upsert a row per input;
      the first failing statement (`failAt`) returns its error and the
      transaction rolls back. A table without `writing_type` rejects the
      statement. The JSONL append log is not modelled. */
  method PersistCorrections(db: Database, inputs: seq<CorrectionInput>, ctx: PersistContext,
                            rowId: nat -> string, failAt: Option<nat>) returns (r: Result<string>)
    requires db.Valid()
    modifies db`corrections
    ensures db.Valid()
    ensures r.Ok? <==> db.correctionsHasWritingType && (failAt.None? || failAt.value >= |inputs|)
    ensures r.Ok? ==> (r.value == ctx.sessionId
      && db.corrections == UpsertAll(old(db.corrections), IncomingRows(inputs, rowId, ctx), PersistPolicy))
    ensures r.Err? ==> db.corrections == old(db.corrections)
  {
    if !db.correctionsHasWritingType {
      return Err("table corrections has no column named writing_type");
    }
    var ok, rows := UpsertInputs(db.corrections, inputs, rowId, ctx, failAt);
    if !ok {
      return Err("failed to upsert correction");
    }
    UpsertAllUnique(old(db.corrections), IncomingRows(inputs, rowId, ctx), PersistPolicy);
    db.corrections := rows;
    r := Ok(ctx.sessionId);
  }

  /** The loop of `persist_corrections`: one upsert per input, stopping at
      the statement `failAt` names. */
  method UpsertInputs(start: seq<Correction>, inputs: seq<CorrectionInput>, rowId: nat -> string, ctx: PersistContext,
                      failAt: Option<nat>) returns (ok: bool, rows: seq<Correction>)
    ensures ok <==> failAt.None? || failAt.value >= |inputs|
    ensures ok ==> rows == UpsertAll(start, IncomingRows(inputs, rowId, ctx), PersistPolicy)
  {
    rows := start;
    var i := 0;
    while i < |inputs|
      invariant 0 <= i <= |inputs|
      invariant failAt.Some? ==> failAt.value >= i
      invariant rows == UpsertAll(start, IncomingRows(inputs[..i], rowId, ctx), PersistPolicy)
    {
      if failAt == Some(i) {
        return false, rows;
      }
      IncomingRowsSnoc(inputs, i, rowId, ctx);
      rows := Upsert(rows, IncomingRow(inputs[i], rowId(i), ctx), PersistPolicy);
      i := i + 1;
    }
    assert inputs[..|inputs|] == inputs;
    ok := true;
  }

  lemma IncomingRowsSnoc(inputs: seq<CorrectionInput>, i: nat, rowId: nat -> string, ctx: PersistContext)
    requires i < |inputs|
    ensures IncomingRows(inputs[..i + 1], rowId, ctx) == IncomingRows(inputs[..i], rowId, ctx) + [IncomingRow(inputs[i], rowId(i), ctx)]
  {
    var a, b := IncomingRows(inputs[..i + 1], rowId, ctx), IncomingRows(inputs[..i], rowId, ctx);
    assert forall k :: 0 <= k < i + 1 ==> a[k] == IncomingRow(inputs[k], rowId(k), ctx);
    assert forall k :: 0 <= k < i ==> b[k] == IncomingRow(inputs[k], rowId(k), ctx);
  }

  // ---------------------------------------------------------------------
  // update_writing_type and delete_correction_by_highlight

  /** `UPDATE corrections SET writing_type = ?, updated_at = ? WHERE highlight_id = ?`. */
  function SetWritingType(rows: seq<Correction>, hid: string, writingType: string, now: int): (r: seq<Correction>)
    ensures |r| == |rows|
    ensures forall i :: 0 <= i < |rows| ==>
      r[i] == if rows[i].highlightId == hid then rows[i].(writingType := Some(writingType), updatedAt := now) else rows[i]
  {
    if rows == [] then []
    else
      var head := if rows[0].highlightId == hid then rows[0].(writingType := Some(writingType), updatedAt := now) else rows[0];
      [head] + SetWritingType(rows[1..], hid, writingType, now)
  }

  /** `update_writing_type`: an error when no row has the highlight id;
      `now` is None when the clock cannot be read, and 0 is stored then. */
  method UpdateWritingType(db: Database, hid: string, writingType: string, now: Option<int>) returns (r: Result<Unit>)
    requires db.Valid()
    modifies db`corrections
    ensures db.Valid()
    ensures r.Ok? <==> db.correctionsHasWritingType && HasKey(old(db.corrections), CorrectionKey, hid)
    ensures db.corrections ==
      if db.correctionsHasWritingType then SetWritingType(old(db.corrections), hid, writingType, now.GetOr(0))
      else old(db.corrections)
  {
    if !db.correctionsHasWritingType {
      return Err("no such column: writing_type");
    }
    var found := IndexOf(db.corrections, CorrectionKey, hid);
    db.corrections := SetWritingType(db.corrections, hid, writingType, now.GetOr(0));
    if found.None? {
      return Err("Query returned no rows");
    }
    return Ok(Unit);
  }

  /** `DELETE FROM corrections WHERE highlight_id = ?`. */
  function DeleteWhere(rows: seq<Correction>, hid: string): (r: seq<Correction>)
    ensures forall c :: c in r <==> c in rows && c.highlightId != hid
    ensures |r| <= |rows|
    ensures |r| == |rows| <==> !HasKey(rows, CorrectionKey, hid)
  {
    if rows == [] then []
    else
      var rest := DeleteWhere(rows[1..], hid);
      assert HasKey(rows, CorrectionKey, hid) <==> rows[0].highlightId == hid || HasKey(rows[1..], CorrectionKey, hid) by {
        if HasKey(rows, CorrectionKey, hid) {
          var i :| 0 <= i < |rows| && CorrectionKey(rows[i]) == hid;
          if i > 0 {
            assert CorrectionKey(rows[1..][i - 1]) == hid;
          }
        }
        if HasKey(rows[1..], CorrectionKey, hid) {
          var i :| 0 <= i < |rows[1..]| && CorrectionKey(rows[1..][i]) == hid;
          assert CorrectionKey(rows[i + 1]) == hid;
        }
      }
      if rows[0].highlightId == hid then rest else [rows[0]] + rest
  }

  /** Removing rows keeps their keys distinct. */
  lemma {:induction false} DeleteWhereUnique(rows: seq<Correction>, hid: string)
    requires UniqueBy(rows, CorrectionKey)
    ensures UniqueBy(DeleteWhere(rows, hid), CorrectionKey)
  {
    if rows != [] {
      DeleteWhereUnique(rows[1..], hid);
      var rest := DeleteWhere(rows[1..], hid);
      if rows[0].highlightId != hid {
        ConsUnique(rows, rest, CorrectionKey);
      }
    }
  }

  /** `delete_correction_by_highlight`: an error when no row has the id. */
  method DeleteCorrectionByHighlight(db: Database, hid: string) returns (r: Result<Unit>)
    requires db.Valid()
    modifies db`corrections
    ensures db.Valid()
    ensures r.Ok? <==> HasKey(old(db.corrections), CorrectionKey, hid)
    ensures db.corrections == DeleteWhere(old(db.corrections), hid)
  {
    var before := |db.corrections|;
    DeleteWhereUnique(db.corrections, hid);
    db.corrections := DeleteWhere(db.corrections, hid);
    if |db.corrections| == before {
      return Err("Query returned no rows");
    }
    return Ok(Unit);
  }

  /** A single matching row is the only one removed. */
  lemma DeleteRemovesOne(rows: seq<Correction>, hid: string)
    requires UniqueBy(rows, CorrectionKey) && HasKey(rows, CorrectionKey, hid)
    ensures |DeleteWhere(rows, hid)| == |rows| - 1
  {
    var i :| 0 <= i < |rows| && CorrectionKey(rows[i]) == hid;
    assert rows == rows[..i] + [rows[i]] + rows[i + 1..];
    forall j | 0 <= j < |rows| && j != i ensures rows[j].highlightId != hid {
      assert CorrectionKey(rows[j]) != CorrectionKey(rows[i]);
    }
    DeleteWhereSplit(rows[..i], rows[i], rows[i + 1..], hid);
  }

  lemma DeleteWhereSplit(a: seq<Correction>, x: Correction, b: seq<Correction>, hid: string)
    requires x.highlightId == hid
    requires forall j :: 0 <= j < |a| ==> a[j].highlightId != hid
    requires forall j :: 0 <= j < |b| ==> b[j].highlightId != hid
    ensures |DeleteWhere(a + [x] + b, hid)| == |a| + |b|
  {
    if a == [] {
      assert a + [x] + b == [x] + b;
      assert ([x] + b)[1..] == b;
      DeleteWhereNone(b, hid);
    } else {
      assert (a + [x] + b)[1..] == a[1..] + [x] + b;
      DeleteWhereSplit(a[1..], x, b, hid);
    }
  }

  lemma DeleteWhereNone(rows: seq<Correction>, hid: string)
    requires forall j :: 0 <= j < |rows| ==> rows[j].highlightId != hid
    ensures |DeleteWhere(rows, hid)| == |rows|
  {
  }

  // ---------------------------------------------------------------------
  // fetch_corrections_by_document

  predicate IsBackfilled(c: Correction) {
    c.sessionId == Backfilled
  }

  predicate NotBackfilled(c: Correction) {
    c.sessionId != Backfilled
  }

  datatype CorrectionDetail = CorrectionDetail(
    highlightId: string,
    originalText: string,
    notes: seq<string>,
    extendedContext: Option<string>,
    highlightColor: string,
    writingType: Option<string>,
    documentTitle: Option<string>,
    createdAt: int)

  datatype DocumentCorrections = DocumentCorrections(
    documentId: string,
    documentTitle: Option<string>,
    documentPath: Option<string>,
    corrections: seq<CorrectionDetail>)

  function DetailOf(c: Correction): CorrectionDetail {
    CorrectionDetail(c.highlightId, c.originalText, DecodeNotes(c.notes), c.extendedContext, c.highlightColor,
                     c.writingType, c.documentTitle, c.createdAt)
  }

  function Details(cs: seq<Correction>): (r: seq<CorrectionDetail>)
    ensures |r| == |cs|
  {
    seq(|cs|, i requires 0 <= i < |cs| => DetailOf(cs[i]))
  }

  function DocKey(c: Correction): string {
    c.documentId
  }

  /** The rows the query yields: not backfilled, newest first, at most `limit`. */
  function ByDocumentStream(rows: seq<Correction>, limit: int): seq<Correction> {
    Take(SortBy(Filter(rows, NotBackfilled), NewestFirst), limit)
  }

  /** A group as the command returns it: title and path come from the
      group's first row. */
  function Summarize(g: Group<string, Correction>): DocumentCorrections {
    if g.members == [] then DocumentCorrections(g.key, None, None, [])
    else DocumentCorrections(g.key, g.members[0].documentTitle, g.members[0].documentPath, Details(g.members))
  }

  function ByDocument(stream: seq<Correction>): seq<DocumentCorrections> {
    var gs := GroupsOf(stream, DocKey);
    seq(|gs|, i requires 0 <= i < |gs| => Summarize(gs[i]))
  }

  /** `fetch_corrections_by_document`: the query's rows, grouped by document
      in the loop that opens a group the first time a document id is seen. */
  method FetchCorrectionsByDocument(rows: seq<Correction>, limit: int) returns (groups: seq<DocumentCorrections>)
    ensures groups == ByDocument(ByDocumentStream(rows, limit))
  {
    var stream := ByDocumentStream(rows, limit);
    var gs := GroupFirstSeen(stream, DocKey);
    groups := [];
    var i := 0;
    while i < |gs|
      invariant 0 <= i <= |gs|
      invariant groups == seq(i, k requires 0 <= k < i => Summarize(gs[k]))
    {
      groups := groups + [Summarize(gs[i])];
      i := i + 1;
    }
  }

  lemma StreamRows(rows: seq<Correction>, limit: int)
    ensures var s := ByDocumentStream(rows, limit);
      && SortedBy(s, NewestFirst)
      && (0 <= limit ==> |s| <= limit)
      && (forall c :: c in s ==> c in rows && NotBackfilled(c))
  {
    var f := Filter(rows, NotBackfilled);
    NewestFirstOrders();
    TopRows(f, NewestFirst, limit);
    var s := ByDocumentStream(rows, limit);
    forall c | c in s ensures c in rows && NotBackfilled(c) {
      assert c in multiset(s);
      assert c in multiset(f);
      FilterMembers(rows, NotBackfilled, c);
    }
  }

  /** The groups: one per document, in order of first appearance in the
      newest-first stream, each holding that document's rows in stream order;
      no backfilled row appears and every streamed row is in its group. */
  lemma ByDocumentGroups(rows: seq<Correction>, limit: int)
    ensures var s := ByDocumentStream(rows, limit);
      var gs := ByDocument(s);
      && SortedBy(s, NewestFirst)
      && (forall c :: c in s ==> c in rows && NotBackfilled(c))
      && (forall i, j :: 0 <= i < j < |gs| ==> gs[i].documentId != gs[j].documentId)
      && (forall i :: 0 <= i < |gs| ==>
            gs[i].corrections != [] && gs[i].corrections == Details(Matching(s, DocKey, gs[i].documentId)))
      && (forall k :: 0 <= k < |s| ==> exists i :: 0 <= i < |gs| && gs[i].documentId == s[k].documentId)
  {
    var s := ByDocumentStream(rows, limit);
    StreamRows(rows, limit);
    var groups := GroupsOf(s, DocKey);
    var gs := ByDocument(s);
    FirstSeenKeysDistinct(s, DocKey);
    forall i | 0 <= i < |gs|
      ensures gs[i].corrections != [] && gs[i].corrections == Details(Matching(s, DocKey, gs[i].documentId))
    {
      MatchingCount(s, DocKey, groups[i].key);
    }
    forall k | 0 <= k < |s| ensures exists i :: 0 <= i < |gs| && gs[i].documentId == s[k].documentId {
      ItemInOneGroup(s, DocKey, k);
      var i :| 0 <= i < |groups| && groups[i].key == DocKey(s[k]);
      assert gs[i].documentId == s[k].documentId;
    }
  }

  // ---------------------------------------------------------------------
  // build_corrections_export and export_and_clear_corrections

  datatype ExportedCorrection = ExportedCorrection(
    originalText: string,
    notes: seq<string>,
    extendedContext: Option<string>,
    writingType: Option<string>,
    documentTitle: Option<string>,
    highlightColor: string,
    createdAt: int)

  datatype CorrectionsExport = CorrectionsExport(
    exportedAt: string,
    totalCount: nat,
    corrections: seq<ExportedCorrection>)

  function ExportedOf(c: Correction): ExportedCorrection {
    ExportedCorrection(c.originalText, DecodeNotes(c.notes), c.extendedContext, c.writingType, c.documentTitle,
                       c.highlightColor, c.createdAt)
  }

  /** The rows the export query yields: every row not from the backfill, newest first. */
  function ExportStream(rows: seq<Correction>): seq<Correction> {
    SortBy(Filter(rows, NotBackfilled), NewestFirst)
  }

  function ExportedRows(rows: seq<Correction>): (r: seq<ExportedCorrection>)
    ensures |r| == |ExportStream(rows)|
  {
    var s := ExportStream(rows);
    seq(|s|, i requires 0 <= i < |s| => ExportedOf(s[i]))
  }

  /** `build_corrections_export`: the non-backfilled rows newest first, their
      count, and the UTC time `secs` seconds after the epoch. */
  method BuildCorrectionsExport(rows: seq<Correction>, secs: nat) returns (e: CorrectionsExport)
    ensures e.corrections == ExportedRows(rows)
    ensures e.totalCount == |e.corrections|
    ensures exists t :: ValidDateTime(t) && EpochSeconds(t) == secs && e.exportedAt == FormatRfc3339(t)
  {
    var corrections := ExportedRows(rows);
    var t, stamp := ExportTimestamp(secs);
    e := CorrectionsExport(stamp, |corrections|, corrections);
  }

  /** The rows whose session id is `__backfilled__`: the backfill's sentinel
      row and any other row written with that session id. Rows the backfill
      imports from the logs keep the session ids recorded there. */
  function BackfilledRows(rows: seq<Correction>): seq<Correction> {
    Filter(rows, IsBackfilled)
  }

  lemma {:induction false} FilterPartition(rows: seq<Correction>)
    ensures multiset(Filter(rows, NotBackfilled)) + multiset(Filter(rows, IsBackfilled)) == multiset(rows)
  {
    if rows != [] {
      var c, rest := rows[0], rows[1..];
      var kept, gone := Filter(rest, NotBackfilled), Filter(rest, IsBackfilled);
      FilterPartition(rest);
      assert multiset(rows) == multiset{c} + multiset(rest) by {
        assert rows == [c] + rest;
      }
      if IsBackfilled(c) {
        assert Filter(rows, NotBackfilled) == kept;
        assert multiset(Filter(rows, IsBackfilled)) == multiset{c} + multiset(gone) by {
          assert Filter(rows, IsBackfilled) == [c] + gone;
        }
      } else {
        assert multiset(Filter(rows, NotBackfilled)) == multiset{c} + multiset(kept) by {
          assert Filter(rows, NotBackfilled) == [c] + kept;
        }
        assert Filter(rows, IsBackfilled) == gone;
      }
    }
  }

  lemma {:induction false} FilterUnique(rows: seq<Correction>, p: Correction -> bool)
    requires UniqueBy(rows, CorrectionKey)
    ensures UniqueBy(Filter(rows, p), CorrectionKey)
  {
    if rows != [] {
      FilterUnique(rows[1..], p);
      var rest := Filter(rows[1..], p);
      if p(rows[0]) {
        forall x | x in rest ensures x in rows[1..] {
          FilterMembers(rows[1..], p, x);
        }
        ConsUnique(rows, rest, CorrectionKey);
      }
    }
  }

  /** Every row is either exported or kept, and what is kept is exactly the
      backfilled rows, so the count returned is the number removed. */
  lemma ExportClearPartition(rows: seq<Correction>)
    ensures multiset(ExportStream(rows)) + multiset(BackfilledRows(rows)) == multiset(rows)
    ensures forall c :: c in BackfilledRows(rows) <==> c in rows && IsBackfilled(c)
    ensures |ExportedRows(rows)| + |BackfilledRows(rows)| == |rows|
  {
    FilterPartition(rows);
    forall c ensures c in BackfilledRows(rows) <==> c in rows && IsBackfilled(c) {
      FilterMembers(rows, IsBackfilled, c);
    }
    assert |multiset(ExportStream(rows))| + |multiset(BackfilledRows(rows))| == |multiset(rows)|;
  }

  lemma KeptRowsFromTable(rows: seq<Correction>)
    ensures forall i :: 0 <= i < |BackfilledRows(rows)| ==> BackfilledRows(rows)[i] in rows
  {
    forall i | 0 <= i < |BackfilledRows(rows)| ensures BackfilledRows(rows)[i] in rows {
      FilterMembers(rows, IsBackfilled, BackfilledRows(rows)[i]);
    }
  }

  /** `export_and_clear_corrections`: build the export, write it (`writeOk`
      says whether creating the directory and writing the file succeed), and
      only then delete every row that is not backfilled (`deleteFails` says
      the `DELETE` errs: the file is then written but the rows stay and the
      error is returned). */
  method ExportAndClearCorrections(db: Database, secs: nat, writeOk: bool, deleteFails: bool)
    returns (r: Result<nat>, written: Option<CorrectionsExport>)
    requires db.Valid()
    modifies db`corrections
    ensures db.Valid()
    ensures writeOk ==>
      && written.Some? && written.value.corrections == ExportedRows(old(db.corrections))
      && written.value.totalCount == |ExportedRows(old(db.corrections))|
      && exists t :: ValidDateTime(t) && EpochSeconds(t) == secs && written.value.exportedAt == FormatRfc3339(t)
    ensures writeOk && !deleteFails ==>
      && r == Ok(|ExportedRows(old(db.corrections))|)
      && db.corrections == BackfilledRows(old(db.corrections))
    ensures writeOk && deleteFails ==> r.Err? && db.corrections == old(db.corrections)
    ensures !writeOk ==> r.Err? && written.None? && db.corrections == old(db.corrections)
  {
    var report := BuildCorrectionsExport(db.corrections, secs);
    var count := report.totalCount;
    if !writeOk {
      return Err("Failed to write export"), None;
    }
    written := Some(report);
    if deleteFails {
      return Err("Failed to clear exported corrections"), written;
    }
    FilterUnique(db.corrections, IsBackfilled);
    KeptRowsFromTable(db.corrections);
    db.corrections := BackfilledRows(db.corrections);
    r := Ok(count);
  }
}
