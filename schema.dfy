/** The SQLite database behind the app: one row type per table and one
    `Database` object whose fields are the tables the commands read and
    change. Tables with a rowid keep their rows in insertion order, which is
    also the order SQLite scans them in. */
module Schema {
  import opened Wrappers

  /** A row of `documents`, with the columns the commands touch. */
  datatype Document = Document(
    id: string,
    filePath: Option<string>,
    title: Option<string>,
    lastOpenedAt: int,
    accessCount: Option<int>,
    indexedAt: Option<int>)

  /** A row of the FTS5 table `documents_fts`, keyed by its document id. */
  datatype FtsEntry = FtsEntry(title: string, content: string)

  datatype Highlight = Highlight(
    id: string,
    documentId: string,
    color: string,
    textContent: string,
    fromPos: int,
    toPos: int,
    prefixContext: Option<string>,
    suffixContext: Option<string>,
    createdAt: int,
    updatedAt: int)

  datatype MarginNote = MarginNote(
    id: string,
    highlightId: string,
    content: string,
    createdAt: int,
    updatedAt: int)

  /** What `notes_json` holds: a JSON array of strings, or any other JSON text,
      which the readers decode to no notes. */
  datatype Notes = NoteList(items: seq<string>) | OtherJson

  function DecodeNotes(n: Notes): seq<string> {
    match n
    case NoteList(items) => items
    case OtherJson => []
  }

  datatype Correction = Correction(
    id: string,
    highlightId: string,
    documentId: string,
    sessionId: string,
    originalText: string,
    prefixContext: Option<string>,
    suffixContext: Option<string>,
    extendedContext: Option<string>,
    notes: Notes,
    documentTitle: Option<string>,
    documentSource: string,
    documentPath: Option<string>,
    category: Option<string>,
    highlightColor: string,
    createdAt: int,
    updatedAt: int,
    writingType: Option<string>)

  /** A row of `open_tabs`; `is_active` is an INTEGER column. */
  datatype TabRow = TabRow(id: string, documentId: string, tabOrder: int, isActive: int, createdAt: int)

  datatype WritingRule = WritingRule(
    id: string,
    writingType: string,
    category: string,
    ruleText: string,
    whenToApply: Option<string>,
    why: Option<string>,
    severity: string,
    exampleBefore: Option<string>,
    exampleAfter: Option<string>,
    source: string,
    signalCount: int,
    notes: Option<string>,
    createdAt: int,
    updatedAt: int)

  /** The session id of the backfill's sentinel row (and of any row written
      with it); rows imported from the logs keep their logged session ids. */
  const Backfilled: string := "__backfilled__"

  function HighlightKey(h: Highlight): string { h.id }
  function NoteKey(n: MarginNote): string { n.id }
  function CorrectionKey(c: Correction): string { c.highlightId }
  function TabKey(t: TabRow): string { t.id }

  /** A PRIMARY KEY or UNIQUE column: no two rows share a key. */
  predicate UniqueBy<T>(rows: seq<T>, key: T -> string) {
    forall i, j :: 0 <= i < j < |rows| ==> key(rows[i]) != key(rows[j])
  }

  predicate HasKey<T>(rows: seq<T>, key: T -> string, k: string) {
    exists i :: 0 <= i < |rows| && key(rows[i]) == k
  }

  /** The position of the row whose key is `k`, if there is one. */
  function IndexOf<T>(rows: seq<T>, key: T -> string, k: string): (r: Option<nat>)
    ensures r.Some? ==> r.value < |rows| && key(rows[r.value]) == k
    ensures r.None? <==> !HasKey(rows, key, k)
  {
    if rows == [] then None
    else if key(rows[0]) == k then Some(0)
    else
      match IndexOf(rows[1..], key, k)
      case None =>
        assert forall i :: 1 <= i < |rows| ==> rows[i] == rows[1..][i - 1];
        None
      case Some(i) => Some(i + 1)
  }

  lemma UniqueIndex<T>(rows: seq<T>, key: T -> string, i: nat, j: nat)
    requires UniqueBy(rows, key) && i < |rows| && j < |rows| && key(rows[i]) == key(rows[j])
    ensures i == j
  {
  }

  /** Keeping the first row in front of rows drawn from the rest keeps the
      keys distinct. */
  lemma ConsUnique<T>(rows: seq<T>, rest: seq<T>, key: T -> string)
    requires rows != [] && UniqueBy(rows, key) && UniqueBy(rest, key)
    requires forall x :: x in rest ==> x in rows[1..]
    ensures UniqueBy([rows[0]] + rest, key)
  {
    var r := [rows[0]] + rest;
    forall i, j | 0 <= i < j < |r| ensures key(r[i]) != key(r[j]) {
      if i == 0 {
        assert r[j] == rest[j - 1];
        assert r[j] in rows[1..];
        var k :| 0 <= k < |rows[1..]| && rows[1..][k] == r[j];
        assert rows[k + 1] == r[j];
      } else {
        assert r[i] == rest[i - 1] && r[j] == rest[j - 1];
      }
    }
  }

  /** Two different rows of a table with a unique key have different keys. */
  lemma DistinctRowsDistinctKeys<T>(rows: seq<T>, key: T -> string, x: T, y: T)
    requires UniqueBy(rows, key) && x in rows && y in rows && x != y
    ensures key(x) != key(y)
  {
    var i :| 0 <= i < |rows| && rows[i] == x;
    var j :| 0 <= j < |rows| && rows[j] == y;
    assert i != j;
  }

  /** The keys and foreign keys the schema declares, over the tables that
      carry them; without `writing_type`, no correction has one. */
  ghost predicate Declared(documents: map<string, Document>, highlights: seq<Highlight>, marginNotes: seq<MarginNote>,
                           corrections: seq<Correction>, openTabs: seq<TabRow>, hasWritingType: bool)
  {
    && (forall k :: k in documents ==> documents[k].id == k)
    && UniqueBy(highlights, HighlightKey)
    && UniqueBy(marginNotes, NoteKey)
    && UniqueBy(corrections, CorrectionKey)
    && UniqueBy(openTabs, TabKey)
    && (forall i :: 0 <= i < |highlights| ==> highlights[i].documentId in documents)
    && (forall i :: 0 <= i < |marginNotes| ==> HasKey(highlights, HighlightKey, marginNotes[i].highlightId))
    && (forall i :: 0 <= i < |openTabs| ==> openTabs[i].documentId in documents)
    && (!hasWritingType ==> forall i :: 0 <= i < |corrections| ==> corrections[i].writingType.None?)
  }

  /** Changing columns of existing documents, but no key and no id, keeps
      every declared constraint. */
  lemma DeclaredRekeyed(documents: map<string, Document>, documents': map<string, Document>, highlights: seq<Highlight>,
                        marginNotes: seq<MarginNote>, corrections: seq<Correction>, openTabs: seq<TabRow>, hasWritingType: bool)
    requires Declared(documents, highlights, marginNotes, corrections, openTabs, hasWritingType)
    requires documents'.Keys == documents.Keys && forall k :: k in documents' ==> documents'[k].id == documents[k].id
    ensures Declared(documents', highlights, marginNotes, corrections, openTabs, hasWritingType)
  {
  }

  class Database {
    var documents: map<string, Document>
    var fts: map<string, FtsEntry>
    var highlights: seq<Highlight>
    var marginNotes: seq<MarginNote>
    var corrections: seq<Correction>
    var openTabs: seq<TabRow>
    var writingRules: seq<WritingRule>
    /** Whether `corrections` still carries the foreign keys of its first schema. */
    var correctionsHasFks: bool
    /** Whether the `writing_type` column (and its index) exists on `corrections`. */
    var correctionsHasWritingType: bool
    /** The connection's `PRAGMA foreign_keys` setting. */
    var foreignKeysOn: bool

    /** The constraints the schema declares, which SQLite keeps true. */
    ghost predicate Valid()
      reads this
    {
      Declared(documents, highlights, marginNotes, corrections, openTabs, correctionsHasWritingType)
    }

    /** A database in the state `init_db` leaves it: the given tables, the
        current corrections schema, foreign keys enforced. */
    constructor (documents: map<string, Document>, highlights: seq<Highlight>, marginNotes: seq<MarginNote>,
                 corrections: seq<Correction>, openTabs: seq<TabRow>, writingRules: seq<WritingRule>)
      requires Declared(documents, highlights, marginNotes, corrections, openTabs, true)
      ensures Valid()
      ensures this.documents == documents && this.fts == map[]
      ensures this.highlights == highlights && this.marginNotes == marginNotes
      ensures this.corrections == corrections && this.openTabs == openTabs
      ensures this.writingRules == writingRules
      ensures !correctionsHasFks && correctionsHasWritingType && foreignKeysOn
    {
      this.documents := documents;
      this.fts := map[];
      this.highlights := highlights;
      this.marginNotes := marginNotes;
      this.corrections := corrections;
      this.openTabs := openTabs;
      this.writingRules := writingRules;
      this.correctionsHasFks := false;
      this.correctionsHasWritingType := true;
      this.foreignKeysOn := true;
    }
  }
}
