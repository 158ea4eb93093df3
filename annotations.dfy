/** Highlights and margin notes: the statements on the `highlights` and
    `margin_notes` tables, and the command handlers that run them and then
    touch the owning document's `last_opened_at`. */
module Annotations {
  import opened Wrappers
  import opened Sorting
  import opened Schema

  // ---------------------------------------------------------------------
  // Row sets

  /** The rows whose `key` is not in `gone`: what `DELETE ... WHERE`
      leaves, in table order. */
  function Without<T(!new)>(rows: seq<T>, key: T -> string, gone: set<string>): (r: seq<T>)
    ensures forall x :: x in r <==> x in rows && key(x) !in gone
    ensures |r| <= |rows|
  {
    if rows == [] then []
    else
      var rest := Without(rows[1..], key, gone);
      assert forall x :: x in rows <==> x == rows[0] || x in rows[1..];
      if key(rows[0]) in gone then rest else [rows[0]] + rest
  }

  /** The rows whose `key` is in `keep`, in table order. */
  function Only<T(!new)>(rows: seq<T>, key: T -> string, keep: set<string>): (r: seq<T>)
    ensures forall x :: x in r <==> x in rows && key(x) in keep
    ensures |r| <= |rows|
  {
    if rows == [] then []
    else
      var rest := Only(rows[1..], key, keep);
      assert forall x :: x in rows <==> x == rows[0] || x in rows[1..];
      if key(rows[0]) in keep then [rows[0]] + rest else rest
  }

  /** The rows a statement deleted and the rows it kept add up to the table. */
  lemma {:induction false} WithoutCount<T(!new)>(rows: seq<T>, key: T -> string, gone: set<string>)
    ensures |Without(rows, key, gone)| + |Only(rows, key, gone)| == |rows|
  {
    if rows != [] {
      WithoutCount(rows[1..], key, gone);
    }
  }

  /** Deleting rows keeps a column unique. */
  lemma {:induction false} WithoutUnique<T(!new)>(rows: seq<T>, key: T -> string, gone: set<string>, unique: T -> string)
    requires UniqueBy(rows, unique)
    ensures UniqueBy(Without(rows, key, gone), unique)
  {
    if rows != [] {
      var tail := rows[1..];
      assert UniqueBy(tail, unique) by {
        forall i, j | 0 <= i < j < |tail| ensures unique(tail[i]) != unique(tail[j]) {
          assert tail[i] == rows[i + 1] && tail[j] == rows[j + 1];
        }
      }
      WithoutUnique(tail, key, gone, unique);
      var rest := Without(tail, key, gone);
      if key(rows[0]) !in gone {
        var r := [rows[0]] + rest;
        forall i, j | 0 <= i < j < |r| ensures unique(r[i]) != unique(r[j]) {
          if i == 0 {
            assert r[j] in tail;
            var k :| 0 <= k < |tail| && tail[k] == r[j];
            assert rows[k + 1] == r[j];
          } else {
            assert r[i] == rest[i - 1] && r[j] == rest[j - 1];
          }
        }
      }
    }
  }

  lemma KeyOfMember<T>(rows: seq<T>, key: T -> string, x: T)
    requires x in rows
    ensures HasKey(rows, key, key(x))
  {
    var i :| 0 <= i < |rows| && rows[i] == x;
  }

  // ---------------------------------------------------------------------
  // fetch_highlights

  predicate ByFromPos(a: Highlight, b: Highlight) {
    a.fromPos <= b.fromPos
  }

  function DocOf(h: Highlight): string {
    h.documentId
  }

  function NoteHighlight(n: MarginNote): string {
    n.highlightId
  }

  /** `SELECT ... FROM highlights WHERE document_id = ? ORDER BY from_pos`. */
  function FetchHighlights(hs: seq<Highlight>, doc: string): (r: seq<Highlight>)
    ensures |r| <= |hs|
    ensures forall h :: h in r <==> h in hs && h.documentId == doc
  {
    SortByLength(Only(hs, DocOf, {doc}), ByFromPos);
    SortByMembers(Only(hs, DocOf, {doc}), ByFromPos);
    SortBy(Only(hs, DocOf, {doc}), ByFromPos)
  }

  /** Exactly the document's highlights, ascending by start position. */
  lemma FetchHighlightsSpec(hs: seq<Highlight>, doc: string)
    ensures var r := FetchHighlights(hs, doc);
      && SortedBy(r, ByFromPos)
      && (forall h :: h in r <==> h in hs && h.documentId == doc)
      && |r| == |Only(hs, DocOf, {doc})|
  {
    var f := Only(hs, DocOf, {doc});
    var r := FetchHighlights(hs, doc);
    SortBySorted(f, ByFromPos);
    SortByLength(f, ByFromPos);
    forall h ensures h in r <==> h in hs && h.documentId == doc {
      assert h in r <==> h in multiset(r);
      assert h in f <==> h in multiset(f);
    }
  }

  // ---------------------------------------------------------------------
  // set_highlight_color and set_margin_note_content

  /** `UPDATE highlights SET color = ?, updated_at = ? WHERE id = ?`. */
  function SetColor(hs: seq<Highlight>, id: string, color: string, now: int): (r: seq<Highlight>)
    ensures |r| == |hs|
    ensures forall i :: 0 <= i < |r| ==> r[i].(color := hs[i].color, updatedAt := hs[i].updatedAt) == hs[i]
    ensures forall i :: 0 <= i < |r| && hs[i].id == id ==> r[i].color == color && r[i].updatedAt == now
    ensures forall i :: 0 <= i < |r| && hs[i].id != id ==> r[i] == hs[i]
  {
    seq(|hs|, i requires 0 <= i < |hs| => if hs[i].id == id then hs[i].(color := color, updatedAt := now) else hs[i])
  }

  /** An id no row carries changes nothing, and the statement still succeeds. */
  lemma SetColorNoMatch(hs: seq<Highlight>, id: string, color: string, now: int)
    requires !HasKey(hs, HighlightKey, id)
    ensures SetColor(hs, id, color, now) == hs
  {
  }

  /** `UPDATE margin_notes SET content = ?, updated_at = ? WHERE id = ?`. */
  function SetContent(ns: seq<MarginNote>, id: string, content: string, now: int): (r: seq<MarginNote>)
    ensures |r| == |ns|
    ensures forall i :: 0 <= i < |r| ==> r[i].(content := ns[i].content, updatedAt := ns[i].updatedAt) == ns[i]
    ensures forall i :: 0 <= i < |r| && ns[i].id == id ==> r[i].content == content && r[i].updatedAt == now
    ensures forall i :: 0 <= i < |r| && ns[i].id != id ==> r[i] == ns[i]
  {
    seq(|ns|, i requires 0 <= i < |ns| => if ns[i].id == id then ns[i].(content := content, updatedAt := now) else ns[i])
  }

  // ---------------------------------------------------------------------
  // Deletes, with ON DELETE CASCADE from highlights to margin notes

  /** The ids of a document's highlights. */
  function HighlightIdsOf(hs: seq<Highlight>, doc: string): (r: set<string>)
    ensures forall id :: id in r <==> exists h :: h in hs && h.documentId == doc && h.id == id
  {
    set h | h in hs && h.documentId == doc :: h.id
  }

  // ---------------------------------------------------------------------
  // fetch_margin_notes

  /** A row of the join: a note and the start position of its highlight. */
  datatype NoteAt = NoteAt(note: MarginNote, fromPos: int)

  /** The highlights of the document that note `n` is attached to. */
  function Attached(n: MarginNote, hs: seq<Highlight>, doc: string): (r: seq<NoteAt>)
    ensures forall x :: x in r <==>
      x.note == n && exists h :: h in hs && h.id == n.highlightId && h.documentId == doc && h.fromPos == x.fromPos
  {
    if hs == [] then []
    else
      var rest := Attached(n, hs[1..], doc);
      assert forall h :: h in hs <==> h == hs[0] || h in hs[1..];
      if hs[0].id == n.highlightId && hs[0].documentId == doc then [NoteAt(n, hs[0].fromPos)] + rest else rest
  }

  /** `margin_notes JOIN highlights ON highlight_id = id WHERE document_id = ?`. */
  function JoinNotes(ns: seq<MarginNote>, hs: seq<Highlight>, doc: string): (r: seq<NoteAt>)
    ensures forall x :: x in r <==>
      x.note in ns && exists h :: h in hs && h.id == x.note.highlightId && h.documentId == doc && h.fromPos == x.fromPos
  {
    if ns == [] then []
    else
      var rest := JoinNotes(ns[1..], hs, doc);
      assert forall n :: n in ns <==> n == ns[0] || n in ns[1..];
      Attached(ns[0], hs, doc) + rest
  }

  predicate ByPosition(a: NoteAt, b: NoteAt) {
    a.fromPos <= b.fromPos
  }

  function NotesOf(rows: seq<NoteAt>): (r: seq<MarginNote>)
    ensures |r| == |rows| && forall i :: 0 <= i < |r| ==> r[i] == rows[i].note
  {
    seq(|rows|, i requires 0 <= i < |rows| => rows[i].note)
  }

  /** `fetch_margin_notes`: the join, ordered by the highlight's `from_pos`. */
  function FetchMarginNotes(ns: seq<MarginNote>, hs: seq<Highlight>, doc: string): (r: seq<MarginNote>)
    ensures forall i :: 0 <= i < |r| ==>
      r[i] in ns && exists h :: h in hs && h.id == r[i].highlightId && h.documentId == doc
  {
    SortByMembers(JoinNotes(ns, hs, doc), ByPosition);
    NotesOf(SortBy(JoinNotes(ns, hs, doc), ByPosition))
  }

  /** The start position of the highlight with id `hid`, if there is one. */
  function FromPosOf(hs: seq<Highlight>, hid: string): Option<int> {
    match IndexOf(hs, HighlightKey, hid)
    case None => None
    case Some(i) => Some(hs[i].fromPos)
  }

  lemma SortedRowsFromJoin(ns: seq<MarginNote>, hs: seq<Highlight>, doc: string, x: NoteAt)
    requires x in SortBy(JoinNotes(ns, hs, doc), ByPosition)
    ensures x in JoinNotes(ns, hs, doc)
  {
    assert x in multiset(SortBy(JoinNotes(ns, hs, doc), ByPosition));
  }

  lemma FetchedNoteIsAttached(ns: seq<MarginNote>, hs: seq<Highlight>, doc: string, n: MarginNote)
    requires n in FetchMarginNotes(ns, hs, doc)
    ensures n in ns && exists h :: h in hs && h.id == n.highlightId && h.documentId == doc
  {
    var rows := SortBy(JoinNotes(ns, hs, doc), ByPosition);
    var r := NotesOf(rows);
    var i :| 0 <= i < |r| && r[i] == n;
    SortedRowsFromJoin(ns, hs, doc, rows[i]);
  }

  lemma AttachedNoteIsFetched(ns: seq<MarginNote>, hs: seq<Highlight>, doc: string, n: MarginNote, h: Highlight)
    requires n in ns && h in hs && h.id == n.highlightId && h.documentId == doc
    ensures n in FetchMarginNotes(ns, hs, doc)
  {
    var joined := JoinNotes(ns, hs, doc);
    var rows := SortBy(joined, ByPosition);
    var x := NoteAt(n, h.fromPos);
    assert x in joined;
    assert x in multiset(rows);
    var i :| 0 <= i < |rows| && rows[i] == x;
    assert NotesOf(rows)[i] == n;
  }

  /** Exactly the notes whose highlight belongs to the document. */
  lemma FetchMarginNotesMembers(ns: seq<MarginNote>, hs: seq<Highlight>, doc: string)
    ensures forall n :: n in FetchMarginNotes(ns, hs, doc) <==>
      n in ns && exists h :: h in hs && h.id == n.highlightId && h.documentId == doc
  {
    forall n | n in FetchMarginNotes(ns, hs, doc) ensures n in ns && exists h :: h in hs && h.id == n.highlightId && h.documentId == doc {
      FetchedNoteIsAttached(ns, hs, doc, n);
    }
    forall n, h | n in ns && h in hs && h.id == n.highlightId && h.documentId == doc ensures n in FetchMarginNotes(ns, hs, doc) {
      AttachedNoteIsFetched(ns, hs, doc, n, h);
    }
  }

  /** Note `n`'s highlight is one of the document's. */
  predicate OnDocument(hs: seq<Highlight>, doc: string, n: MarginNote) {
    exists h :: h in hs && h.id == n.highlightId && h.documentId == doc
  }

  /** With highlight ids unique, a note joins one row when its highlight is
      on the document and none otherwise. */
  lemma {:induction false} AttachedOnce(n: MarginNote, hs: seq<Highlight>, doc: string)
    requires UniqueBy(hs, HighlightKey)
    ensures |Attached(n, hs, doc)| == if OnDocument(hs, doc, n) then 1 else 0
  {
    if hs != [] {
      var rest := hs[1..];
      assert hs == [hs[0]] + rest;
      assert UniqueBy(rest, HighlightKey) by {
        forall i, j | 0 <= i < j < |rest| ensures HighlightKey(rest[i]) != HighlightKey(rest[j]) {
          assert rest[i] == hs[i + 1] && rest[j] == hs[j + 1];
        }
      }
      AttachedOnce(n, rest, doc);
      if hs[0].id == n.highlightId {
        forall h | h in rest ensures h.id != n.highlightId {
          var k :| 0 <= k < |rest| && rest[k] == h;
          assert hs[k + 1] == h;
        }
        assert forall h :: h in hs ==> h == hs[0] || h in rest;
      } else {
        assert OnDocument(hs, doc, n) <==> OnDocument(rest, doc, n) by {
          if OnDocument(hs, doc, n) {
            var h :| h in hs && h.id == n.highlightId && h.documentId == doc;
            assert h in rest;
          }
        }
      }
    }
  }

  lemma NotesOfAppend(a: seq<NoteAt>, b: seq<NoteAt>)
    ensures NotesOf(a + b) == NotesOf(a) + NotesOf(b)
  {
    assert forall i :: 0 <= i < |a + b| ==> NotesOf(a + b)[i] == (NotesOf(a) + NotesOf(b))[i];
  }

  lemma {:induction false} NotesOfInsert(x: NoteAt, s: seq<NoteAt>, le: (NoteAt, NoteAt) -> bool)
    ensures multiset(NotesOf(Insert(x, s, le))) == multiset(NotesOf(s)) + multiset{x.note}
  {
    if s == [] {
      assert NotesOf([x]) == [x.note];
    } else if le(x, s[0]) {
      NotesOfAppend([x], s);
      assert NotesOf([x]) == [x.note];
    } else {
      NotesOfInsert(x, s[1..], le);
      NotesOfAppend([s[0]], Insert(x, s[1..], le));
      assert s == [s[0]] + s[1..];
      NotesOfAppend([s[0]], s[1..]);
    }
  }

  /** Sorting the rows keeps their notes, counted with repetition. */
  lemma {:induction false} NotesOfSortBy(s: seq<NoteAt>, le: (NoteAt, NoteAt) -> bool)
    ensures multiset(NotesOf(SortBy(s, le))) == multiset(NotesOf(s))
  {
    if s != [] {
      var t := SortBy(s[1..], le);
      calc {
        multiset(NotesOf(SortBy(s, le)));
      == { assert SortBy(s, le) == Insert(s[0], t, le); NotesOfInsert(s[0], t, le); }
        multiset(NotesOf(t)) + multiset{s[0].note};
      == { NotesOfSortBy(s[1..], le); }
        multiset(NotesOf(s[1..])) + multiset{s[0].note};
      == { assert s == [s[0]] + s[1..]; NotesOfAppend([s[0]], s[1..]); assert NotesOf([s[0]]) == [s[0].note]; }
        multiset(NotesOf(s));
      }
    }
  }

  /** The rows one note joins carry that note. */
  lemma NotesOfAttached(m: MarginNote, hs: seq<Highlight>, doc: string)
    requires UniqueBy(hs, HighlightKey)
    ensures multiset(NotesOf(Attached(m, hs, doc))) == if OnDocument(hs, doc, m) then multiset{m} else multiset{}
  {
    var att := Attached(m, hs, doc);
    AttachedOnce(m, hs, doc);
    if OnDocument(hs, doc, m) {
      assert att[0] in att;
      assert NotesOf(att) == [m];
    } else {
      assert NotesOf(att) == [];
    }
  }

  /** The join yields each note on the document once per stored copy. */
  lemma {:induction false} JoinNotesCount(ns: seq<MarginNote>, hs: seq<Highlight>, doc: string, n: MarginNote)
    requires UniqueBy(hs, HighlightKey)
    ensures multiset(NotesOf(JoinNotes(ns, hs, doc)))[n] == if OnDocument(hs, doc, n) then multiset(ns)[n] else 0
  {
    if ns != [] {
      var m := ns[0];
      JoinNotesCount(ns[1..], hs, doc, n);
      NotesOfAttached(m, hs, doc);
      NotesOfAppend(Attached(m, hs, doc), JoinNotes(ns[1..], hs, doc));
      assert ns == [m] + ns[1..];
    }
  }

  /** With highlight ids unique, each note whose highlight is on the document
      comes back as often as it is stored, and no other note comes back. */
  lemma FetchMarginNotesCount(ns: seq<MarginNote>, hs: seq<Highlight>, doc: string)
    requires UniqueBy(hs, HighlightKey)
    ensures forall n ::
      multiset(FetchMarginNotes(ns, hs, doc))[n] == (if OnDocument(hs, doc, n) then multiset(ns)[n] else 0)
  {
    var joined := JoinNotes(ns, hs, doc);
    NotesOfSortBy(joined, ByPosition);
    forall n ensures multiset(FetchMarginNotes(ns, hs, doc))[n] == if OnDocument(hs, doc, n) then multiset(ns)[n] else 0 {
      JoinNotesCount(ns, hs, doc, n);
    }
  }

  /** The notes come ordered by where their highlight starts. */
  lemma FetchMarginNotesOrdered(ns: seq<MarginNote>, hs: seq<Highlight>, doc: string)
    requires UniqueBy(hs, HighlightKey)
    ensures var r := FetchMarginNotes(ns, hs, doc);
      && (forall i :: 0 <= i < |r| ==> FromPosOf(hs, r[i].highlightId).Some?)
      && (forall i, j :: 0 <= i < j < |r| ==> FromPosOf(hs, r[i].highlightId).value <= FromPosOf(hs, r[j].highlightId).value)
  {
    var joined := JoinNotes(ns, hs, doc);
    var rows := SortBy(joined, ByPosition);
    SortBySorted(joined, ByPosition);
    forall i | 0 <= i < |rows| ensures FromPosOf(hs, rows[i].note.highlightId) == Some(rows[i].fromPos) {
      SortedRowsFromJoin(ns, hs, doc, rows[i]);
      var h :| h in hs && h.id == rows[i].note.highlightId && h.documentId == doc && h.fromPos == rows[i].fromPos;
      var k :| 0 <= k < |hs| && hs[k] == h;
      var idx := IndexOf(hs, HighlightKey, h.id);
      UniqueIndex(hs, HighlightKey, idx.value, k);
    }
  }

  // ---------------------------------------------------------------------
  // The statements on the database

  /** `touch_document`: `UPDATE documents SET last_opened_at = ? WHERE id = ?`. */
  method TouchDocument(db: Database, doc: string, now: int)
    requires db.Valid()
    modifies db`documents
    ensures db.Valid()
    ensures db.documents == if doc in old(db.documents) then old(db.documents)[doc := old(db.documents)[doc].(lastOpenedAt := now)] else old(db.documents)
  {
    if doc in db.documents {
      db.documents := db.documents[doc := db.documents[doc].(lastOpenedAt := now)];
    }
  }

  /** `document_id_for_highlight`: an error when no highlight has the id. */
  method DocumentIdForHighlight(db: Database, hid: string) returns (r: Result<string>)
    ensures r.Ok? <==> HasKey(db.highlights, HighlightKey, hid)
    ensures r.Ok? ==> exists h :: h in db.highlights && h.id == hid && h.documentId == r.value
  {
    var i := IndexOf(db.highlights, HighlightKey, hid);
    if i.None? {
      return Err("Query returned no rows");
    }
    return Ok(db.highlights[i.value].documentId);
  }

  /** `document_id_for_margin_note`: the document of the note's highlight, or
      an error when the join finds no row. */
  method DocumentIdForMarginNote(db: Database, nid: string) returns (r: Result<string>)
    requires db.Valid()
    ensures r.Ok? <==> HasKey(db.marginNotes, NoteKey, nid)
    ensures r.Ok? ==> exists n, h :: n in db.marginNotes && h in db.highlights && n.id == nid && h.id == n.highlightId && h.documentId == r.value
  {
    var i := IndexOf(db.marginNotes, NoteKey, nid);
    if i.None? {
      return Err("Query returned no rows");
    }
    var n := db.marginNotes[i.value];
    var j := IndexOf(db.highlights, HighlightKey, n.highlightId);
    if j.None? {
      assert false;
      return Err("Query returned no rows");
    }
    r := Ok(db.highlights[j.value].documentId);
    assert n in db.marginNotes && db.highlights[j.value] in db.highlights;
  }

  /** `insert_highlight`: fails on a duplicate id or an unknown document. */
  method InsertHighlight(db: Database, h: Highlight) returns (r: Result<Unit>)
    requires db.Valid()
    modifies db`highlights
    ensures db.Valid()
    ensures r.Ok? <==> !HasKey(old(db.highlights), HighlightKey, h.id) && h.documentId in db.documents
    ensures db.highlights == if r.Ok? then old(db.highlights) + [h] else old(db.highlights)
  {
    if HasKey(db.highlights, HighlightKey, h.id) {
      return Err("UNIQUE constraint failed: highlights.id");
    }
    if h.documentId !in db.documents {
      return Err("FOREIGN KEY constraint failed");
    }
    var before := db.highlights;
    db.highlights := db.highlights + [h];
    forall k | HasKey(before, HighlightKey, k) ensures HasKey(db.highlights, HighlightKey, k) {
      var i :| 0 <= i < |before| && HighlightKey(before[i]) == k;
      assert db.highlights[i] == before[i];
    }
    return Ok(Unit);
  }

  /** `set_highlight_color`: succeeds whether or not a row matches. */
  method SetHighlightColor(db: Database, id: string, color: string, now: int)
    requires db.Valid()
    modifies db`highlights
    ensures db.Valid()
    ensures db.highlights == SetColor(old(db.highlights), id, color, now)
  {
    var before := db.highlights;
    db.highlights := SetColor(db.highlights, id, color, now);
    forall k | HasKey(before, HighlightKey, k) ensures HasKey(db.highlights, HighlightKey, k) {
      var i :| 0 <= i < |before| && HighlightKey(before[i]) == k;
      assert HighlightKey(db.highlights[i]) == k;
    }
  }

  /** `remove_highlight`: the highlight and, by cascade, its notes. */
  method RemoveHighlight(db: Database, id: string)
    requires db.Valid()
    modifies db`highlights, db`marginNotes
    ensures db.Valid()
    ensures db.highlights == Without(old(db.highlights), HighlightKey, {id})
    ensures db.marginNotes == Without(old(db.marginNotes), NoteHighlight, {id})
  {
    var hs, ns := db.highlights, db.marginNotes;
    var hs', ns' := Without(hs, HighlightKey, {id}), Without(ns, NoteHighlight, {id});
    WithoutUnique(hs, HighlightKey, {id}, HighlightKey);
    WithoutUnique(ns, NoteHighlight, {id}, NoteKey);
    CascadeKeepsNotesAttached(hs, ns, HighlightKey, {id}, {id});
    CascadeKeepsHighlightDocs(hs, HighlightKey, {id}, db.documents);
    assert Declared(db.documents, hs', ns', db.corrections, db.openTabs, db.correctionsHasWritingType);
    db.highlights, db.marginNotes := hs', ns';
  }

  /** `insert_margin_note`: fails on a duplicate id or an unknown highlight. */
  method InsertMarginNote(db: Database, n: MarginNote) returns (r: Result<Unit>)
    requires db.Valid()
    modifies db`marginNotes
    ensures db.Valid()
    ensures r.Ok? <==> !HasKey(old(db.marginNotes), NoteKey, n.id) && HasKey(db.highlights, HighlightKey, n.highlightId)
    ensures db.marginNotes == if r.Ok? then old(db.marginNotes) + [n] else old(db.marginNotes)
  {
    if HasKey(db.marginNotes, NoteKey, n.id) {
      return Err("UNIQUE constraint failed: margin_notes.id");
    }
    if !HasKey(db.highlights, HighlightKey, n.highlightId) {
      return Err("FOREIGN KEY constraint failed");
    }
    db.marginNotes := db.marginNotes + [n];
    return Ok(Unit);
  }

  /** `set_margin_note_content`: succeeds whether or not a row matches. */
  method SetMarginNoteContent(db: Database, id: string, content: string, now: int)
    requires db.Valid()
    modifies db`marginNotes
    ensures db.Valid()
    ensures db.marginNotes == SetContent(old(db.marginNotes), id, content, now)
  {
    db.marginNotes := SetContent(db.marginNotes, id, content, now);
  }

  /** `remove_margin_note`. */
  method RemoveMarginNote(db: Database, id: string)
    requires db.Valid()
    modifies db`marginNotes
    ensures db.Valid()
    ensures db.marginNotes == Without(old(db.marginNotes), NoteKey, {id})
  {
    WithoutUnique(db.marginNotes, NoteKey, {id}, NoteKey);
    db.marginNotes := Without(db.marginNotes, NoteKey, {id});
  }

  /** `remove_all_highlights_for_document`: deletes the document's
      highlights and, by cascade, their notes, and returns how many
      highlights went, which is how many `fetch_highlights` listed. */
  method RemoveAllHighlightsForDocument(db: Database, doc: string) returns (count: nat)
    requires db.Valid()
    modifies db`highlights, db`marginNotes
    ensures db.Valid()
    ensures count == |FetchHighlights(old(db.highlights), doc)|
    ensures db.highlights == Without(old(db.highlights), DocOf, {doc})
    ensures db.marginNotes == Without(old(db.marginNotes), NoteHighlight, HighlightIdsOf(old(db.highlights), doc))
  {
    var hs, ns := db.highlights, db.marginNotes;
    var ids := HighlightIdsOf(hs, doc);
    WithoutUnique(hs, DocOf, {doc}, HighlightKey);
    WithoutUnique(ns, NoteHighlight, ids, NoteKey);
    ClearCount(hs, doc);
    CascadeKeepsNotesAttached(hs, ns, DocOf, {doc}, ids);
    CascadeKeepsHighlightDocs(hs, DocOf, {doc}, db.documents);
    db.highlights := Without(hs, DocOf, {doc});
    db.marginNotes := Without(ns, NoteHighlight, ids);
    count := |hs| - |db.highlights|;
  }

  /** Every note the cascade leaves still points at a highlight that is
      left, when the deleted notes are those of every deleted highlight:
      the foreign key holds after the delete. */
  lemma CascadeKeepsNotesAttached(hs: seq<Highlight>, ns: seq<MarginNote>, key: Highlight -> string,
                                  gone: set<string>, ids: set<string>)
    requires forall i :: 0 <= i < |ns| ==> HasKey(hs, HighlightKey, ns[i].highlightId)
    requires forall h :: h in hs && key(h) in gone ==> h.id in ids
    ensures forall i :: 0 <= i < |Without(ns, NoteHighlight, ids)| ==>
      HasKey(Without(hs, key, gone), HighlightKey, Without(ns, NoteHighlight, ids)[i].highlightId)
  {
    var hs', ns' := Without(hs, key, gone), Without(ns, NoteHighlight, ids);
    forall i | 0 <= i < |ns'| ensures HasKey(hs', HighlightKey, ns'[i].highlightId) {
      var n := ns'[i];
      assert n in ns && n.highlightId !in ids;
      var j :| 0 <= j < |ns| && ns[j] == n;
      var k :| 0 <= k < |hs| && HighlightKey(hs[k]) == n.highlightId;
      assert hs[k] in hs;
      assert hs[k] in hs';
      KeyOfMember(hs', HighlightKey, hs[k]);
    }
  }

  /** Every highlight a delete leaves still belongs to a stored document. */
  lemma CascadeKeepsHighlightDocs(hs: seq<Highlight>, key: Highlight -> string, gone: set<string>,
                                  documents: map<string, Document>)
    requires forall i :: 0 <= i < |hs| ==> hs[i].documentId in documents
    ensures forall i :: 0 <= i < |Without(hs, key, gone)| ==> Without(hs, key, gone)[i].documentId in documents
  {
    var hs' := Without(hs, key, gone);
    forall i | 0 <= i < |hs'| ensures hs'[i].documentId in documents {
      assert hs'[i] in hs;
      var k :| 0 <= k < |hs| && hs[k] == hs'[i];
    }
  }

  /** The delete removes exactly the highlights `fetch_highlights` lists. */
  lemma ClearCount(hs: seq<Highlight>, doc: string)
    ensures |hs| - |Without(hs, DocOf, {doc})| == |FetchHighlights(hs, doc)|
  {
    WithoutCount(hs, DocOf, {doc});
    FetchHighlightsSpec(hs, doc);
  }

  // ---------------------------------------------------------------------
  // What the deletes leave

  /** After clearing a document it has no highlights left. */
  lemma ClearedHasNoHighlights(hs: seq<Highlight>, doc: string)
    ensures FetchHighlights(Without(hs, DocOf, {doc}), doc) == []
  {
    var r := FetchHighlights(Without(hs, DocOf, {doc}), doc);
    FetchHighlightsSpec(Without(hs, DocOf, {doc}), doc);
  }

  /** After clearing a document it has no notes left. */
  lemma ClearedHasNoNotes(hs: seq<Highlight>, ns: seq<MarginNote>, doc: string)
    ensures FetchMarginNotes(Without(ns, NoteHighlight, HighlightIdsOf(hs, doc)), Without(hs, DocOf, {doc}), doc) == []
  {
    var m := FetchMarginNotes(Without(ns, NoteHighlight, HighlightIdsOf(hs, doc)), Without(hs, DocOf, {doc}), doc);
    if m != [] {
      FetchedNoteIsAttached(Without(ns, NoteHighlight, HighlightIdsOf(hs, doc)), Without(hs, DocOf, {doc}), doc, m[0]);
    }
  }

  /** Another document's highlights are as they were. */
  lemma ClearKeepsOtherHighlights(hs: seq<Highlight>, doc: string, other: string)
    requires other != doc
    ensures FetchHighlights(Without(hs, DocOf, {doc}), other) == FetchHighlights(hs, other)
  {
    assert Only(Without(hs, DocOf, {doc}), DocOf, {other}) == Only(hs, DocOf, {other}) by {
      OnlyWithout(hs, doc, other);
    }
  }

  lemma {:induction false} OnlyWithout(hs: seq<Highlight>, doc: string, other: string)
    requires other != doc
    ensures Only(Without(hs, DocOf, {doc}), DocOf, {other}) == Only(hs, DocOf, {other})
  {
    if hs != [] {
      OnlyWithout(hs[1..], doc, other);
    }
  }

  /** Another document's notes are all still there. */
  lemma ClearKeepsOtherNotes(hs: seq<Highlight>, ns: seq<MarginNote>, doc: string, other: string)
    requires UniqueBy(hs, HighlightKey) && other != doc
    ensures var after := FetchMarginNotes(Without(ns, NoteHighlight, HighlightIdsOf(hs, doc)), Without(hs, DocOf, {doc}), other);
      forall n :: n in after <==> n in FetchMarginNotes(ns, hs, other)
  {
    var ids := HighlightIdsOf(hs, doc);
    var hs', ns' := Without(hs, DocOf, {doc}), Without(ns, NoteHighlight, ids);
    FetchMarginNotesMembers(ns', hs', other);
    FetchMarginNotesMembers(ns, hs, other);
    forall n, h | n in ns && h in hs && h.id == n.highlightId && h.documentId == other
      ensures n in ns' && h in hs'
    {
      forall g | g in hs && g.documentId == doc ensures g.id != h.id {
        DistinctRowsDistinctKeys(hs, HighlightKey, g, h);
      }
    }
  }

  // ---------------------------------------------------------------------
  // Command handlers

  /** `create_highlight`: insert with a fresh id and the clock's `now`, then
      set the document's `last_opened_at` from a second reading `touchNow`. */
  method CreateHighlight(db: Database, id: string, documentId: string, color: string, textContent: string,
                         fromPos: int, toPos: int, prefixContext: Option<string>, suffixContext: Option<string>,
                         now: int, touchNow: int)
    returns (r: Result<Highlight>)
    requires db.Valid()
    modifies db`highlights, db`documents
    ensures db.Valid()
    ensures r.Ok? <==> !HasKey(old(db.highlights), HighlightKey, id) && documentId in old(db.documents)
    ensures r.Ok? ==>
      && r.value == Highlight(id, documentId, color, textContent, fromPos, toPos, prefixContext, suffixContext, now, now)
      && db.highlights == old(db.highlights) + [r.value]
      && db.documents == old(db.documents)[documentId := old(db.documents)[documentId].(lastOpenedAt := touchNow)]
    ensures r.Err? ==> db.highlights == old(db.highlights) && db.documents == old(db.documents)
  {
    var h := Highlight(id, documentId, color, textContent, fromPos, toPos, prefixContext, suffixContext, now, now);
    var ins := InsertHighlight(db, h);
    if ins.Err? {
      return Err(ins.error);
    }
    TouchDocument(db, documentId, touchNow);
    return Ok(h);
  }

  /** `update_highlight_color`: the update, then the document lookup, which
      fails for an unknown id after the update has matched nothing. */
  method UpdateHighlightColor(db: Database, id: string, color: string, now: int, touchNow: int) returns (r: Result<Unit>)
    requires db.Valid()
    modifies db`highlights, db`documents
    ensures db.Valid()
    ensures r.Ok? <==> HasKey(old(db.highlights), HighlightKey, id)
    ensures db.highlights == SetColor(old(db.highlights), id, color, now)
    ensures r.Err? ==> db.highlights == old(db.highlights) && db.documents == old(db.documents)
    ensures r.Ok? ==> exists h :: (h in old(db.highlights) && h.id == id
      && db.documents == old(db.documents)[h.documentId := old(db.documents)[h.documentId].(lastOpenedAt := touchNow)])
  {
    SetHighlightColor(db, id, color, now);
    var doc := DocumentIdForHighlight(db, id);
    if doc.Err? {
      SetColorNoMatch(old(db.highlights), id, color, now);
      return Err(doc.error);
    }
    ghost var h := RecoloredFrom(old(db.highlights), id, color, now, doc.value);
    TouchDocument(db, doc.value, touchNow);
    return Ok(Unit);
  }

  /** The row a recoloured highlight came from: same id, same document. */
  lemma RecoloredFrom(hs: seq<Highlight>, id: string, color: string, now: int, docId: string) returns (h: Highlight)
    requires exists g :: g in SetColor(hs, id, color, now) && g.id == id && g.documentId == docId
    ensures h in hs && h.id == id && h.documentId == docId
    ensures HasKey(hs, HighlightKey, id)
  {
    var r := SetColor(hs, id, color, now);
    var g :| g in r && g.id == id && g.documentId == docId;
    var i :| 0 <= i < |r| && r[i] == g;
    h := hs[i];
    assert HighlightKey(hs[i]) == id;
  }

  /** `delete_highlight`: the document is looked up first, so an unknown id
      fails with nothing deleted. */
  method DeleteHighlight(db: Database, id: string, touchNow: int) returns (r: Result<Unit>)
    requires db.Valid()
    modifies db`highlights, db`marginNotes, db`documents
    ensures db.Valid()
    ensures r.Ok? <==> HasKey(old(db.highlights), HighlightKey, id)
    ensures r.Err? ==> db.highlights == old(db.highlights) && db.marginNotes == old(db.marginNotes) && db.documents == old(db.documents)
    ensures r.Ok? ==>
      && db.highlights == Without(old(db.highlights), HighlightKey, {id})
      && db.marginNotes == Without(old(db.marginNotes), NoteHighlight, {id})
      && exists h :: (h in old(db.highlights) && h.id == id
        && db.documents == old(db.documents)[h.documentId := old(db.documents)[h.documentId].(lastOpenedAt := touchNow)])
  {
    var doc := DocumentIdForHighlight(db, id);
    if doc.Err? {
      return Err(doc.error);
    }
    RemoveHighlight(db, id);
    TouchDocument(db, doc.value, touchNow);
    return Ok(Unit);
  }

  /** `create_margin_note`: insert, then look up the highlight's document and
      touch it. */
  method CreateMarginNote(db: Database, id: string, highlightId: string, content: string, now: int, touchNow: int)
    returns (r: Result<MarginNote>)
    requires db.Valid()
    modifies db`marginNotes, db`documents
    ensures db.Valid()
    ensures r.Ok? <==> !HasKey(old(db.marginNotes), NoteKey, id) && HasKey(db.highlights, HighlightKey, highlightId)
    ensures r.Ok? ==>
      && r.value == MarginNote(id, highlightId, content, now, now)
      && db.marginNotes == old(db.marginNotes) + [r.value]
      && exists h :: (h in db.highlights && h.id == highlightId
        && db.documents == old(db.documents)[h.documentId := old(db.documents)[h.documentId].(lastOpenedAt := touchNow)])
    ensures r.Err? ==> db.marginNotes == old(db.marginNotes) && db.documents == old(db.documents)
  {
    var n := MarginNote(id, highlightId, content, now, now);
    var ins := InsertMarginNote(db, n);
    if ins.Err? {
      return Err(ins.error);
    }
    var doc := DocumentIdForHighlight(db, highlightId);
    if doc.Err? {
      assert false;
      return Err("Query returned no rows");
    }
    TouchDocument(db, doc.value, touchNow);
    return Ok(n);
  }

  /** `update_margin_note`: the document is looked up first, so an unknown id
      fails with nothing changed. */
  method UpdateMarginNote(db: Database, id: string, content: string, now: int, touchNow: int) returns (r: Result<Unit>)
    requires db.Valid()
    modifies db`marginNotes, db`documents
    ensures db.Valid()
    ensures r.Ok? <==> HasKey(old(db.marginNotes), NoteKey, id)
    ensures r.Err? ==> db.marginNotes == old(db.marginNotes) && db.documents == old(db.documents)
    ensures r.Ok? ==> db.marginNotes == SetContent(old(db.marginNotes), id, content, now)
    ensures r.Ok? ==> exists n, h :: (n in old(db.marginNotes) && h in old(db.highlights) && n.id == id && h.id == n.highlightId
      && db.documents == old(db.documents)[h.documentId := old(db.documents)[h.documentId].(lastOpenedAt := touchNow)])
  {
    var doc := DocumentIdForMarginNote(db, id);
    if doc.Err? {
      return Err(doc.error);
    }
    ghost var n, h :| n in db.marginNotes && h in db.highlights && n.id == id && h.id == n.highlightId
                      && h.documentId == doc.value;
    SetMarginNoteContent(db, id, content, now);
    TouchDocument(db, doc.value, touchNow);
    return Ok(Unit);
  }

  /** `delete_margin_note`: the document is looked up first, so an unknown id
      fails with nothing deleted. */
  method DeleteMarginNote(db: Database, id: string, touchNow: int) returns (r: Result<Unit>)
    requires db.Valid()
    modifies db`marginNotes, db`documents
    ensures db.Valid()
    ensures r.Ok? <==> HasKey(old(db.marginNotes), NoteKey, id)
    ensures r.Err? ==> db.marginNotes == old(db.marginNotes) && db.documents == old(db.documents)
    ensures r.Ok? ==> db.marginNotes == Without(old(db.marginNotes), NoteKey, {id})
    ensures r.Ok? ==> exists n, h :: (n in old(db.marginNotes) && h in old(db.highlights) && n.id == id && h.id == n.highlightId
      && db.documents == old(db.documents)[h.documentId := old(db.documents)[h.documentId].(lastOpenedAt := touchNow)])
  {
    var doc := DocumentIdForMarginNote(db, id);
    if doc.Err? {
      return Err(doc.error);
    }
    ghost var n, h :| n in db.marginNotes && h in db.highlights && n.id == id && h.id == n.highlightId
                      && h.documentId == doc.value;
    RemoveMarginNote(db, id);
    TouchDocument(db, doc.value, touchNow);
    return Ok(Unit);
  }
}
