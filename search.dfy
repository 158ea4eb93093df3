/** The full-text search commands: the query sanitiser that turns free text
    into a safe FTS5 expression, the `documents_fts` bookkeeping (index,
    remove, access count) and the bulk re-index loop. */
module Search {
  import opened Wrappers
  import opened Text
  import opened Sorting
  import opened Schema

  // ---------------------------------------------------------------------
  // sanitize_fts_query

  /** The characters the sanitiser deletes before splitting into words. */
  predicate IsFtsSpecial(c: char) {
    c == '"' || c == '\'' || c == '(' || c == ')' || c == '{' || c == '}' || c == ':' || c == '^'
  }

  /** The chain of `replace(…, "")` calls. */
  function StripSpecial(s: string): (r: string)
    ensures |r| <= |s|
    ensures forall i :: 0 <= i < |r| ==> !IsFtsSpecial(r[i])
  {
    if s == [] then []
    else if IsFtsSpecial(s[0]) then StripSpecial(s[1..])
    else [s[0]] + StripSpecial(s[1..])
  }

  /** A word that is an FTS5 operator in any letter case. */
  predicate IsOperatorWord(w: string) {
    var u := UpperAscii(w);
    u == "AND" || u == "OR" || u == "NOT" || u == "NEAR"
  }

  predicate HasAlphanumeric(w: string) {
    exists i :: 0 <= i < |w| && IsAsciiAlphanumeric(w[i])
  }

  /** The characters a term may keep. */
  predicate IsTermChar(c: char) {
    IsAsciiAlphanumeric(c) || c == '-' || c == '_'
  }

  function KeepTermChars(w: string): (r: string)
    ensures |r| <= |w|
    ensures forall i :: 0 <= i < |r| ==> IsTermChar(r[i])
  {
    if w == [] then []
    else if IsTermChar(w[0]) then [w[0]] + KeepTermChars(w[1..])
    else KeepTermChars(w[1..])
  }

  /** A prefix phrase `"t"*` whose `t` is non-empty and made of term characters. */
  predicate IsPrefixTerm(t: string) {
    && |t| >= 4
    && t[0] == '"' && t[|t| - 2] == '"' && t[|t| - 1] == '*'
    && forall i :: 1 <= i < |t| - 2 ==> IsTermChar(t[i])
  }

  /** The `map` step: a word becomes a prefix phrase, or "" when nothing is left. */
  function PrefixPhrase(w: string): (r: string)
    ensures r == [] || IsPrefixTerm(r)
  {
    var t := KeepTermChars(w);
    if t == [] then "" else "\"" + t + "\"*"
  }

  /** The filter, map and filter steps over the words, in input order. */
  function Terms(words: seq<string>): (r: seq<string>)
    ensures |r| <= |words|
    ensures forall k :: 0 <= k < |r| ==> IsPrefixTerm(r[k])
  {
    if words == [] then []
    else
      var w := words[0];
      var rest := Terms(words[1..]);
      if IsOperatorWord(w) || !HasAlphanumeric(w) then rest
      else
        var p := PrefixPhrase(w);
        if p == [] then rest else [p] + rest
  }

  /** The terms the sanitiser emits for `query`. */
  function QueryTerms(query: string): seq<string> {
    var trimmed := Trim(query);
    if trimmed == [] then [] else Terms(SplitWhitespace(StripSpecial(trimmed)))
  }

  /** `sanitize_fts_query`. */
  function SanitizeFtsQuery(query: string): (r: string)
    ensures IsBlank(query) ==> r == ""
    ensures r != "" ==> r[0] == '"' && r[|r| - 1] == '*'
  {
    var trimmed := Trim(query);
    TrimEmptyIffBlank(query);
    if trimmed == [] then ""
    else
      var ts := Terms(SplitWhitespace(StripSpecial(trimmed)));
      if ts == [] then Join(ts, " ") else JoinEnds(ts, " "); Join(ts, " ")
  }

  /** Empty or whitespace-only input gives the empty expression. */
  lemma SanitizeBlank(query: string)
    requires IsBlank(query)
    ensures SanitizeFtsQuery(query) == ""
  {
    TrimEmptyIffBlank(query);
  }

  lemma PrefixTermIsWord(t: string)
    requires IsPrefixTerm(t)
    ensures IsWord(t)
  {
    forall i | 0 <= i < |t| ensures !IsWhitespace(t[i]) {
      if 1 <= i < |t| - 2 {
        assert IsTermChar(t[i]);
      }
    }
  }

  /** The output is the terms joined by single spaces, so splitting it on
      whitespace gives back exactly the terms, each a prefix phrase. */
  lemma SanitizeSplitsIntoTerms(query: string)
    ensures SplitWhitespace(SanitizeFtsQuery(query)) == QueryTerms(query)
    ensures forall k :: 0 <= k < |QueryTerms(query)| ==> IsPrefixTerm(QueryTerms(query)[k])
  {
    var ts := QueryTerms(query);
    forall k | 0 <= k < |ts| ensures IsWord(ts[k]) {
      PrefixTermIsWord(ts[k]);
    }
    SplitJoin(ts);
  }

  predicate IsQueryChar(c: char) {
    IsTermChar(c) || c == '"' || c == '*' || c == ' '
  }

  /** No character outside term characters, quotes, `*` and the separating
      space reaches FTS5; in particular none of ' ( ) { } : ^. */
  lemma SanitizeChars(query: string)
    ensures forall i :: 0 <= i < |SanitizeFtsQuery(query)| ==> IsQueryChar(SanitizeFtsQuery(query)[i])
    ensures forall i :: 0 <= i < |SanitizeFtsQuery(query)| ==> SanitizeFtsQuery(query)[i] !in "'(){}:^"
  {
    var s := SanitizeFtsQuery(query);
    var ts := QueryTerms(query);
    forall i | 0 <= i < |s| ensures IsQueryChar(s[i]) {
      if Trim(query) != [] {
        JoinChars(ts, " ", i);
        if s[i] !in " " {
          var k, j :| 0 <= k < |ts| && 0 <= j < |ts[k]| && s[i] == ts[k][j];
          assert IsPrefixTerm(ts[k]);
          if 1 <= j < |ts[k]| - 2 {
            assert IsTermChar(ts[k][j]);
          }
        }
      }
    }
  }

  lemma {:induction false} TermsAppend(a: seq<string>, b: seq<string>)
    ensures Terms(a + b) == Terms(a) + Terms(b)
  {
    if a == [] {
      assert a + b == b;
    } else {
      var w, rest := a[0], a[1..];
      TermsAppend(rest, b);
      DropAppend(a, b);
      TermsFirst(a);
      TermsFirst(a + b);
      Assoc(HeadTerms(w), Terms(rest), Terms(b));
    }
  }

  /** What the first word contributes: its prefix phrase, or nothing. */
  function HeadTerms(w: string): seq<string> {
    if IsOperatorWord(w) || !HasAlphanumeric(w) || PrefixPhrase(w) == [] then [] else [PrefixPhrase(w)]
  }

  lemma TermsFirst(ws: seq<string>)
    requires ws != []
    ensures Terms(ws) == HeadTerms(ws[0]) + Terms(ws[1..])
  {
    if HeadTerms(ws[0]) == [] {
      assert HeadTerms(ws[0]) + Terms(ws[1..]) == Terms(ws[1..]);
    }
  }

  lemma DropAppend(a: seq<string>, b: seq<string>)
    requires a != []
    ensures (a + b)[0] == a[0] && (a + b)[1..] == a[1..] + b
  {
  }

  /** An operator word contributes nothing, wherever it stands. */
  lemma OperatorWordDropped(before: seq<string>, w: string, after: seq<string>)
    requires IsOperatorWord(w)
    ensures Terms(before + [w] + after) == Terms(before) + Terms(after)
  {
    TermsAppend(before + [w], after);
    TermsAppend(before, [w]);
  }

  lemma {:induction false} StripSpecialWordStarts(s: string, p: bool)
    ensures WordStarts(StripSpecial(s), p) <= WordStarts(s, p)
  {
    if s != [] {
      if IsFtsSpecial(s[0]) {
        StripSpecialWordStarts(s[1..], p);
        WordStartsAfterSpace(s[1..]);
      } else {
        StripSpecialWordStarts(s[1..], IsWhitespace(s[0]));
        assert ([s[0]] + StripSpecial(s[1..]))[1..] == StripSpecial(s[1..]);
      }
    }
  }

  /** There are never more terms than whitespace-separated words in the input. */
  lemma TermCountBound(query: string)
    ensures |QueryTerms(query)| <= |SplitWhitespace(query)|
  {
    var t := Trim(query);
    if t != [] {
      var c := StripSpecial(t);
      SplitCountsWordStarts(c);
      SplitCountsWordStarts(t);
      StripSpecialWordStarts(t, true);
      TrimKeepsWordCount(query);
    }
  }

  lemma KeepsWholeTerm(w: string)
    requires forall i :: 0 <= i < |w| ==> IsTermChar(w[i])
    ensures KeepTermChars(w) == w
  {
    if w != [] {
      KeepsWholeTerm(w[1..]);
    }
  }

  lemma NoSpecialUnchanged(s: string)
    requires forall i :: 0 <= i < |s| ==> !IsFtsSpecial(s[i])
    ensures StripSpecial(s) == s
  {
    if s != [] {
      NoSpecialUnchanged(s[1..]);
    }
  }

  /** A plain word is emitted as its own prefix phrase. */
  lemma PlainWordTerm(w: string)
    requires w != [] && IsAsciiAlphanumeric(w[0])
    requires forall i :: 0 <= i < |w| ==> IsAsciiAlphanumeric(w[i])
    requires !IsOperatorWord(w)
    ensures Terms([w]) == ["\"" + w + "\"*"]
  {
    KeepsWholeTerm(w);
    assert HasAlphanumeric(w);
  }

  lemma PlainHello()
    ensures Trim("hello") == "hello" && StripSpecial("hello") == "hello"
  {
    var s := "hello";
    assert s[0] == 'h' && s[|s| - 1] == 'o';
    TrimUntouched(s);
    NoSpecialUnchanged(s);
  }

  /** A word of five or more lower-case letters is longer than every
      operator word, so it is emitted as its own prefix phrase. */
  lemma LowercaseWordTerm(w: string)
    requires |w| >= 5 && AllLower(w)
    ensures Terms([w]) == ["\"" + w + "\"*"]
  {
    AllLowerAlphanumeric(w);
    assert |UpperAscii(w)| == |w|;
    PlainWordTerm(w);
  }

  predicate AllLower(w: string) {
    w == [] || ('a' <= w[0] <= 'z' && AllLower(w[1..]))
  }

  lemma {:induction false} AllLowerAlphanumeric(w: string)
    requires AllLower(w)
    ensures forall i :: 0 <= i < |w| ==> IsAsciiAlphanumeric(w[i])
  {
    if w != [] {
      AllLowerAlphanumeric(w[1..]);
      assert forall i :: 1 <= i < |w| ==> w[i] == w[1..][i - 1];
    }
  }

  /** The terms of the words the unit tests use. */
  lemma TestWordTerms()
    ensures Terms(["hello"]) == ["\"hello\"*"] && Terms(["world"]) == ["\"world\"*"]
  {
    LowercaseWordTerm("hello");
    LowercaseWordTerm("world");
    assert "\"" + "hello" + "\"*" == "\"hello\"*" && "\"" + "world" + "\"*" == "\"world\"*";
  }

  /** The outputs the unit tests pin down. */
  lemma SanitizeOneWord()
    ensures SanitizeFtsQuery("hello") == "\"hello\"*"
  {
    PlainHello();
    assert IsWord("hello");
    WordSplitsToItself("hello");
    SanitizeUnfold("hello", ["hello"]);
    TestWordTerms();
  }

  /** Unfolds the pipeline for a query that needs no trimming or stripping. */
  lemma SanitizeUnfold(query: string, words: seq<string>)
    requires query != [] && Trim(query) == query && StripSpecial(query) == query
    requires SplitWhitespace(query) == words
    ensures SanitizeFtsQuery(query) == Join(Terms(words), " ")
  {
  }

  lemma PlainHelloWorld()
    ensures Trim("hello world") == "hello world" && StripSpecial("hello world") == "hello world"
  {
    var s := "hello world";
    assert s[0] == 'h' && s[|s| - 1] == 'd';
    TrimUntouched(s);
    NoSpecialUnchanged(s);
  }

  lemma PlainHelloOr()
    ensures Trim("hello OR") == "hello OR" && StripSpecial("hello OR") == "hello OR"
  {
    var s := "hello OR";
    assert s[0] == 'h' && s[|s| - 1] == 'R';
    TrimUntouched(s);
    NoSpecialUnchanged(s);
  }

  lemma SplitHelloWorld()
    ensures SplitWhitespace("hello world") == ["hello", "world"]
  {
    assert IsWord("hello") && IsWord("world");
    assert Join(["hello", "world"], " ") == "hello world";
    SplitJoin(["hello", "world"]);
  }

  lemma TermsHelloWorld()
    ensures Terms(["hello", "world"]) == ["\"hello\"*", "\"world\"*"]
  {
    TestWordTerms();
    TermsAppend(["hello"], ["world"]);
    assert ["hello", "world"] == ["hello"] + ["world"];
  }

  lemma SanitizeTwoWords()
    ensures SanitizeFtsQuery("hello world") == "\"hello\"* \"world\"*"
  {
    PlainHelloWorld();
    SplitHelloWorld();
    SanitizeUnfold("hello world", ["hello", "world"]);
    TermsHelloWorld();
    JoinHelloWorld();
  }

  lemma JoinHelloWorld()
    ensures Join(["\"hello\"*", "\"world\"*"], " ") == "\"hello\"* \"world\"*"
  {
  }

  lemma SplitHelloOr()
    ensures SplitWhitespace("hello OR") == ["hello", "OR"]
  {
    assert IsWord("hello") && IsWord("OR");
    assert Join(["hello", "OR"], " ") == "hello OR";
    SplitJoin(["hello", "OR"]);
  }

  lemma TermsHelloOr()
    ensures Terms(["hello", "OR"]) == ["\"hello\"*"]
  {
    assert UpperAscii("hello") == "HELLO";
    assert UpperAscii("OR") == "OR";
    PlainWordTerm("hello");
    OperatorWordDropped(["hello"], "OR", []);
    assert ["hello"] + ["OR"] + [] == ["hello", "OR"];
    assert Terms([]) == [];
    assert "\"" + "hello" + "\"*" == "\"hello\"*";
  }

  lemma SanitizeDropsOr()
    ensures SanitizeFtsQuery("hello OR") == "\"hello\"*"
  {
    PlainHelloOr();
    SplitHelloOr();
    SanitizeUnfold("hello OR", ["hello", "OR"]);
    TermsHelloOr();
  }

  // ---------------------------------------------------------------------
  // search_documents

  /** One hit of the FTS5 query; the float rank is not modelled. */
  datatype SearchHit = SearchHit(documentId: string, title: string, snippet: string)

  /** Which step of `search_documents_inner` the database rejects, if any:
      creating the FTS table, preparing the query, or running it and
      collecting its rows. */
  datatype SearchFault = SearchOk | SearchTableFails | PrepareFails | QueryFails

  /** `search_documents` with `search_documents_inner`. `ranked` stands for
      FTS5 matching and the frecency-blended ranking: the hits for an FTS5
      expression, best first. A blank query returns before the connection is
      used; otherwise the FTS table is ensured first, so its failure is an
      error even for a query that sanitises to nothing, which then never
      reaches the index. */
  function SearchDocuments(query: string, limit: Option<int>, ranked: string -> seq<SearchHit>, fault: SearchFault)
    : (r: Result<seq<SearchHit>>)
    ensures IsBlank(query) ==> r == Ok([])
    ensures r.Err? <==>
      && !IsBlank(query)
      && (fault == SearchTableFails || (SanitizeFtsQuery(query) != "" && (fault == PrepareFails || fault == QueryFails)))
    ensures r.Ok? && SanitizeFtsQuery(query) == "" ==> r.value == []
    ensures r.Ok? && SanitizeFtsQuery(query) != "" ==>
      |r.value| <= |ranked(SanitizeFtsQuery(query))| && r.value == ranked(SanitizeFtsQuery(query))[..|r.value|]
    ensures r.Ok? && 0 <= limit.GetOr(20) ==> |r.value| <= limit.GetOr(20)
    ensures var hits := ranked(SanitizeFtsQuery(query)); var n := limit.GetOr(20);
      r.Ok? && SanitizeFtsQuery(query) != "" ==> |r.value| == if 0 <= n < |hits| then n else |hits|
  {
    TrimEmptyIffBlank(query);
    if Trim(query) == [] then Ok([])
    else if fault == SearchTableFails then Err("Failed to create FTS table")
    else
      var expr := SanitizeFtsQuery(query);
      if expr == "" then Ok([])
      else if fault == PrepareFails then Err("Failed to prepare search query")
      else if fault == QueryFails then Err("Search query failed")
      else Ok(Take(ranked(expr), limit.GetOr(20)))
  }

  // ---------------------------------------------------------------------
  // documents_fts bookkeeping

  /** The FTS index with `id`'s entry set to the given title and content. */
  function WithEntry(fts: map<string, FtsEntry>, id: string, title: string, content: string): (r: map<string, FtsEntry>)
    ensures id in r && r[id] == FtsEntry(title, content)
    ensures forall k :: k != id ==> (k in r <==> k in fts)
    ensures forall k :: k != id && k in fts ==> r[k] == fts[k]
  {
    fts[id := FtsEntry(title, content)]
  }

  /** The FTS index without any entry for `id`. */
  function WithoutEntry(fts: map<string, FtsEntry>, id: string): (r: map<string, FtsEntry>)
    ensures id !in r
    ensures forall k :: k != id ==> (k in r <==> k in fts)
    ensures forall k :: k != id && k in fts ==> r[k] == fts[k]
  {
    fts - {id}
  }

  /** Which of `index_document_inner`'s two statements the database rejects, if any. */
  datatype IndexFault = NoFault | DeleteFails | InsertFails

  /** The index after `index_document_inner`: the delete clears the old entry
      and the insert adds the new one; a failing insert leaves none. */
  function AfterIndex(fts: map<string, FtsEntry>, id: string, title: string, content: string, fault: IndexFault): map<string, FtsEntry> {
    match fault
    case NoFault => WithEntry(WithoutEntry(fts, id), id, title, content)
    case DeleteFails => fts
    case InsertFails => WithoutEntry(fts, id)
  }

  /** A successful index leaves exactly the new entry for `id`, whatever was
      there before, and touches no other document's entry. */
  lemma IndexReplaces(fts: map<string, FtsEntry>, id: string, title: string, content: string)
    ensures AfterIndex(fts, id, title, content, NoFault) == WithEntry(fts, id, title, content)
    ensures AfterIndex(WithoutEntry(fts, id), id, title, content, NoFault) == AfterIndex(fts, id, title, content, NoFault)
  {
    var r := AfterIndex(fts, id, title, content, NoFault);
    assert r.Keys == WithEntry(fts, id, title, content).Keys;
    assert AfterIndex(WithoutEntry(fts, id), id, title, content, NoFault).Keys == r.Keys;
  }

  /** Removing right after indexing is the same as removing. */
  lemma RemoveUndoesIndex(fts: map<string, FtsEntry>, id: string, title: string, content: string, fault: IndexFault)
    ensures WithoutEntry(AfterIndex(fts, id, title, content, fault), id) == WithoutEntry(fts, id)
  {
    var a := WithoutEntry(AfterIndex(fts, id, title, content, fault), id);
    assert a.Keys == WithoutEntry(fts, id).Keys;
  }

  /** `index_document_inner`: delete, then insert; each failure returns an error. */
  method IndexDocumentInner(db: Database, documentId: string, title: string, content: string, fault: IndexFault)
    returns (r: Result<Unit>)
    modifies db`fts
    ensures old(db.Valid()) ==> db.Valid()
    ensures r.Ok? <==> fault == NoFault
    ensures db.fts == AfterIndex(old(db.fts), documentId, title, content, fault)
  {
    if fault == DeleteFails {
      return Err("Failed to delete existing FTS entry");
    }
    db.fts := WithoutEntry(db.fts, documentId);
    if fault == InsertFails {
      return Err("Failed to index document");
    }
    db.fts := WithEntry(db.fts, documentId, title, content);
    return Ok(Unit);
  }

  /** Which step of `remove_document_index_inner` the database rejects, if
      any: creating the FTS table or the delete. */
  datatype RemoveFault = RemoveOk | RemoveTableFails | RemoveDeleteFails

  /** `remove_document_index_inner`: ensure the FTS table, then a delete
      that succeeds whether or not the entry exists. Either failure returns
      an error and leaves the index as it was. */
  method RemoveDocumentIndexInner(db: Database, documentId: string, fault: RemoveFault) returns (r: Result<Unit>)
    modifies db`fts
    ensures old(db.Valid()) ==> db.Valid()
    ensures r.Ok? <==> fault == RemoveOk
    ensures r.Ok? ==> db.fts == WithoutEntry(old(db.fts), documentId)
    ensures r.Err? ==> db.fts == old(db.fts)
  {
    if fault == RemoveTableFails {
      return Err("Failed to create FTS table");
    }
    if fault == RemoveDeleteFails {
      return Err("Failed to remove document from index");
    }
    db.fts := WithoutEntry(db.fts, documentId);
    return Ok(Unit);
  }

  /** The documents after `access_count = COALESCE(access_count, 0) + 1 WHERE id = ?`. */
  function Bumped(documents: map<string, Document>, id: string): (r: map<string, Document>)
    ensures r.Keys == documents.Keys
    ensures id in documents ==>
      r[id] == documents[id].(accessCount := Some(documents[id].accessCount.GetOr(0) + 1))
    ensures forall k :: k in documents && k != id ==> r[k] == documents[k]
  {
    if id in documents then
      documents[id := documents[id].(accessCount := Some(documents[id].accessCount.GetOr(0) + 1))]
    else documents
  }

  /** Opening a document twice adds two, starting from 0 when the count was NULL. */
  lemma {:induction false} BumpedTwice(documents: map<string, Document>, id: string)
    requires id in documents
    ensures Bumped(Bumped(documents, id), id)[id].accessCount == Some(documents[id].accessCount.GetOr(0) + 2)
  {
    var once := Bumped(documents, id);
    assert once[id].accessCount.GetOr(0) == documents[id].accessCount.GetOr(0) + 1;
  }

  method IncrementAccessCount(db: Database, documentId: string)
    requires db.Valid()
    modifies db`documents
    ensures db.Valid()
    ensures db.documents == Bumped(old(db.documents), documentId)
  {
    db.documents := Bumped(db.documents, documentId);
  }

  /** `index_document`: index, then bump the access count; a failing bump
      (`bumpFails`) is ignored, a failing index returns before the bump. */
  method IndexDocument(db: Database, documentId: string, title: string, content: string, fault: IndexFault, bumpFails: bool)
    returns (r: Result<Unit>)
    requires db.Valid()
    modifies db`fts, db`documents
    ensures db.Valid()
    ensures r.Ok? <==> fault == NoFault
    ensures db.fts == AfterIndex(old(db.fts), documentId, title, content, fault)
    ensures db.documents == if r.Ok? && !bumpFails then Bumped(old(db.documents), documentId) else old(db.documents)
  {
    r := IndexDocumentInner(db, documentId, title, content, fault);
    if r.Err? {
      return;
    }
    if !bumpFails {
      IncrementAccessCount(db, documentId);
    }
    r := Ok(Unit);
  }

  // ---------------------------------------------------------------------
  // index_all_documents

  /** What the file system says about one path: `mtimeMs` is None when the
      modification time cannot be read, `content` is None when reading fails. */
  datatype FileInfo = FileInfo(mtimeMs: Option<int>, content: Option<string>)

  /** The file system as the loop sees it: a path that is absent here fails `fs::metadata`. */
  type FileSystem = map<string, FileInfo>

  datatype IndexAllResult = IndexAllResult(indexed: nat, skipped: nat, errors: nat)

  /** What the loop does with one listed document. */
  datatype Outcome = Skipped | ReadFailed | IndexFailed(fault: IndexFault) | Indexed(content: string)

  /** The statements that fail for one document: those of
      `index_document_inner`, and the `indexed_at` stamp, whose failure the
      loop ignores. */
  datatype DocFaults = DocFaults(index: IndexFault, stampFails: bool)

  function FaultFor(faults: map<string, DocFaults>, id: string): IndexFault {
    if id in faults then faults[id].index else NoFault
  }

  predicate StampFails(faults: map<string, DocFaults>, id: string) {
    id in faults && faults[id].stampFails
  }

  /** The decision for a listed document (`filePath` is set for every listed row). */
  function Decide(d: Document, fs: FileSystem, fault: IndexFault): (o: Outcome)
    requires d.filePath.Some?
    ensures o == Skipped <==>
      (d.filePath.value !in fs || (d.indexedAt.Some? && fs[d.filePath.value].mtimeMs.GetOr(0) <= d.indexedAt.value))
    ensures d.indexedAt.None? && d.filePath.value in fs ==> o != Skipped
    ensures o.IndexFailed? ==> o.fault != NoFault
  {
    var path := d.filePath.value;
    if path !in fs then Skipped
    else if d.indexedAt.Some? && fs[path].mtimeMs.GetOr(0) <= d.indexedAt.value then Skipped
    else if fs[path].content.None? then ReadFailed
    else if fault != NoFault then IndexFailed(fault)
    else Indexed(fs[path].content.value)
  }

  datatype RunState = RunState(fts: map<string, FtsEntry>, documents: map<string, Document>, counts: IndexAllResult)

  /** `UPDATE documents SET indexed_at = now WHERE id = ?`. */
  function Stamped(documents: map<string, Document>, id: string, nowMs: int): map<string, Document> {
    if id in documents then documents[id := documents[id].(indexedAt := Some(nowMs))] else documents
  }

  function Title(d: Document): string {
    d.title.GetOr("Untitled")
  }

  /** One iteration of the loop. */
  function Step(st: RunState, d: Document, fs: FileSystem, faults: map<string, DocFaults>, nowMs: int): RunState
    requires d.filePath.Some?
  {
    var c := st.counts;
    match Decide(d, fs, FaultFor(faults, d.id))
    case Skipped => st.(counts := c.(skipped := c.skipped + 1))
    case ReadFailed => st.(counts := c.(errors := c.errors + 1))
    case IndexFailed(f) =>
      st.(fts := AfterIndex(st.fts, d.id, Title(d), "", f), counts := c.(errors := c.errors + 1))
    case Indexed(content) =>
      var documents := if StampFails(faults, d.id) then st.documents else Stamped(st.documents, d.id, nowMs);
      RunState(AfterIndex(st.fts, d.id, Title(d), content, NoFault), documents, c.(indexed := c.indexed + 1))
  }

  predicate AllListed(listing: seq<Document>) {
    forall i :: 0 <= i < |listing| ==> listing[i].filePath.Some?
  }

  /** The loop over the listing, as a fold. */
  function Run(listing: seq<Document>, fs: FileSystem, faults: map<string, DocFaults>, nowMs: int, st: RunState): RunState
    requires AllListed(listing)
  {
    if listing == [] then st
    else Step(Run(listing[..|listing| - 1], fs, faults, nowMs, st), listing[|listing| - 1], fs, faults, nowMs)
  }

  /** The run over one more document is one more step. */
  lemma RunLast(listing: seq<Document>, i: nat, fs: FileSystem, faults: map<string, DocFaults>, nowMs: int, st: RunState)
    requires AllListed(listing) && i < |listing|
    ensures AllListed(listing[..i]) && AllListed(listing[..i + 1])
    ensures Run(listing[..i + 1], fs, faults, nowMs, st) == Step(Run(listing[..i], fs, faults, nowMs, st), listing[i], fs, faults, nowMs)
  {
    assert listing[..i + 1][..i] == listing[..i];
  }

  /** The run changes no document's key or id, only the columns it stamps. */
  lemma {:induction false} RunKeepsIds(listing: seq<Document>, fs: FileSystem, faults: map<string, DocFaults>, nowMs: int, st: RunState)
    requires AllListed(listing)
    ensures var r := Run(listing, fs, faults, nowMs, st).documents;
      r.Keys == st.documents.Keys && forall k :: k in r ==> r[k].id == st.documents[k].id
  {
    if listing != [] {
      RunKeepsIds(listing[..|listing| - 1], fs, faults, nowMs, st);
    }
  }

  function Total(c: IndexAllResult): nat {
    c.indexed + c.skipped + c.errors
  }

  /** Every listed document moves exactly one counter. */
  lemma {:induction false} RunCounts(listing: seq<Document>, fs: FileSystem, faults: map<string, DocFaults>, nowMs: int, st: RunState)
    requires AllListed(listing)
    ensures Total(Run(listing, fs, faults, nowMs, st).counts) == Total(st.counts) + |listing|
  {
    if listing != [] {
      RunCounts(listing[..|listing| - 1], fs, faults, nowMs, st);
    }
  }

  function Lookup<V>(m: map<string, V>, k: string): Option<V> {
    if k in m then Some(m[k]) else None
  }

  /** Documents other than `id` leave `id`'s index entry and row alone; so
      does the whole run when `id` has no file path and is never listed. */
  lemma {:induction false} RunOthers(listing: seq<Document>, fs: FileSystem, faults: map<string, DocFaults>, nowMs: int, st: RunState, id: string)
    requires AllListed(listing)
    requires forall i :: 0 <= i < |listing| ==> listing[i].id != id
    ensures Lookup(Run(listing, fs, faults, nowMs, st).fts, id) == Lookup(st.fts, id)
    ensures Lookup(Run(listing, fs, faults, nowMs, st).documents, id) == Lookup(st.documents, id)
    ensures Run(listing, fs, faults, nowMs, st).documents.Keys == st.documents.Keys
  {
    if listing != [] {
      var n := |listing| - 1;
      RunOthers(listing[..n], fs, faults, nowMs, st, id);
      StepOthers(Run(listing[..n], fs, faults, nowMs, st), listing[n], fs, faults, nowMs, id);
    }
  }

  /** One step for another document leaves `id`'s entry and row alone. */
  lemma StepOthers(st: RunState, d: Document, fs: FileSystem, faults: map<string, DocFaults>, nowMs: int, id: string)
    requires d.filePath.Some? && d.id != id
    ensures Lookup(Step(st, d, fs, faults, nowMs).fts, id) == Lookup(st.fts, id)
    ensures Lookup(Step(st, d, fs, faults, nowMs).documents, id) == Lookup(st.documents, id)
    ensures Step(st, d, fs, faults, nowMs).documents.Keys == st.documents.Keys
  {
  }

  lemma {:induction false} RunAppend(a: seq<Document>, b: seq<Document>, fs: FileSystem, faults: map<string, DocFaults>, nowMs: int, st: RunState)
    requires AllListed(a) && AllListed(b)
    ensures AllListed(a + b)
    ensures Run(a + b, fs, faults, nowMs, st) == Run(b, fs, faults, nowMs, Run(a, fs, faults, nowMs, st))
  {
    if b == [] {
      assert a + b == a;
    } else {
      TakeAppend(a, b);
      RunAppend(a, b[..|b| - 1], fs, faults, nowMs, st);
      assert Run(a + b, fs, faults, nowMs, st)
        == Step(Run(a + b[..|b| - 1], fs, faults, nowMs, st), b[|b| - 1], fs, faults, nowMs);
    }
  }

  /** What one run does to a listed document: a skipped, unreadable or
      undeletable one keeps its entry and `indexed_at`; a failed insert loses
      the entry; an indexed one gets the new entry and the run's `now`,
      unless its stamp failed. */
  lemma RunDocument(listing: seq<Document>, fs: FileSystem, faults: map<string, DocFaults>, nowMs: int, st: RunState, j: nat)
    requires AllListed(listing) && j < |listing|
    requires forall i :: 0 <= i < |listing| && i != j ==> listing[i].id != listing[j].id
    ensures var d := listing[j];
      var o := Decide(d, fs, FaultFor(faults, d.id));
      var r := Run(listing, fs, faults, nowMs, st);
      && (o == Skipped || o == ReadFailed || o == IndexFailed(DeleteFails) ==>
            Lookup(r.fts, d.id) == Lookup(st.fts, d.id) && Lookup(r.documents, d.id) == Lookup(st.documents, d.id))
      && (o == IndexFailed(InsertFails) ==>
            d.id !in r.fts && Lookup(r.documents, d.id) == Lookup(st.documents, d.id))
      && (o.Indexed? ==>
            Lookup(r.fts, d.id) == Some(FtsEntry(Title(d), o.content))
            && (d.id in st.documents ==>
                  d.id in r.documents && r.documents[d.id] ==
                  (if StampFails(faults, d.id) then st.documents[d.id] else st.documents[d.id].(indexedAt := Some(nowMs)))))
  {
    var d := listing[j];
    var pre, post := listing[..j], listing[j + 1..];
    assert AllListed(pre) && AllListed(post) && AllListed([d]);
    var s1 := Run(pre, fs, faults, nowMs, st);
    var s2 := Step(s1, d, fs, faults, nowMs);
    assert Run(listing, fs, faults, nowMs, st) == Run(post, fs, faults, nowMs, s2) by {
      assert listing == pre + [d] + post;
      RunAppend(pre + [d], post, fs, faults, nowMs, st);
      RunAppend(pre, [d], fs, faults, nowMs, st);
      assert [d][..0] == [];
    }
    RunOthers(pre, fs, faults, nowMs, st, d.id);
    StepDocument(s1, d, fs, faults, nowMs);
    forall i | 0 <= i < |post| ensures post[i].id != d.id {
      assert post[i] == listing[j + 1 + i];
    }
    RunOthers(post, fs, faults, nowMs, s2, d.id);
  }

  /** What one step does to its own document's entry and row. */
  lemma StepDocument(st: RunState, d: Document, fs: FileSystem, faults: map<string, DocFaults>, nowMs: int)
    requires d.filePath.Some?
    ensures var o := Decide(d, fs, FaultFor(faults, d.id));
      var r := Step(st, d, fs, faults, nowMs);
      && (o == Skipped || o == ReadFailed || o == IndexFailed(DeleteFails) ==>
            Lookup(r.fts, d.id) == Lookup(st.fts, d.id) && Lookup(r.documents, d.id) == Lookup(st.documents, d.id))
      && (o == IndexFailed(InsertFails) ==>
            d.id !in r.fts && Lookup(r.documents, d.id) == Lookup(st.documents, d.id))
      && (o.Indexed? ==>
            Lookup(r.fts, d.id) == Some(FtsEntry(Title(d), o.content))
            && (d.id in st.documents ==>
                  d.id in r.documents && r.documents[d.id] ==
                  (if StampFails(faults, d.id) then st.documents[d.id] else st.documents[d.id].(indexedAt := Some(nowMs)))))
  {
  }

  /** The rows `SELECT id, file_path, title, indexed_at FROM documents WHERE
      file_path IS NOT NULL` returns, each once, in some order. */
  predicate IsListingOf(listing: seq<Document>, documents: map<string, Document>) {
    && AllListed(listing)
    && (forall i :: 0 <= i < |listing| ==> listing[i].id in documents && documents[listing[i].id] == listing[i])
    && (forall k :: k in documents && documents[k].filePath.Some? ==> exists i :: 0 <= i < |listing| && listing[i].id == k)
    && (forall i, j :: 0 <= i < j < |listing| ==> listing[i].id != listing[j].id)
  }

  /** `index_all_documents` (and its test twin `index_all_documents_inner`):
      the listing is read once, then each document is skipped, counted as an
      error, or indexed and stamped with the run's `nowMs`; a failed stamp is
      ignored. `fs` answers metadata and reads, `faults` says which documents'
      statements fail. */
  method IndexAllDocuments(db: Database, listing: seq<Document>, fs: FileSystem, faults: map<string, DocFaults>, nowMs: int)
    returns (result: IndexAllResult)
    requires db.Valid() && IsListingOf(listing, db.documents)
    modifies db`fts, db`documents
    ensures db.Valid()
    ensures RunState(db.fts, db.documents, result)
      == Run(listing, fs, faults, nowMs, RunState(old(db.fts), old(db.documents), IndexAllResult(0, 0, 0)))
    ensures Total(result) == |listing|
  {
    result := IndexListed(db, listing, fs, faults, nowMs);
  }

  /** The run over any listing of documents with a file path. */
  method IndexListed(db: Database, listing: seq<Document>, fs: FileSystem, faults: map<string, DocFaults>, nowMs: int)
    returns (result: IndexAllResult)
    requires db.Valid() && AllListed(listing)
    modifies db`fts, db`documents
    ensures db.Valid()
    ensures RunState(db.fts, db.documents, result)
      == Run(listing, fs, faults, nowMs, RunState(old(db.fts), old(db.documents), IndexAllResult(0, 0, 0)))
    ensures Total(result) == |listing|
  {
    result := IndexListing(db, listing, fs, faults, nowMs);
    RunCounts(listing, fs, faults, nowMs, RunState(old(db.fts), old(db.documents), IndexAllResult(0, 0, 0)));
    StampsKeepValid(db);
  }

  /** Changing columns of existing documents, and no key, id or other
      table, keeps the declared constraints. */
  twostate lemma StampsKeepValid(db: Database)
    requires old(db.Valid())
    requires db.documents.Keys == old(db.documents).Keys
    requires forall k :: k in db.documents ==> db.documents[k].id == old(db.documents)[k].id
    requires unchanged(db`highlights, db`marginNotes, db`corrections, db`openTabs, db`correctionsHasWritingType)
    ensures db.Valid()
  {
    DeclaredRekeyed(old(db.documents), db.documents, db.highlights, db.marginNotes, db.corrections, db.openTabs,
                    db.correctionsHasWritingType);
  }

  /** The loop of `index_all_documents` over the listing it read. */
  method IndexListing(db: Database, listing: seq<Document>, fs: FileSystem, faults: map<string, DocFaults>, nowMs: int)
    returns (result: IndexAllResult)
    requires AllListed(listing)
    modifies db`fts, db`documents
    ensures RunState(db.fts, db.documents, result)
      == Run(listing, fs, faults, nowMs, RunState(old(db.fts), old(db.documents), IndexAllResult(0, 0, 0)))
    ensures db.documents.Keys == old(db.documents).Keys
    ensures forall k :: k in db.documents ==> db.documents[k].id == old(db.documents)[k].id
  {
    ghost var st0 := RunState(db.fts, db.documents, IndexAllResult(0, 0, 0));
    result := IndexAllResult(0, 0, 0);
    var i := 0;
    while i < |listing|
      invariant 0 <= i <= |listing|
      invariant RunState(db.fts, db.documents, result) == Run(listing[..i], fs, faults, nowMs, st0)
    {
      RunLast(listing, i, fs, faults, nowMs, st0);
      result := IndexOne(db, listing[i], fs, faults, nowMs, result);
      i := i + 1;
    }
    assert listing[..|listing|] == listing;
    RunKeepsIds(listing, fs, faults, nowMs, st0);
  }

  /** The body of the loop for one listed document: skip it, count an
      error, or index it, stamp its row unless that `UPDATE` fails (its error
      is discarded), and count it indexed. */
  method IndexOne(db: Database, d: Document, fs: FileSystem, faults: map<string, DocFaults>, nowMs: int, counts: IndexAllResult)
    returns (next: IndexAllResult)
    requires d.filePath.Some?
    modifies db`fts, db`documents
    ensures old(db.Valid()) ==> db.Valid()
    ensures RunState(db.fts, db.documents, next) == Step(RunState(old(db.fts), old(db.documents), counts), d, fs, faults, nowMs)
  {
    var path := d.filePath.value;
    if path !in fs || (d.indexedAt.Some? && fs[path].mtimeMs.GetOr(0) <= d.indexedAt.value) {
      assert Decide(d, fs, FaultFor(faults, d.id)) == Skipped;
      next := counts.(skipped := counts.skipped + 1);
    } else if fs[path].content.None? {
      assert Decide(d, fs, FaultFor(faults, d.id)) == ReadFailed;
      next := counts.(errors := counts.errors + 1);
    } else {
      var content := fs[path].content.value;
      var fault := FaultFor(faults, d.id);
      var r := IndexDocumentInner(db, d.id, Title(d), content, fault);
      if r.Err? {
        assert Decide(d, fs, fault) == IndexFailed(fault);
        next := counts.(errors := counts.errors + 1);
      } else {
        assert Decide(d, fs, fault) == Indexed(content);
        if !StampFails(faults, d.id) {
          db.documents := Stamped(db.documents, d.id, nowMs);
        }
        next := counts.(indexed := counts.indexed + 1);
      }
    }
  }
}
