/** The writing-rules export: the ordered read of the `writing_rules` table,
    the Markdown document grouped by writing type and category, and the two
    lists the generated writing-guard hook checks against. */
module WritingRules {
  import opened Wrappers
  import opened Text
  import opened Sorting
  import opened Grouping
  import opened Schema

  // ---------------------------------------------------------------------
  // fetch_writing_rules

  /** `ORDER BY signal_count DESC, created_at DESC`. */
  predicate BySignalThenNewest(a: WritingRule, b: WritingRule) {
    a.signalCount > b.signalCount || (a.signalCount == b.signalCount && a.createdAt >= b.createdAt)
  }

  /** `ORDER BY writing_type, signal_count DESC, created_at DESC`. */
  predicate ByTypeThenSignal(a: WritingRule, b: WritingRule) {
    (a.writingType != b.writingType && StrLe(a.writingType, b.writingType))
    || (a.writingType == b.writingType && BySignalThenNewest(a, b))
  }

  lemma BySignalThenNewestOrders()
    ensures TotalPreorder(BySignalThenNewest)
  {
  }

  lemma ByTypeThenSignalOrders()
    ensures TotalPreorder(ByTypeThenSignal)
  {
    forall a: WritingRule, b: WritingRule ensures ByTypeThenSignal(a, b) || ByTypeThenSignal(b, a) {
      StrLeTotal(a.writingType, b.writingType);
    }
    forall a: WritingRule, b: WritingRule, c: WritingRule | ByTypeThenSignal(a, b) && ByTypeThenSignal(b, c)
      ensures ByTypeThenSignal(a, c)
    {
      if a.writingType != b.writingType && b.writingType != c.writingType {
        StrLeTransitive(a.writingType, b.writingType, c.writingType);
        if a.writingType == c.writingType {
          StrLeAntisymmetric(a.writingType, b.writingType);
        }
      }
    }
  }

  predicate HasType(wt: string, r: WritingRule) {
    r.writingType == wt
  }

  /** `fetch_writing_rules`: the rules of one writing type, most signals
      first, or every rule grouped by type when no type is given. */
  function FetchWritingRules(rows: seq<WritingRule>, writingType: Option<string>): (r: seq<WritingRule>)
    ensures |r| <= |rows|
    ensures writingType.None? ==> |r| == |rows|
    ensures writingType.Some? ==> forall i :: 0 <= i < |r| ==> r[i].writingType == writingType.value
  {
    match writingType
    case Some(wt) =>
      var f := Filter(rows, w => HasType(wt, w));
      SortByLength(f, BySignalThenNewest);
      SortByMembers(f, BySignalThenNewest);
      assert forall x :: x in f ==> x.writingType == wt;
      SortBy(f, BySignalThenNewest)
    case None =>
      SortByLength(rows, ByTypeThenSignal);
      SortBy(rows, ByTypeThenSignal)
  }

  /** With a type: exactly the rows of that type, each as often as in the
      table, most signals first and, among equals, newest first. Without: every row, ordered by type and
      then the same way. */
  lemma FetchWritingRulesOrder(rows: seq<WritingRule>, writingType: Option<string>)
    ensures var r := FetchWritingRules(rows, writingType);
      && (writingType.Some? ==>
            && SortedBy(r, BySignalThenNewest)
            && (forall x :: x in r <==> x in rows && x.writingType == writingType.value)
            && forall x :: multiset(r)[x] == if x.writingType == writingType.value then multiset(rows)[x] else 0)
      && (writingType.None? ==> SortedBy(r, ByTypeThenSignal) && multiset(r) == multiset(rows))
  {
    var r := FetchWritingRules(rows, writingType);
    match writingType
    case Some(wt) =>
      var f := Filter(rows, x => HasType(wt, x));
      BySignalThenNewestOrders();
      SortBySorted(f, BySignalThenNewest);
      forall x ensures x in r <==> x in rows && x.writingType == wt {
        assert x in r <==> x in multiset(r);
        assert x in f <==> x in multiset(f);
        FilterMembers(rows, x => HasType(wt, x), x);
      }
      forall x ensures multiset(r)[x] == if x.writingType == wt then multiset(rows)[x] else 0 {
        FilterCount(rows, x => HasType(wt, x), x);
      }
    case None =>
      ByTypeThenSignalOrders();
      SortBySorted(rows, ByTypeThenSignal);
  }

  // ---------------------------------------------------------------------
  // Labels

  /** The display name of a writing type: the known ones are renamed, any
      other is printed as it is. */
  function TypeLabel(t: string): (r: string)
    ensures IsKnownType(t) <==> r != t
  {
    if t == "general" then "General"
    else if t == "email" then "Email"
    else if t == "prd" then "PRD"
    else if t == "blog" then "Blog / essay"
    else if t == "cover-letter" then "Cover letter"
    else if t == "resume" then "Resume"
    else if t == "slack" then "Slack"
    else if t == "pitch" then "Pitch"
    else if t == "outreach" then "Outreach"
    else t
  }

  predicate IsKnownType(t: string) {
    t in ["general", "email", "prd", "blog", "cover-letter", "resume", "slack", "pitch", "outreach"]
  }

  /** `replace('-', " ")`. */
  function DashesToSpaces(s: string): (r: string)
    ensures |r| == |s|
    ensures forall i :: 0 <= i < |s| ==> r[i] == if s[i] == '-' then ' ' else s[i]
  {
    seq(|s|, i requires 0 <= i < |s| => if s[i] == '-' then ' ' else s[i])
  }

  /** A word with its first character upper-cased. */
  function Capitalize(w: string): (r: string)
    ensures |r| == |w|
    ensures w != [] ==> r[0] == ToUpperAscii(w[0]) && r[1..] == w[1..]
  {
    if w == [] then [] else [ToUpperAscii(w[0])] + w[1..]
  }

  function CapitalizeAll(ws: seq<string>): (r: seq<string>)
    ensures |r| == |ws|
  {
    seq(|ws|, k requires 0 <= k < |ws| => Capitalize(ws[k]))
  }

  /** The heading of a category: dashes become spaces, each word is
      capitalised, and the words are joined by single spaces. */
  function CategoryLabel(category: string): string {
    var ws := SplitWhitespace(DashesToSpaces(category));
    Join(CapitalizeAll(ws), " ")
  }

  lemma CapitalizeKeepsWord(w: string)
    requires IsWord(w)
    ensures IsWord(Capitalize(w))
  {
    var c := Capitalize(w);
    forall i | 0 <= i < |c| ensures !IsWhitespace(c[i]) {
      if i > 0 {
        assert c[i] == c[1..][i - 1] == w[i];
      }
    }
  }

  /** The heading's words are the category's dash-separated words,
      capitalised, and no dash is left in it. */
  lemma CategoryLabelWords(category: string)
    ensures var ws := SplitWhitespace(DashesToSpaces(category));
      SplitWhitespace(CategoryLabel(category)) == CapitalizeAll(ws)
    ensures forall i :: 0 <= i < |CategoryLabel(category)| ==> CategoryLabel(category)[i] != '-'
  {
    var s := DashesToSpaces(category);
    var ws := SplitWhitespace(s);
    var cs := CapitalizeAll(ws);
    forall k | 0 <= k < |cs| ensures IsWord(cs[k]) {
      CapitalizeKeepsWord(ws[k]);
    }
    SplitJoin(cs);
    forall i | 0 <= i < |Join(cs, " ")| ensures Join(cs, " ")[i] != '-' {
      JoinChars(cs, " ", i);
      if exists k, j :: 0 <= k < |cs| && 0 <= j < |cs[k]| && Join(cs, " ")[i] == cs[k][j] {
        var k, j :| 0 <= k < |cs| && 0 <= j < |cs[k]| && Join(cs, " ")[i] == cs[k][j];
        WordFromDashless(s, k);
        if j > 0 {
          assert cs[k][j] == cs[k][1..][j - 1] == ws[k][j];
        }
      }
    }
  }

  /** The words of the dash-free text hold no dash. */
  lemma WordFromDashless(s: string, k: nat)
    requires forall i :: 0 <= i < |s| ==> s[i] != '-'
    requires k < |SplitWhitespace(s)|
    ensures forall j :: 0 <= j < |SplitWhitespace(s)[k]| ==> SplitWhitespace(s)[k][j] != '-'
  {
    SplitChars(s);
  }

  /** Every character of every word of `s` is a character of `s`. */
  lemma {:induction false} SplitChars(s: string)
    ensures forall k, j :: 0 <= k < |SplitWhitespace(s)| && 0 <= j < |SplitWhitespace(s)[k]| ==>
      SplitWhitespace(s)[k][j] in s
    decreases |s|
  {
    if s == [] {
    } else if IsWhitespace(s[0]) {
      SplitChars(s[1..]);
    } else {
      var n := WordLength(s);
      SplitChars(s[n..]);
      var ws := SplitWhitespace(s);
      assert ws == [s[..n]] + SplitWhitespace(s[n..]);
      forall k, j | 0 <= k < |ws| && 0 <= j < |ws[k]| ensures ws[k][j] in s {
        if k == 0 {
          assert ws[k][j] == s[j];
        } else {
          assert ws[k] == SplitWhitespace(s[n..])[k - 1];
          assert ws[k][j] in s[n..];
        }
      }
    }
  }

  lemma KillWordsSpaced()
    ensures DashesToSpaces("kill-words") == "kill words"
  {
    var s := DashesToSpaces("kill-words");
    assert |s| == |"kill words"|;
    forall i | 0 <= i < |s| ensures s[i] == "kill words"[i] {
    }
  }

  lemma KillWordsSplit()
    ensures SplitWhitespace("kill words") == ["kill", "words"]
  {
    var ws := ["kill", "words"];
    assert IsWord(ws[0]) && IsWord(ws[1]);
    SplitJoin(ws);
    assert Join(ws, " ") == "kill words";
  }

  lemma KillWordsCapitalized()
    ensures CapitalizeAll(["kill", "words"]) == ["Kill", "Words"]
  {
    var cs := CapitalizeAll(["kill", "words"]);
    assert cs[0] == "Kill" && cs[1] == "Words";
  }

  /** The heading of the "kill-words" category. */
  lemma KillWordsLabel()
    ensures CategoryLabel("kill-words") == "Kill Words"
  {
    var spaced := DashesToSpaces("kill-words");
    KillWordsSpaced();
    var ws := SplitWhitespace(spaced);
    KillWordsSplit();
    assert ws == ["kill", "words"];
    var cs := CapitalizeAll(ws);
    KillWordsCapitalized();
    assert cs == ["Kill", "Words"];
    KillWordsJoined();
  }

  lemma KillWordsJoined()
    ensures Join(["Kill", "Words"], " ") == "Kill Words"
  {
    var ws := ["Kill", "Words"];
    assert ws[1..] == ["Words"];
    var j := Join(ws, " ");
    assert j == "Kill" + " " + "Words";
    assert |j| == |"Kill Words"|;
    forall i | 0 <= i < |j| ensures j[i] == "Kill Words"[i] {
    }
  }

  // ---------------------------------------------------------------------
  // generate_writing_rules_markdown: the lines it pushes

  const Title: string := "# Writing Rules"
  const AgentNote: string := "_For AI agents: apply rules matching the writing type. General rules always apply._"

  function Header(): seq<string> {
    [Title, "", AgentNote]
  }

  /** The line `prefix` + the value, when there is a value. */
  function OptLine(prefix: string, v: Option<string>): seq<string> {
    match v
    case None => []
    case Some(x) => [prefix + x]
  }

  /** The line `prefix` + the value + a closing quote, when there is a value. */
  function QuotedLine(prefix: string, v: Option<string>): seq<string> {
    match v
    case None => []
    case Some(x) => [prefix + x + "\""]
  }

  const ExamplesHeading: string := "- Before -> After:"

  function ExampleLines(r: WritingRule): seq<string> {
    if r.exampleBefore.Some? || r.exampleAfter.Some? then
      [ExamplesHeading] + QuotedLine("  - Before: \"", r.exampleBefore) + QuotedLine("  - After: \"", r.exampleAfter)
    else []
  }

  /** The block of one rule. */
  function RuleLines(r: WritingRule): seq<string> {
    ["", "**Rule: " + r.ruleText + "** [" + r.severity + "]"]
    + OptLine("- When to apply: ", r.whenToApply)
    + OptLine("- Why: ", r.why)
    + ["- Signal: seen " + IntToString(r.signalCount) + " time(s)"]
    + ExampleLines(r)
    + OptLine("- Notes: ", r.notes)
  }

  /** The example heading appears exactly when the rule has an example. */
  lemma ExamplesHeadingIffExample(r: WritingRule)
    ensures ExamplesHeading in RuleLines(r) <==> r.exampleBefore.Some? || r.exampleAfter.Some?
  {
    var head := "**Rule: " + r.ruleText + "** [" + r.severity + "]";
    var signal := "- Signal: seen " + IntToString(r.signalCount) + " time(s)";
    assert ExamplesHeading[2] == 'B';
    assert head[0] == '*';
    assert signal[2] == 'S';
    forall x | x in OptLine("- When to apply: ", r.whenToApply) ensures x[2] == 'W' {
      assert x == "- When to apply: " + r.whenToApply.value;
    }
    forall x | x in OptLine("- Why: ", r.why) ensures x[2] == 'W' {
      assert x == "- Why: " + r.why.value;
    }
    forall x | x in OptLine("- Notes: ", r.notes) ensures x[2] == 'N' {
      assert x == "- Notes: " + r.notes.value;
    }
  }

  function RulesLines(rs: seq<WritingRule>): seq<string> {
    if rs == [] then [] else RulesLines(rs[..|rs| - 1]) + RuleLines(rs[|rs| - 1])
  }

  function CategoryOf(r: WritingRule): string {
    r.category
  }

  function TypeOf(r: WritingRule): string {
    r.writingType
  }

  /** A category heading followed by its rules. */
  function CategoryLines(g: Group<string, WritingRule>): seq<string> {
    ["", "### " + CategoryLabel(g.key)] + RulesLines(g.members)
  }

  function CategoriesLines(gs: seq<Group<string, WritingRule>>): seq<string> {
    if gs == [] then [] else CategoriesLines(gs[..|gs| - 1]) + CategoryLines(gs[|gs| - 1])
  }

  /** A writing-type heading followed by its categories in first-seen order. */
  function SectionLines(g: Group<string, WritingRule>): seq<string> {
    ["", "## " + TypeLabel(g.key)] + CategoriesLines(GroupsOf(g.members, CategoryOf))
  }

  function SectionsLines(gs: seq<Group<string, WritingRule>>): seq<string> {
    if gs == [] then [] else SectionsLines(gs[..|gs| - 1]) + SectionLines(gs[|gs| - 1])
  }

  /** The section order: "general" before everything, the rest by code point. */
  predicate GeneralFirst(a: Group<string, WritingRule>, b: Group<string, WritingRule>) {
    a.key == "general" || (b.key != "general" && StrLe(a.key, b.key))
  }

  lemma GeneralFirstOrders()
    ensures TotalPreorder(GeneralFirst)
  {
    forall a: Group<string, WritingRule>, b: Group<string, WritingRule> ensures GeneralFirst(a, b) || GeneralFirst(b, a) {
      StrLeTotal(a.key, b.key);
    }
    forall a: Group<string, WritingRule>, b: Group<string, WritingRule>, c: Group<string, WritingRule>
      | GeneralFirst(a, b) && GeneralFirst(b, c)
      ensures GeneralFirst(a, c)
    {
      if a.key != "general" {
        StrLeTransitive(a.key, b.key, c.key);
      }
    }
  }

  /** The writing-type groups in section order. */
  function TypeSections(rules: seq<WritingRule>): seq<Group<string, WritingRule>> {
    SortBy(GroupsOf(rules, TypeOf), GeneralFirst)
  }

  function MarkdownLines(rules: seq<WritingRule>): seq<string> {
    Header() + SectionsLines(TypeSections(rules)) + [""]
  }

  /** The document: the lines joined by "\n". */
  function Markdown(rules: seq<WritingRule>): string {
    Join(MarkdownLines(rules), "\n")
  }

  // ---------------------------------------------------------------------
  // generate_writing_rules_markdown: the loops

  method PushExamples(lines: seq<string>, r: WritingRule) returns (out: seq<string>)
    ensures out == lines + ExampleLines(r)
  {
    out := lines;
    if r.exampleBefore.Some? || r.exampleAfter.Some? {
      out := out + [ExamplesHeading];
      if r.exampleBefore.Some? {
        out := out + ["  - Before: \"" + r.exampleBefore.value + "\""];
      }
      Assoc(lines, [ExamplesHeading], QuotedLine("  - Before: \"", r.exampleBefore));
      if r.exampleAfter.Some? {
        out := out + ["  - After: \"" + r.exampleAfter.value + "\""];
      }
      Assoc(lines, [ExamplesHeading] + QuotedLine("  - Before: \"", r.exampleBefore), QuotedLine("  - After: \"", r.exampleAfter));
    }
  }

  method PushRule(lines: seq<string>, r: WritingRule) returns (out: seq<string>)
    ensures out == lines + RuleLines(r)
  {
    var head := ["", "**Rule: " + r.ruleText + "** [" + r.severity + "]"];
    var when := OptLine("- When to apply: ", r.whenToApply);
    var why := OptLine("- Why: ", r.why);
    var signal := ["- Signal: seen " + IntToString(r.signalCount) + " time(s)"];
    var notes := OptLine("- Notes: ", r.notes);
    out := lines + head;
    if r.whenToApply.Some? {
      out := out + ["- When to apply: " + r.whenToApply.value];
    }
    assert out == (lines + head) + when;
    Assoc(lines, head, when);
    if r.why.Some? {
      out := out + ["- Why: " + r.why.value];
    }
    assert out == (lines + (head + when)) + why;
    Assoc(lines, head + when, why);
    out := out + signal;
    Assoc(lines, head + when + why, signal);
    out := PushExamples(out, r);
    Assoc(lines, head + when + why + signal, ExampleLines(r));
    if r.notes.Some? {
      out := out + ["- Notes: " + r.notes.value];
    }
    assert out == (lines + (head + when + why + signal + ExampleLines(r))) + notes;
    Assoc(lines, head + when + why + signal + ExampleLines(r), notes);
  }

  lemma RulesLinesStep(rs: seq<WritingRule>, k: nat)
    requires k < |rs|
    ensures RulesLines(rs[..k + 1]) == RulesLines(rs[..k]) + RuleLines(rs[k])
  {
    assert rs[..k + 1][..k] == rs[..k];
  }

  lemma CategoriesLinesStep(gs: seq<Group<string, WritingRule>>, k: nat)
    requires k < |gs|
    ensures CategoriesLines(gs[..k + 1]) == CategoriesLines(gs[..k]) + CategoryLines(gs[k])
  {
    assert gs[..k + 1][..k] == gs[..k];
  }

  lemma SectionsLinesStep(gs: seq<Group<string, WritingRule>>, k: nat)
    requires k < |gs|
    ensures SectionsLines(gs[..k + 1]) == SectionsLines(gs[..k]) + SectionLines(gs[k])
  {
    assert gs[..k + 1][..k] == gs[..k];
  }

  method PushCategory(lines: seq<string>, g: Group<string, WritingRule>) returns (out: seq<string>)
    ensures out == lines + CategoryLines(g)
  {
    var header := ["", "### " + CategoryLabel(g.key)];
    var start := lines + header;
    out := start;
    var k := 0;
    while k < |g.members|
      invariant 0 <= k <= |g.members|
      invariant out == start + RulesLines(g.members[..k])
    {
      out := PushRule(out, g.members[k]);
      PushRuleStep(start, g.members, k);
      k := k + 1;
    }
    assert g.members[..|g.members|] == g.members;
    Assoc(lines, header, RulesLines(g.members));
  }

  /** One more rule block after `start` and the first `k` blocks. */
  lemma PushRuleStep(start: seq<string>, rs: seq<WritingRule>, k: nat)
    requires k < |rs|
    ensures (start + RulesLines(rs[..k])) + RuleLines(rs[k]) == start + RulesLines(rs[..k + 1])
  {
    RulesLinesStep(rs, k);
    Assoc(start, RulesLines(rs[..k]), RuleLines(rs[k]));
  }

  method PushSection(lines: seq<string>, g: Group<string, WritingRule>) returns (out: seq<string>)
    ensures out == lines + SectionLines(g)
  {
    var head := ["", "## " + TypeLabel(g.key)];
    var start := lines + head;
    out := start;
    var cats := GroupFirstSeen(g.members, CategoryOf);
    var j := 0;
    while j < |cats|
      invariant 0 <= j <= |cats|
      invariant out == start + CategoriesLines(cats[..j])
    {
      out := PushCategory(out, cats[j]);
      CategoriesLinesStep(cats, j);
      Assoc(start, CategoriesLines(cats[..j]), CategoryLines(cats[j]));
      j := j + 1;
    }
    assert cats[..|cats|] == cats;
    Assoc(lines, head, CategoriesLines(cats));
  }

  /** `generate_writing_rules_markdown`: group the rules by writing type in
      first-seen order, sort the groups, push each section, and join. */
  method GenerateWritingRulesMarkdown(rules: seq<WritingRule>) returns (md: string)
    ensures md == Markdown(rules)
  {
    var start := Header();
    var lines := start;
    var groups := GroupFirstSeen(rules, TypeOf);
    groups := SortBy(groups, GeneralFirst);
    var i := 0;
    while i < |groups|
      invariant 0 <= i <= |groups|
      invariant lines == start + SectionsLines(groups[..i])
    {
      lines := PushSection(lines, groups[i]);
      SectionsLinesStep(groups, i);
      Assoc(start, SectionsLines(groups[..i]), SectionLines(groups[i]));
      i := i + 1;
    }
    assert groups[..|groups|] == groups;
    lines := lines + [""];
    md := Join(lines, "\n");
  }

  // ---------------------------------------------------------------------
  // What the document promises

  lemma {:induction false} JoinAppend(a: seq<string>, b: seq<string>, sep: string)
    requires a != [] && b != []
    ensures Join(a + b, sep) == Join(a, sep) + sep + Join(b, sep)
  {
    if |a| == 1 {
      assert (a + b)[1..] == b;
    } else {
      assert (a + b)[1..] == a[1..] + b;
      JoinAppend(a[1..], b, sep);
    }
  }

  lemma HeaderJoin()
    ensures Join(Header(), "\n") == Title + "\n\n" + AgentNote
  {
    var h := Header();
    assert h[1..] == ["", AgentNote];
    assert h[1..][1..] == [AgentNote];
    assert Join(h[1..], "\n") == "" + "\n" + AgentNote;
    assert "" + "\n" + AgentNote == "\n" + AgentNote;
  }

  /** The document opens with the title, a blank line and the note to
      agents, each followed by a newline; the sections come next. */
  lemma MarkdownStart(rules: seq<WritingRule>)
    ensures Markdown(rules) == Title + "\n\n" + AgentNote + "\n" + Join(SectionsLines(TypeSections(rules)) + [""], "\n")
  {
    var body := SectionsLines(TypeSections(rules)) + [""];
    assert MarkdownLines(rules) == Header() + body;
    JoinAppend(Header(), body, "\n");
    HeaderJoin();
  }

  /** The document ends with a newline after the last section. */
  lemma MarkdownEnd(rules: seq<WritingRule>)
    ensures Markdown(rules) == Join(Header() + SectionsLines(TypeSections(rules)), "\n") + "\n"
    ensures Markdown(rules)[|Markdown(rules)| - 1] == '\n'
  {
    var lines := Header() + SectionsLines(TypeSections(rules));
    JoinSnoc(lines, "", "\n");
    assert Join(lines, "\n") + "\n" + "" == Join(lines, "\n") + "\n";
  }

  /** Two groups are equal when their keys are, since keys are distinct. */
  lemma {:induction false} DistinctCount<T>(s: seq<T>, x: T)
    requires forall i, j :: 0 <= i < j < |s| ==> s[i] != s[j]
    ensures multiset(s)[x] <= 1
  {
    if s != [] {
      assert s == [s[0]] + s[1..];
      DistinctCount(s[1..], x);
      if x == s[0] {
        assert x !in s[1..];
      }
    }
  }

  lemma PermutationDistinct<T>(a: seq<T>, b: seq<T>)
    requires multiset(a) == multiset(b)
    requires forall i, j :: 0 <= i < j < |a| ==> a[i] != a[j]
    ensures forall i, j :: 0 <= i < j < |b| ==> b[i] != b[j]
  {
    forall i, j | 0 <= i < j < |b| ensures b[i] != b[j] {
      if b[i] == b[j] {
        assert b == b[..j] + [b[j]] + b[j + 1..];
        assert b[i] in b[..j];
        assert multiset(b)[b[j]] >= 2;
        DistinctCount(a, b[j]);
      }
    }
  }

  /** Each section is one of the first-seen type groups: its key and the
      rules of that type, in input order. */
  lemma SectionIsGroup(rules: seq<WritingRule>, i: nat)
    requires i < |TypeSections(rules)|
    ensures var g := TypeSections(rules)[i];
      g in GroupsOf(rules, TypeOf) && g.members == Matching(rules, TypeOf, g.key)
  {
    var gs := TypeSections(rules);
    assert gs[i] in multiset(gs);
  }

  /** One section per distinct writing type. */
  lemma SectionKeysDistinct(rules: seq<WritingRule>)
    ensures var gs := TypeSections(rules);
      forall i, j :: 0 <= i < j < |gs| ==> gs[i].key != gs[j].key
  {
    var groups := GroupsOf(rules, TypeOf);
    var gs := TypeSections(rules);
    FirstSeenKeysDistinct(rules, TypeOf);
    assert forall i, j :: 0 <= i < j < |groups| ==> groups[i] != groups[j] by {
      forall i, j | 0 <= i < j < |groups| ensures groups[i] != groups[j] {
        assert groups[i].key != groups[j].key;
      }
    }
    PermutationDistinct(groups, gs);
    forall i, j | 0 <= i < j < |gs| ensures gs[i].key != gs[j].key {
      SectionIsGroup(rules, i);
      SectionIsGroup(rules, j);
      var a :| 0 <= a < |groups| && groups[a] == gs[i];
      var b :| 0 <= b < |groups| && groups[b] == gs[j];
      assert a != b;
      if a < b { assert groups[a].key != groups[b].key; } else { assert groups[b].key != groups[a].key; }
    }
  }

  /** Every rule's writing type has a section. */
  lemma SectionsCoverTypes(rules: seq<WritingRule>, k: nat)
    requires k < |rules|
    ensures exists i :: 0 <= i < |TypeSections(rules)| && TypeSections(rules)[i].key == rules[k].writingType
  {
    var groups := GroupsOf(rules, TypeOf);
    var gs := TypeSections(rules);
    ItemInOneGroup(rules, TypeOf, k);
    var g :| 0 <= g < |groups| && groups[g].key == TypeOf(rules[k]);
    assert groups[g] in multiset(gs);
    var i :| 0 <= i < |gs| && gs[i] == groups[g];
  }

  /** "general" comes first when present, and the other types follow in
      ascending code-point order. */
  lemma SectionsInOrder(rules: seq<WritingRule>)
    ensures var gs := TypeSections(rules);
      && (forall i :: 0 <= i < |gs| && gs[i].key == "general" ==> i == 0)
      && (forall i, j :: 0 <= i < j < |gs| && gs[i].key != "general" ==> StrLe(gs[i].key, gs[j].key))
  {
    var gs := TypeSections(rules);
    GeneralFirstOrders();
    SortBySorted(GroupsOf(rules, TypeOf), GeneralFirst);
    SectionKeysDistinct(rules);
    assert forall i :: 0 < i < |gs| ==> GeneralFirst(gs[0], gs[i]);
  }

  // ---------------------------------------------------------------------
  // generate_writing_guard_py: the two lists

  predicate IsKillWordRule(r: WritingRule) {
    r.severity == "must-fix" && r.category == "kill-words"
  }

  /** The rule texts of the must-fix kill-word rules, in input order. */
  function KillWords(rules: seq<WritingRule>): (r: seq<string>)
    ensures |r| <= |rules|
    ensures forall w :: w in r <==> exists i :: 0 <= i < |rules| && IsKillWordRule(rules[i]) && rules[i].ruleText == w
  {
    if rules == [] then []
    else
      var rest := KillWords(rules[1..]);
      assert forall i :: 0 < i < |rules| ==> rules[i] == rules[1..][i - 1];
      if IsKillWordRule(rules[0]) then [rules[0].ruleText] + rest else rest
  }

  predicate IsSlopRule(r: WritingRule) {
    r.category == "ai-slop" && r.exampleBefore.Some?
  }

  /** (pattern, explanation) pairs: the `example_before` and rule text of
      every "ai-slop" rule that has an example, in input order. */
  function SlopPatterns(rules: seq<WritingRule>): (r: seq<(string, string)>)
    ensures |r| <= |rules|
    ensures forall p :: p in r <==>
      exists i :: 0 <= i < |rules| && IsSlopRule(rules[i]) && p == (rules[i].exampleBefore.value, rules[i].ruleText)
  {
    if rules == [] then []
    else
      var rest := SlopPatterns(rules[1..]);
      assert forall i :: 0 < i < |rules| ==> rules[i] == rules[1..][i - 1];
      if IsSlopRule(rules[0]) then [(rules[0].exampleBefore.value, rules[0].ruleText)] + rest else rest
  }

  // ---------------------------------------------------------------------
  // write_export_files and export_writing_rules

  /** What the file system does for the export: the home directory, if one
      is known, and whether each directory creation and write succeeds. */
  datatype ExportFs = ExportFs(
    home: Option<string>,
    marginDirOk: bool,
    hooksDirOk: bool,
    markdownWriteOk: bool,
    hookWriteOk: bool)

  const MarkdownFile: string := "/.margin/writing-rules.md"
  const HookFile: string := "/.claude/hooks/writing_guard.py"

  function WriteFailure(path: string, ok: bool): seq<string> {
    if ok then [] else ["Failed to write " + path]
  }

  /** `write_export_files`: both files are attempted once the directories
      exist, and every failed write is reported, joined by "; ". */
  function WriteExportFiles(fs: ExportFs): (r: Result<(string, string)>)
    ensures r.Ok? <==> fs.home.Some? && fs.marginDirOk && fs.hooksDirOk && fs.markdownWriteOk && fs.hookWriteOk
    ensures r.Ok? ==> r.value == (fs.home.value + MarkdownFile, fs.home.value + HookFile)
    ensures fs.home.Some? && fs.marginDirOk && fs.hooksDirOk && !fs.markdownWriteOk && !fs.hookWriteOk ==>
      r == Err(("Failed to write " + (fs.home.value + MarkdownFile)) + "; " + ("Failed to write " + (fs.home.value + HookFile)))
  {
    match fs.home
    case None => Err("Could not determine home directory")
    case Some(home) =>
      if !fs.marginDirOk then Err("Failed to create .margin dir")
      else if !fs.hooksDirOk then Err("Failed to create hooks dir")
      else
        var md, hook := home + MarkdownFile, home + HookFile;
        var errors := WriteFailure(md, fs.markdownWriteOk) + WriteFailure(hook, fs.hookWriteOk);
        assert |errors| == 2 ==> errors[1..] == [errors[1]] && Join(errors[1..], "; ") == errors[1];
        if errors != [] then Err(Join(errors, "; ")) else Ok((md, hook))
  }

  datatype ExportResult = ExportResult(markdownPath: string, hookPath: string, ruleCount: nat)

  /** `export_writing_rules`: read every rule, render the document and the
      hook's two lists, and write them out. */
  method ExportWritingRules(db: Database, fs: ExportFs)
    returns (r: Result<ExportResult>, markdown: string, killWords: seq<string>, slopPatterns: seq<(string, string)>)
    ensures var rules := FetchWritingRules(db.writingRules, None);
      && markdown == Markdown(rules)
      && killWords == KillWords(rules)
      && slopPatterns == SlopPatterns(rules)
    ensures r.Ok? <==> WriteExportFiles(fs).Ok?
    ensures r.Ok? ==> r.value == ExportResult(fs.home.value + MarkdownFile, fs.home.value + HookFile, |db.writingRules|)
  {
    var rules := FetchWritingRules(db.writingRules, None);
    SortByLength(db.writingRules, ByTypeThenSignal);
    markdown := GenerateWritingRulesMarkdown(rules);
    killWords := KillWords(rules);
    slopPatterns := SlopPatterns(rules);
    match WriteExportFiles(fs)
    case Err(e) =>
      r := Err(e);
    case Ok(paths) =>
      r := Ok(ExportResult(paths.0, paths.1, |rules|));
  }
}
