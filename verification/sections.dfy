/** `cleanRoadmap` (Frontend/src/App.jsx:59-80): every match of the scanner
    becomes an entry (its label and its cleaned content), and the entries are
    grouped per label in first-seen order, each group's contents joined with a
    blank line. */
module Sections {
  import opened Wrappers
  import opened Text
  import opened Scanner

  /** One match after cleaning: its label and its content. */
  datatype Entry = Entry(name: string, content: string)

  /** All the contents seen so far under one label, in encounter order. */
  datatype Group = Group(name: string, contents: seq<string>)

  /** One rendered section: a label and its merged content. */
  datatype Section = Section(name: string, content: string)

  /** The separator `join` puts between two contents of the same label. */
  const BlankLine: string := "\n\n"

  /** The per-match cleaning of App.jsx:71: trim, drop `**` and `__`, trim
      again.  The result is the trimmed capture without the pairs of its pair
      list, trimmed once more; a whitespace-only capture becomes "" (and is
      kept, not dropped); a capture without doubled markers is only trimmed. */
  function Clean(raw: string): (r: string)
    ensures forall ps :: IsPairList(Trim(raw), 0, ps) ==> r == Trim(Without(Trim(raw), 0, ps))
    ensures AllWhitespace(raw) ==> r == ""
    ensures NoEmphasisPair(Trim(raw)) ==> r == Trim(raw)
    ensures r != [] ==> !IsWhitespace(r[0]) && !IsWhitespace(r[|r| - 1])
  {
    TrimIdempotent(raw);
    StripEmphasisDeletesPairs(Trim(raw));
    Trim(StripEmphasis(Trim(raw)))
  }

  /** `match[1].trim()` (App.jsx:70) leaves every label as it is, so an
      entry's label is the vocabulary word itself. */
  lemma LabelsTrimmed()
    ensures forall w :: w in Labels ==> Trim(w) == w
  {
    forall w | w in Labels ensures Trim(w) == w {
      TrimNoOp(w);
    }
  }

  /** The characters with a meaning of their own in a JavaScript regular
      expression outside a character class. */
  const RegexSpecials: string := "\\^$.|?*+()[]{}"

  /** The names every plain object inherits from `Object.prototype`; reading
      one of them as `roadmapSections[label]` finds a function, not undefined. */
  const ObjectPrototypeNames: seq<string> := [
    "constructor", "hasOwnProperty", "isPrototypeOf", "propertyIsEnumerable",
    "toLocaleString", "toString", "valueOf", "__proto__", "__defineGetter__",
    "__defineSetter__", "__lookupGetter__", "__lookupSetter__"
  ]

  /** A word on which the model and `cleanRoadmap` agree: already trimmed
      (App.jsx:70), matched literally by the unescaped alternation (:65), not
      an array index that `Object.keys` would list first (:76), and not an
      inherited property of the grouping object (:72). */
  predicate PlainLabel(w: string) {
    && w != []
    && Trim(w) == w
    && (forall c :: c in w ==> c !in RegexSpecials)
    && !AllDigits(w)
    && w !in ObjectPrototypeNames
  }

  predicate IsLetterOrSpace(c: char) {
    ('A' <= c <= 'Z') || ('a' <= c <= 'z') || c == ' '
  }

  /** A word that starts with a capital, ends with a non-space and holds only
      letters and spaces. */
  predicate Capitalised(w: string) {
    && w != [] && 'A' <= w[0] <= 'Z' && w[|w| - 1] != ' '
    && forall i :: 0 <= i < |w| ==> IsLetterOrSpace(w[i])
  }

  /** A capitalised word is plain: it has no regex special, is not all
      digits, and every inherited name starts with a lower-case letter or `_`. */
  lemma CapitalisedIsPlain(w: string)
    requires Capitalised(w)
    ensures PlainLabel(w)
  {
    TrimNoOp(w);
    assert !IsDigit(w[0]);
    forall c | c in w ensures c !in RegexSpecials {
      var i :| 0 <= i < |w| && w[i] == c;
      assert IsLetterOrSpace(w[i]);
    }
    assert forall n :: n in ObjectPrototypeNames ==> n != [] && !('A' <= n[0] <= 'Z');
  }

  /** The first six labels are capitalised. */
  lemma LabelsCapitalisedFirst()
    ensures forall k :: 0 <= k < 6 ==> Capitalised(Labels[k])
  {
  }

  /** The last six labels are capitalised. */
  lemma LabelsCapitalisedLast()
    ensures forall k :: 6 <= k < |Labels| ==> Capitalised(Labels[k])
  {
  }

  /** Each of the twelve labels is a plain word. */
  lemma LabelsArePlain()
    ensures forall w :: w in Labels ==> PlainLabel(w)
  {
    LabelsCapitalisedFirst();
    LabelsCapitalisedLast();
    forall k | 0 <= k < |Labels| ensures PlainLabel(Labels[k]) {
      CapitalisedIsPlain(Labels[k]);
    }
  }

  /** The cleaned entries of every match, in text order. */
  function Entries(vocab: seq<string>, t: string): (es: seq<Entry>)
    ensures |es| == |Scan(vocab, t, 0)|
    ensures forall k :: 0 <= k < |es| ==> es[k].name == Scan(vocab, t, 0)[k].name
  {
    var ms := Scan(vocab, t, 0);
    MatchListShape(vocab, t, 0, ms);
    CleanedEntries(t, ms)
  }

  /** The entry of each span: its label and its cleaned content. */
  function CleanedEntries(t: string, ms: seq<Span>): (es: seq<Entry>)
    requires forall k :: 0 <= k < |ms| ==> ms[k].contentStart <= ms[k].end <= |t|
    ensures |es| == |ms|
    ensures forall k :: 0 <= k < |es| ==> es[k] == Entry(ms[k].name, Clean(Content(t, ms[k])))
  {
    seq(|ms|, k requires 0 <= k < |ms| => Entry(ms[k].name, Clean(Content(t, ms[k]))))
  }

  /** Entry `k` is the label and cleaned content of match `k`. */
  lemma EntryOfMatch(vocab: seq<string>, t: string, k: nat)
    requires k < |Scan(vocab, t, 0)|
    ensures var sp := Scan(vocab, t, 0)[k];
      && ValidSpan(vocab, t, sp)
      && Entries(vocab, t)[k] == Entry(sp.name, Clean(Content(t, sp)))
  {
    MatchListSpans(vocab, t, 0, Scan(vocab, t, 0));
  }

  /** A text with exactly two matches has the two entries of those matches. */
  lemma TwoMatchEntries(vocab: seq<string>, t: string, sp1: Span, sp2: Span)
    requires Scan(vocab, t, 0) == [sp1, sp2]
    ensures sp1.contentStart <= sp1.end <= |t| && sp2.contentStart <= sp2.end <= |t|
    ensures Entries(vocab, t) == [Entry(sp1.name, Clean(Content(t, sp1))), Entry(sp2.name, Clean(Content(t, sp2)))]
  {
    EntryOfMatch(vocab, t, 0);
    EntryOfMatch(vocab, t, 1);
    var es := Entries(vocab, t);
    assert |es| == 2;
    assert es == [es[0], es[1]];
  }

  /** A text with a single match has the single entry of that match. */
  lemma SingleMatchEntry(vocab: seq<string>, t: string, sp: Span)
    requires Scan(vocab, t, 0) == [sp]
    ensures sp.contentStart <= sp.end <= |t|
    ensures Entries(vocab, t) == [Entry(sp.name, Clean(Content(t, sp)))]
  {
    MatchListSpans(vocab, t, 0, [sp]);
  }

  /** The labels occurring among the entries. */
  function Names(es: seq<Entry>): (r: set<string>)
    ensures forall k :: 0 <= k < |es| ==> es[k].name in r
    ensures forall n :: n in r ==> exists k :: 0 <= k < |es| && es[k].name == n
    decreases |es|
  {
    if es == [] then {}
    else
      var init := es[..|es| - 1];
      var r := Names(init) + {es[|es| - 1].name};
      assert forall k :: 0 <= k < |init| ==> es[k] == init[k];
      r
  }

  /** The contents recorded under `name`, in encounter order: the reference
      definition of what the merge must produce for that label. */
  function ContentsOf(es: seq<Entry>, name: string): seq<string>
    decreases |es|
  {
    if es == [] then []
    else
      var last := es[|es| - 1];
      ContentsOf(es[..|es| - 1], name) + (if last.name == name then [last.content] else [])
  }

  /** Position of the first entry with label `name`. */
  function FirstIndex(es: seq<Entry>, name: string): (k: nat)
    requires name in Names(es)
    ensures k < |es| && es[k].name == name
    ensures forall j :: 0 <= j < k ==> es[j].name != name
    decreases |es|
  {
    var init := es[..|es| - 1];
    if name in Names(init) then
      var k := FirstIndex(init, name);
      assert es[k] == init[k];
      k
    else
      assert forall j :: 0 <= j < |init| ==> es[j] == init[j];
      |es| - 1
  }

  /** One more entry adds its label to the names. */
  lemma AppendNames(init: seq<Entry>, e: Entry)
    ensures Names(init + [e]) == Names(init) + {e.name}
  {
    assert (init + [e])[..|init|] == init;
  }

  /** One more entry appends its content to its own label's contents only. */
  lemma AppendContents(init: seq<Entry>, e: Entry)
    ensures forall n :: ContentsOf(init + [e], n) == ContentsOf(init, n) + (if e.name == n then [e.content] else [])
  {
    assert (init + [e])[..|init|] == init;
  }

  /** One more entry leaves every first index in place, and a new label's
      first index is the new entry's. */
  lemma AppendFirstIndex(init: seq<Entry>, e: Entry)
    ensures Names(init + [e]) == Names(init) + {e.name}
    ensures forall n :: n in Names(init) ==> FirstIndex(init + [e], n) == FirstIndex(init, n)
    ensures e.name !in Names(init) ==> FirstIndex(init + [e], e.name) == |init|
  {
    assert (init + [e])[..|init|] == init;
  }

  /** Index of the group for `name`, if there is one. */
  function FindGroup(gs: seq<Group>, name: string): (r: Option<nat>)
    ensures r.Some? ==> r.value < |gs| && gs[r.value].name == name
    ensures r.None? ==> forall i :: 0 <= i < |gs| ==> gs[i].name != name
    decreases |gs|
  {
    if gs == [] then None
    else if gs[|gs| - 1].name == name then Some(|gs| - 1)
    else FindGroup(gs[..|gs| - 1], name)
  }

  /** No two groups share a label. */
  predicate DistinctNames(gs: seq<Group>) {
    forall i, j :: 0 <= i < j < |gs| ==> gs[i].name != gs[j].name
  }

  /** The groups' labels are exactly the entries' labels. */
  predicate SameNames(es: seq<Entry>, gs: seq<Group>) {
    && (forall i :: 0 <= i < |gs| ==> gs[i].name in Names(es))
    && (forall n :: n in Names(es) ==> FindGroup(gs, n).Some?)
  }

  /** Each group holds its label's contents in encounter order. */
  predicate ContentsAgree(es: seq<Entry>, gs: seq<Group>) {
    forall i :: 0 <= i < |gs| ==> gs[i].contents == ContentsOf(es, gs[i].name)
  }

  /** Groups come in the order of their label's first entry. */
  predicate FirstSeenOrder(es: seq<Entry>, gs: seq<Group>)
    requires forall i :: 0 <= i < |gs| ==> gs[i].name in Names(es)
  {
    forall i, j :: 0 <= i < j < |gs| ==> FirstIndex(es, gs[i].name) < FirstIndex(es, gs[j].name)
  }

  /** `gs` is the grouping of `es` that App.jsx:67-74 builds and
      `Object.keys` lists (insertion order). */
  predicate IsGrouping(es: seq<Entry>, gs: seq<Group>) {
    && DistinctNames(gs)
    && SameNames(es, gs)
    && ContentsAgree(es, gs)
    && FirstSeenOrder(es, gs)
  }

  /** One step of the `forEach` of App.jsx:69-74: append the content to its
      label's group, creating the group at the end when the label is new. */
  function AddEntry(gs: seq<Group>, e: Entry): seq<Group> {
    match FindGroup(gs, e.name)
    case Some(i) => ExtendGroup(gs, i, e)
    case None => OpenGroup(gs, e)
  }

  /** A new label opens a group at the end holding just this content; a
      label that already has a group gets the content pushed onto it, every
      other group unchanged. */
  lemma AddEntryShape(gs: seq<Group>, e: Entry)
    ensures (forall i :: 0 <= i < |gs| ==> gs[i].name != e.name) ==>
      AddEntry(gs, e) == gs + [Group(e.name, [e.content])]
    ensures DistinctNames(gs) ==> forall i :: 0 <= i < |gs| && gs[i].name == e.name ==>
      AddEntry(gs, e) == gs[i := Group(e.name, gs[i].contents + [e.content])]
  {
  }

  /** The grouping after an entry whose label already has group `i`. */
  function ExtendGroup(gs: seq<Group>, i: nat, e: Entry): seq<Group>
    requires i < |gs|
  {
    gs[i := Group(e.name, gs[i].contents + [e.content])]
  }

  /** The grouping after an entry with a new label. */
  function OpenGroup(gs: seq<Group>, e: Entry): seq<Group> {
    gs + [Group(e.name, [e.content])]
  }

  lemma ExtendGroupNames(init: seq<Entry>, gs: seq<Group>, e: Entry, i: nat)
    requires DistinctNames(gs) && SameNames(init, gs)
    requires i < |gs| && gs[i].name == e.name
    ensures DistinctNames(ExtendGroup(gs, i, e)) && SameNames(init + [e], ExtendGroup(gs, i, e))
  {
    AppendNames(init, e);
    var gs' := ExtendGroup(gs, i, e);
    assert forall j :: 0 <= j < |gs'| ==> gs'[j].name == gs[j].name;
    forall n | n in Names(init + [e]) ensures FindGroup(gs', n).Some? {
      var j := FindGroup(gs, n).value;
      assert gs'[j].name == n;
    }
  }

  lemma ExtendGroupContents(init: seq<Entry>, gs: seq<Group>, e: Entry, i: nat)
    requires DistinctNames(gs) && ContentsAgree(init, gs)
    requires i < |gs| && gs[i].name == e.name
    ensures ContentsAgree(init + [e], ExtendGroup(gs, i, e))
  {
    AppendContents(init, e);
  }

  lemma ExtendGroupOrder(init: seq<Entry>, gs: seq<Group>, e: Entry, i: nat)
    requires SameNames(init, gs) && FirstSeenOrder(init, gs)
    requires i < |gs| && gs[i].name == e.name
    requires SameNames(init + [e], ExtendGroup(gs, i, e))
    ensures FirstSeenOrder(init + [e], ExtendGroup(gs, i, e))
  {
    AppendFirstIndex(init, e);
  }

  /** An entry whose label already has a group extends that group only. */
  lemma AddToExistingGroup(init: seq<Entry>, gs: seq<Group>, e: Entry, i: nat)
    requires IsGrouping(init, gs)
    requires i < |gs| && gs[i].name == e.name
    ensures IsGrouping(init + [e], ExtendGroup(gs, i, e))
  {
    ExtendGroupNames(init, gs, e, i);
    ExtendGroupContents(init, gs, e, i);
    ExtendGroupOrder(init, gs, e, i);
  }

  lemma OpenGroupNames(init: seq<Entry>, gs: seq<Group>, e: Entry)
    requires DistinctNames(gs) && SameNames(init, gs)
    requires e.name !in Names(init)
    ensures DistinctNames(OpenGroup(gs, e)) && SameNames(init + [e], OpenGroup(gs, e))
  {
    AppendNames(init, e);
    var gs' := OpenGroup(gs, e);
    assert forall j :: 0 <= j < |gs| ==> gs'[j] == gs[j];
    forall n | n in Names(init + [e]) ensures FindGroup(gs', n).Some? {
      if n != e.name {
        var j := FindGroup(gs, n).value;
        assert gs'[j].name == n;
      } else {
        assert gs'[|gs|].name == n;
      }
    }
  }

  lemma OpenGroupContents(init: seq<Entry>, gs: seq<Group>, e: Entry)
    requires ContentsAgree(init, gs) && SameNames(init, gs)
    requires e.name !in Names(init)
    ensures ContentsAgree(init + [e], OpenGroup(gs, e))
  {
    AppendContents(init, e);
    ContentsOfAbsent(init, e.name);
    var gs' := OpenGroup(gs, e);
    assert forall j :: 0 <= j < |gs| ==> gs'[j] == gs[j];
  }

  lemma OpenGroupOrder(init: seq<Entry>, gs: seq<Group>, e: Entry)
    requires SameNames(init, gs) && FirstSeenOrder(init, gs)
    requires e.name !in Names(init)
    requires SameNames(init + [e], OpenGroup(gs, e))
    ensures FirstSeenOrder(init + [e], OpenGroup(gs, e))
  {
    AppendFirstIndex(init, e);
    var gs' := OpenGroup(gs, e);
    assert forall j :: 0 <= j < |gs| ==> gs'[j] == gs[j];
  }

  /** An entry with a new label opens a group at the end. */
  lemma AddNewGroup(init: seq<Entry>, gs: seq<Group>, e: Entry)
    requires IsGrouping(init, gs)
    requires FindGroup(gs, e.name).None?
    ensures IsGrouping(init + [e], OpenGroup(gs, e))
  {
    assert e.name in Names(init) ==> FindGroup(gs, e.name).Some?;
    OpenGroupNames(init, gs, e);
    OpenGroupContents(init, gs, e);
    OpenGroupOrder(init, gs, e);
  }

  /** One step of the grouping keeps it a grouping of one more entry. */
  lemma AddEntryKeepsGrouping(init: seq<Entry>, gs: seq<Group>, e: Entry)
    requires IsGrouping(init, gs)
    ensures IsGrouping(init + [e], AddEntry(gs, e))
  {
    match FindGroup(gs, e.name)
    case Some(i) => AddToExistingGroup(init, gs, e, i);
    case None => AddNewGroup(init, gs, e);
  }

  /** The grouping of App.jsx:67-74. */
  function GroupEntries(es: seq<Entry>): (gs: seq<Group>)
    ensures IsGrouping(es, gs)
    decreases |es|
  {
    if es == [] then []
    else
      var init := es[..|es| - 1];
      var e := es[|es| - 1];
      var gs := GroupEntries(init);
      assert es == init + [e];
      AddEntryKeepsGrouping(init, gs, e);
      AddEntry(gs, e)
  }

  /** A label that has no entry has no contents. */
  lemma {:induction false} ContentsOfAbsent(es: seq<Entry>, name: string)
    requires name !in Names(es)
    ensures ContentsOf(es, name) == []
    decreases |es|
  {
    if es != [] {
      ContentsOfAbsent(es[..|es| - 1], name);
    }
  }

  /** `secs` is what App.jsx:72-79 makes of the entries `es`: the section
      labels are pairwise distinct and exactly the entries' labels; each
      section's content is its label's contents joined with a blank line in
      encounter order; sections come in the order of their label's first
      entry; and there are no sections exactly when there are no entries. */
  predicate IsMergeOf(es: seq<Entry>, secs: seq<Section>) {
    && (forall i, j :: 0 <= i < j < |secs| ==> secs[i].name != secs[j].name)
    && (forall i :: 0 <= i < |secs| ==> secs[i].name in Names(es))
    && (forall n :: n in Names(es) ==> exists i :: 0 <= i < |secs| && secs[i].name == n)
    && (forall i :: 0 <= i < |secs| ==> secs[i].content == Join(ContentsOf(es, secs[i].name), BlankLine))
    && (forall i, j :: 0 <= i < j < |secs| ==> FirstIndex(es, secs[i].name) < FirstIndex(es, secs[j].name))
    && (secs == [] <==> es == [])
  }

  /** The `map`/`join` of App.jsx:76-79 over the grouping. */
  function Merge(es: seq<Entry>): (secs: seq<Section>)
    ensures IsMergeOf(es, secs)
  {
    var gs := GroupEntries(es);
    var secs := JoinGroups(gs);
    MergeFacts(es, gs, secs);
    secs
  }

  /** Each group's contents joined with a blank line. */
  function JoinGroups(gs: seq<Group>): (secs: seq<Section>)
    ensures |secs| == |gs|
    ensures forall i :: 0 <= i < |gs| ==> secs[i] == Section(gs[i].name, Join(gs[i].contents, BlankLine))
  {
    seq(|gs|, i requires 0 <= i < |gs| => Section(gs[i].name, Join(gs[i].contents, BlankLine)))
  }

  lemma MergeFacts(es: seq<Entry>, gs: seq<Group>, secs: seq<Section>)
    requires IsGrouping(es, gs)
    requires |secs| == |gs|
    requires forall i :: 0 <= i < |gs| ==> secs[i] == Section(gs[i].name, Join(gs[i].contents, BlankLine))
    ensures IsMergeOf(es, secs)
  {
    assert forall i :: 0 <= i < |gs| ==> secs[i].name == gs[i].name;
    MergeCovers(es, gs, secs);
    MergeContents(es, gs, secs);
    MergeOrder(es, gs, secs);
    assert es != [] ==> es[0].name in Names(es);
    assert Names([]) == {};
    assert secs != [] ==> secs[0].name in Names(es);
  }

  lemma MergeCovers(es: seq<Entry>, gs: seq<Group>, secs: seq<Section>)
    requires SameNames(es, gs)
    requires |secs| == |gs|
    requires forall i :: 0 <= i < |gs| ==> secs[i].name == gs[i].name
    ensures forall n :: n in Names(es) ==> exists i :: 0 <= i < |secs| && secs[i].name == n
  {
    forall n | n in Names(es) ensures exists i :: 0 <= i < |secs| && secs[i].name == n {
      var i := FindGroup(gs, n).value;
      assert secs[i].name == n;
    }
  }

  lemma MergeContents(es: seq<Entry>, gs: seq<Group>, secs: seq<Section>)
    requires ContentsAgree(es, gs)
    requires |secs| == |gs|
    requires forall i :: 0 <= i < |gs| ==> secs[i] == Section(gs[i].name, Join(gs[i].contents, BlankLine))
    ensures forall i :: 0 <= i < |secs| ==> secs[i].content == Join(ContentsOf(es, secs[i].name), BlankLine)
  {
  }

  lemma MergeOrder(es: seq<Entry>, gs: seq<Group>, secs: seq<Section>)
    requires SameNames(es, gs) && FirstSeenOrder(es, gs)
    requires |secs| == |gs|
    requires forall i :: 0 <= i < |gs| ==> secs[i].name == gs[i].name
    ensures forall i :: 0 <= i < |secs| ==> secs[i].name in Names(es)
    ensures forall i, j :: 0 <= i < j < |secs| ==> FirstIndex(es, secs[i].name) < FirstIndex(es, secs[j].name)
  {
  }

  /** Every entry's label is a word of the vocabulary, and there are entries
      exactly when the text holds a match. */
  lemma EntriesOfText(vocab: seq<string>, t: string)
    ensures forall n :: n in Names(Entries(vocab, t)) ==> n in vocab
    ensures Entries(vocab, t) == [] <==> NoMatchIn(vocab, t, 0, |t|)
  {
    var ms := Scan(vocab, t, 0);
    MatchListShape(vocab, t, 0, ms);
    ScanEmptyIff(vocab, t);
    var es := Entries(vocab, t);
    forall n | n in Names(es) ensures n in vocab {
      var k :| 0 <= k < |es| && es[k].name == n;
      assert ValidSpan(vocab, t, ms[k]);
    }
  }

  /** `cleanRoadmap(text)` over the vocabulary `vocab`, for a prefix-free
      vocabulary of plain labels (as the twelve labels are, by
      `LabelsPrefixFree` and `LabelsArePlain`): one section per label
      that has a match, all vocabulary words, in the order of their first
      match, each holding that label's cleaned contents joined with a blank
      line; no section at all exactly when the text holds no match. */
  function SectionsOf(vocab: seq<string>, t: string): (secs: seq<Section>)
    ensures forall i :: 0 <= i < |secs| ==> secs[i].name in vocab
    ensures IsMergeOf(Entries(vocab, t), secs)
    ensures secs == [] <==> NoMatchIn(vocab, t, 0, |t|)
  {
    var es := Entries(vocab, t);
    EntriesOfText(vocab, t);
    Merge(es)
  }

  /** `cleanRoadmap` itself, over the fixed twelve-label vocabulary. */
  function CleanRoadmap(t: string): (secs: seq<Section>)
    ensures forall i :: 0 <= i < |secs| ==> secs[i].name in Labels
    ensures IsMergeOf(Entries(Labels, t), secs)
    ensures secs == [] <==> NoMatchIn(Labels, t, 0, |t|)
  {
    SectionsOf(Labels, t)
  }

  /** A single entry merges into a single section with its content. */
  lemma MergeOne(name: string, c: string)
    ensures Merge([Entry(name, c)]) == [Section(name, c)]
  {
    var es := [Entry(name, c)];
    assert es == [] + es;
    AppendNames([], Entry(name, c));
    AppendContents([], Entry(name, c));
    MergeOfOneLabel(es, Merge(es), name);
  }

  /** Two entries with different labels stay two sections, in order. */
  lemma MergeDistinct(a: string, b: string, c1: string, c2: string)
    requires a != b
    ensures Merge([Entry(a, c1), Entry(b, c2)]) == [Section(a, c1), Section(b, c2)]
  {
    var es := [Entry(a, c1), Entry(b, c2)];
    TwoEntries(a, b, c1, c2);
    MergeOfTwoLabels(es, Merge(es), a, b);
  }

  /** The entries A, B as a list built one entry at a time. */
  lemma TwoEntries(a: string, b: string, c1: string, c2: string)
    requires a != b
    ensures var es := [Entry(a, c1), Entry(b, c2)];
      && Names(es) == {a, b}
      && FirstIndex(es, a) == 0 && FirstIndex(es, b) == 1
      && ContentsOf(es, a) == [c1] && ContentsOf(es, b) == [c2]
  {
    var e1, e2 := Entry(a, c1), Entry(b, c2);
    assert [e1, e2] == [e1] + [e2] && [e1] == [] + [e1];
    AppendFirstIndex([], e1);
    AppendFirstIndex([e1], e2);
    AppendContents([], e1);
    AppendContents([e1], e2);
  }

  /** Two matches of one label, C1 then C2, merge into one section holding
      `C1 + "\n\n" + C2`. */
  lemma MergeTwo(name: string, c1: string, c2: string)
    ensures Merge([Entry(name, c1), Entry(name, c2)]) == [Section(name, c1 + "\n\n" + c2)]
  {
    var e1, e2 := Entry(name, c1), Entry(name, c2);
    var es := [e1, e2];
    assert es == [e1] + [e2] && [e1] == [] + [e1];
    AppendNames([e1], e2);
    AppendNames([], e1);
    AppendContents([e1], e2);
    AppendContents([], e1);
    assert ContentsOf(es, name) == [c1, c2];
    JoinTwo(c1, c2, BlankLine);
    MergeOfOneLabel(es, Merge(es), name);
  }

  /** The entries A, B, A as a list built one entry at a time. */
  lemma ThreeEntries(a: string, b: string, c1: string, c2: string, c3: string)
    requires a != b
    ensures var es := [Entry(a, c1), Entry(b, c2), Entry(a, c3)];
      && Names(es) == {a, b}
      && FirstIndex(es, a) == 0 && FirstIndex(es, b) == 1
      && ContentsOf(es, a) == [c1, c3] && ContentsOf(es, b) == [c2]
  {
    var e1, e2, e3 := Entry(a, c1), Entry(b, c2), Entry(a, c3);
    var es := [e1, e2, e3];
    assert es == [e1, e2] + [e3] && [e1, e2] == [e1] + [e2] && [e1] == [] + [e1];
    AppendFirstIndex([], e1);
    AppendFirstIndex([e1], e2);
    AppendFirstIndex([e1, e2], e3);
    AppendContents([], e1);
    AppendContents([e1], e2);
    AppendContents([e1, e2], e3);
  }

  /** Sections with distinct labels drawn from {A, B}, both present, A's
      before B's, are exactly A's and then B's. */
  lemma TwoSections(secs: seq<Section>, a: string, b: string, i: nat, j: nat)
    requires forall x, y :: 0 <= x < y < |secs| ==> secs[x].name != secs[y].name
    requires forall x :: 0 <= x < |secs| ==> secs[x].name in {a, b}
    requires i < j < |secs| && secs[i].name == a && secs[j].name == b
    ensures |secs| == 2 && secs[0].name == a && secs[1].name == b
  {
    assert secs[0].name in {a, b} && secs[1].name in {a, b} && secs[|secs| - 1].name in {a, b};
  }

  /** Over two labels, first seen in the order A then B, a merge holds
      exactly A's section and then B's. */
  lemma MergeOfTwoLabels(es: seq<Entry>, secs: seq<Section>, a: string, b: string)
    requires IsMergeOf(es, secs)
    requires a != b && Names(es) == {a, b}
    requires FirstIndex(es, a) < FirstIndex(es, b)
    ensures secs == [Section(a, Join(ContentsOf(es, a), BlankLine)), Section(b, Join(ContentsOf(es, b), BlankLine))]
  {
    var i := SectionFor(es, secs, a);
    var j := SectionFor(es, secs, b);
    MergeFollowsFirstSeen(es, secs, i, j);
    MergeNamesIn(es, secs, a, b);
    TwoSections(secs, a, b, i, j);
  }

  /** Every label with an entry has its section in a merge. */
  lemma SectionFor(es: seq<Entry>, secs: seq<Section>, name: string) returns (i: nat)
    requires IsMergeOf(es, secs) && name in Names(es)
    ensures i < |secs| && secs[i].name == name
  {
    i :| 0 <= i < |secs| && secs[i].name == name;
  }

  /** A merge over entries labelled A or B has only A and B sections. */
  lemma MergeNamesIn(es: seq<Entry>, secs: seq<Section>, a: string, b: string)
    requires IsMergeOf(es, secs) && Names(es) == {a, b}
    ensures forall x :: 0 <= x < |secs| ==> secs[x].name in {a, b}
  {
  }

  /** Entries that all carry one label merge into a single section. */
  lemma MergeOfOneLabel(es: seq<Entry>, secs: seq<Section>, name: string)
    requires IsMergeOf(es, secs) && Names(es) == {name}
    ensures secs == [Section(name, Join(ContentsOf(es, name), BlankLine))]
  {
    assert es != [] by { assert Names([]) == {}; }
    var i := SectionFor(es, secs, name);
    assert secs[0].name == name && secs[|secs| - 1].name == name;
    assert |secs| == 1;
    assert secs == [secs[0]];
  }

  /** In a merge, of two sections the one whose label was seen first comes
      first. */
  lemma MergeFollowsFirstSeen(es: seq<Entry>, secs: seq<Section>, i: nat, j: nat)
    requires IsMergeOf(es, secs)
    requires i < |secs| && j < |secs|
    requires FirstIndex(es, secs[i].name) < FirstIndex(es, secs[j].name)
    ensures i < j
  {
  }

  /** Interleaved labels A, B, A give A's section first (holding both of A's
      contents) and B's second. */
  lemma MergeInterleaved(a: string, b: string, c1: string, c2: string, c3: string)
    requires a != b
    ensures Merge([Entry(a, c1), Entry(b, c2), Entry(a, c3)]) == [Section(a, c1 + "\n\n" + c3), Section(b, c2)]
  {
    var es := [Entry(a, c1), Entry(b, c2), Entry(a, c3)];
    ThreeEntries(a, b, c1, c2, c3);
    MergeOfTwoLabels(es, Merge(es), a, b);
    JoinTwo(c1, c3, BlankLine);
  }
}
