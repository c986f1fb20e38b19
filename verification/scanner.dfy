/** The section scanner of `cleanRoadmap` (Frontend/src/App.jsx:60-66): a
    hand-written equivalent of the global, lazy pattern
    `(L1|...|L12):([\s\S]+?)(?=L1|...|L12|$)` run with `matchAll`.

    A match starts at the leftmost position at or after the resume point where
    a vocabulary label occurs, followed by `:` and at least one more
    character.  Its content then runs up to the first later position where any
    vocabulary label occurs (colon or not), or to the end of the text, and the
    search resumes there. */
module Scanner {
  import opened Wrappers

  /** The fixed, case-sensitive label vocabulary, in alternation order. */
  const Labels: seq<string> := [
    "Assumptions", "Roadmap Structure", "Goal", "Topics", "Exercises",
    "Online", "Resources", "Books", "Important Notes",
    "Contribute to Open Source Projects", "Activities", "Milestone"
  ]

  /** `w` occurs in `t` starting at position `i`. */
  predicate OccursAt(t: string, i: nat, w: string) {
    i + |w| <= |t| && t[i..i + |w|] == w
  }

  /** The first word of `vocab[k..]` that occurs at `i`. */
  function FirstLabelFrom(vocab: seq<string>, t: string, i: nat, k: nat): (r: Option<string>)
    requires k <= |vocab|
    ensures r.Some? ==> r.value in vocab[k..] && OccursAt(t, i, r.value)
    ensures r.None? ==> forall j :: k <= j < |vocab| ==> !OccursAt(t, i, vocab[j])
    decreases |vocab| - k
  {
    if k == |vocab| then None
    else if OccursAt(t, i, vocab[k]) then Some(vocab[k])
    else FirstLabelFrom(vocab, t, i, k + 1)
  }

  /** The label the alternation picks at position `i`: the first one of the
      vocabulary, in list order, that occurs there. */
  function LabelAt(vocab: seq<string>, t: string, i: nat): (r: Option<string>)
    ensures r.Some? ==> r.value in vocab && OccursAt(t, i, r.value)
    ensures r.None? ==> forall w :: w in vocab ==> !OccursAt(t, i, w)
  {
    FirstLabelFrom(vocab, t, i, 0)
  }

  /** The lookahead `(?=L1|...|L12|$)` succeeds at position `j`. */
  predicate IsBoundary(vocab: seq<string>, t: string, j: nat) {
    j == |t| || LabelAt(vocab, t, j).Some?
  }

  /** The whole pattern matches at position `i`: a label, a colon, and at
      least one character of content. */
  predicate MatchesAt(vocab: seq<string>, t: string, i: nat) {
    && LabelAt(vocab, t, i).Some?
    && i + |LabelAt(vocab, t, i).value| + 1 < |t|
    && t[i + |LabelAt(vocab, t, i).value|] == ':'
  }

  /** No match starts in the positions `a` to `b - 1`. */
  predicate NoMatchIn(vocab: seq<string>, t: string, a: nat, b: nat) {
    forall i :: a <= i < b ==> !MatchesAt(vocab, t, i)
  }

  /** One match: the label `name` at `start`, a colon, and the captured content
      `t[contentStart..end]`. */
  datatype Span = Span(name: string, start: nat, contentStart: nat, end: nat)

  /** `sp` is exactly the match the pattern produces when it matches at
      `sp.start`: the content is non-empty, ends at a boundary, and the lazy
      quantifier passes no boundary before that. */
  predicate ValidSpan(vocab: seq<string>, t: string, sp: Span) {
    && sp.start < sp.contentStart < sp.end <= |t|
    && LabelAt(vocab, t, sp.start) == Some(sp.name)
    && sp.contentStart == sp.start + |sp.name| + 1
    && t[sp.start + |sp.name|] == ':'
    && IsBoundary(vocab, t, sp.end)
    && forall k :: sp.contentStart < k < sp.end ==> !IsBoundary(vocab, t, k)
  }

  function Content(t: string, sp: Span): string
    requires sp.contentStart <= sp.end <= |t|
  {
    t[sp.contentStart..sp.end]
  }

  /** The leftmost match start at or after `p`, if any. */
  function NextMatch(vocab: seq<string>, t: string, p: nat): (r: Option<nat>)
    requires p <= |t|
    ensures r.Some? ==> p <= r.value < |t| && MatchesAt(vocab, t, r.value) && NoMatchIn(vocab, t, p, r.value)
    ensures r.None? ==> NoMatchIn(vocab, t, p, |t|)
    decreases |t| - p
  {
    if p == |t| then None
    else if MatchesAt(vocab, t, p) then Some(p)
    else NextMatch(vocab, t, p + 1)
  }

  /** The first boundary at or after `j`. */
  function BoundaryFrom(vocab: seq<string>, t: string, j: nat): (e: nat)
    requires j <= |t|
    ensures j <= e <= |t| && IsBoundary(vocab, t, e)
    ensures forall k :: j <= k < e ==> !IsBoundary(vocab, t, k)
    decreases |t| - j
  {
    if IsBoundary(vocab, t, j) then j else BoundaryFrom(vocab, t, j + 1)
  }

  /** The match at a position where the pattern matches: one content
      character, then the lazy extension to the next boundary. */
  function SpanAt(vocab: seq<string>, t: string, i: nat): (sp: Span)
    requires MatchesAt(vocab, t, i)
    ensures sp.start == i && ValidSpan(vocab, t, sp)
  {
    var name := LabelAt(vocab, t, i).value;
    var contentStart := i + |name| + 1;
    Span(name, i, contentStart, BoundaryFrom(vocab, t, contentStart + 1))
  }

  /** `ms` is the list of matches `matchAll` yields from position `p`: empty
      exactly when no match starts at or after `p`; otherwise its head is the
      match at the leftmost match start, and its tail is the list from where
      that match ends. */
  predicate IsMatchList(vocab: seq<string>, t: string, p: nat, ms: seq<Span>)
    decreases |ms|
  {
    if ms == [] then p <= |t| && NoMatchIn(vocab, t, p, |t|)
    else
      && p <= ms[0].start
      && NoMatchIn(vocab, t, p, ms[0].start)
      && ValidSpan(vocab, t, ms[0])
      && IsMatchList(vocab, t, ms[0].end, ms[1..])
  }

  /** `matchAll` from position `p`. */
  function Scan(vocab: seq<string>, t: string, p: nat): (ms: seq<Span>)
    requires p <= |t|
    ensures IsMatchList(vocab, t, p, ms)
    decreases |t| - p
  {
    match NextMatch(vocab, t, p)
    case None => []
    case Some(i) =>
      var sp := SpanAt(vocab, t, i);
      var rest := Scan(vocab, t, sp.end);
      assert ([sp] + rest)[1..] == rest;
      [sp] + rest
  }

  /** Two matches that both start at the leftmost match start after `p` are
      the same match. */
  lemma LeftmostSpanUnique(vocab: seq<string>, t: string, p: nat, a: Span, b: Span)
    requires ValidSpan(vocab, t, a) && p <= a.start && NoMatchIn(vocab, t, p, a.start)
    requires ValidSpan(vocab, t, b) && p <= b.start && NoMatchIn(vocab, t, p, b.start)
    ensures a == b
  {
    assert MatchesAt(vocab, t, a.start) && MatchesAt(vocab, t, b.start);
    assert a.start == b.start;
    assert IsBoundary(vocab, t, a.end) && IsBoundary(vocab, t, b.end);
  }

  /** The match list is unique: the scan is the only list of matches that
      starts each match at the leftmost possible position. */
  lemma {:induction false} MatchListUnique(vocab: seq<string>, t: string, p: nat, ms: seq<Span>, ns: seq<Span>)
    requires IsMatchList(vocab, t, p, ms) && IsMatchList(vocab, t, p, ns)
    ensures ms == ns
    decreases |ms|
  {
    if ms != [] {
      HeadMatches(vocab, t, p, ms);
    }
    if ns != [] {
      HeadMatches(vocab, t, p, ns);
    }
    if ms != [] && ns != [] {
      var a, b := ms[0], ns[0];
      LeftmostSpanUnique(vocab, t, p, a, b);
      MatchListUnique(vocab, t, a.end, ms[1..], ns[1..]);
      assert ms == [a] + ms[1..] && ns == [b] + ns[1..];
    }
  }

  /** The head of a non-empty match list is a match start at or after `p`. */
  lemma HeadMatches(vocab: seq<string>, t: string, p: nat, ms: seq<Span>)
    requires IsMatchList(vocab, t, p, ms) && ms != []
    ensures p <= ms[0].start < |t| && MatchesAt(vocab, t, ms[0].start)
  {
  }

  /** The scan read as a whole: every span is a genuine match starting at or
      after `p`, the spans are in text order and do not overlap, and no match
      start was skipped before the first span, between two spans or after the
      last one. */
  lemma MatchListShape(vocab: seq<string>, t: string, p: nat, ms: seq<Span>)
    requires IsMatchList(vocab, t, p, ms)
    ensures forall k :: 0 <= k < |ms| ==> ValidSpan(vocab, t, ms[k]) && p <= ms[k].start
    ensures forall k :: 0 < k < |ms| ==> ms[k - 1].end <= ms[k].start
    ensures |ms| > 0 ==> NoMatchIn(vocab, t, p, ms[0].start)
    ensures forall k :: 0 < k < |ms| ==> NoMatchIn(vocab, t, ms[k - 1].end, ms[k].start)
    ensures ms == [] ==> NoMatchIn(vocab, t, p, |t|)
    ensures ms != [] ==> NoMatchIn(vocab, t, ms[|ms| - 1].end, |t|)
  {
    MatchListSpans(vocab, t, p, ms);
    MatchListGaps(vocab, t, p, ms);
    MatchListEnd(vocab, t, p, ms);
  }

  /** Every span of a match list is a genuine match at or after `p`. */
  lemma {:induction false} MatchListSpans(vocab: seq<string>, t: string, p: nat, ms: seq<Span>)
    requires IsMatchList(vocab, t, p, ms)
    ensures forall k :: 0 <= k < |ms| ==> ValidSpan(vocab, t, ms[k]) && p <= ms[k].start
    decreases |ms|
  {
    if ms != [] {
      var rest := ms[1..];
      MatchListSpans(vocab, t, ms[0].end, rest);
      forall k | 0 < k < |ms| ensures ValidSpan(vocab, t, ms[k]) && p <= ms[k].start {
        assert ms[k] == rest[k - 1];
      }
    }
  }

  /** The spans of a match list are in text order, and no match start is
      skipped before the first or between two of them. */
  lemma {:induction false} MatchListGaps(vocab: seq<string>, t: string, p: nat, ms: seq<Span>)
    requires IsMatchList(vocab, t, p, ms)
    ensures |ms| > 0 ==> NoMatchIn(vocab, t, p, ms[0].start)
    ensures forall k :: 0 < k < |ms| ==> ms[k - 1].end <= ms[k].start && NoMatchIn(vocab, t, ms[k - 1].end, ms[k].start)
    decreases |ms|
  {
    if ms != [] {
      var rest := ms[1..];
      MatchListGaps(vocab, t, ms[0].end, rest);
      forall k | 0 < k < |ms|
        ensures ms[k - 1].end <= ms[k].start && NoMatchIn(vocab, t, ms[k - 1].end, ms[k].start)
      {
        assert ms[k] == rest[k - 1];
        if k > 1 {
          assert ms[k - 1] == rest[k - 2];
        }
      }
    }
  }

  /** No match starts after the last span of a match list. */
  lemma {:induction false} MatchListEnd(vocab: seq<string>, t: string, p: nat, ms: seq<Span>)
    requires IsMatchList(vocab, t, p, ms)
    ensures ms == [] ==> NoMatchIn(vocab, t, p, |t|)
    ensures ms != [] ==> NoMatchIn(vocab, t, ms[|ms| - 1].end, |t|)
    decreases |ms|
  {
    if ms != [] {
      var rest := ms[1..];
      MatchListEnd(vocab, t, ms[0].end, rest);
      if rest != [] {
        assert ms[|ms| - 1] == rest[|rest| - 1];
      }
    }
  }

  /** A text yields no match exactly when no position holds a vocabulary
      word followed by `:` and at least one more character. */
  lemma ScanEmptyIff(vocab: seq<string>, t: string)
    ensures Scan(vocab, t, 0) == [] <==> NoMatchIn(vocab, t, 0, |t|)
  {
    var ms := Scan(vocab, t, 0);
    MatchListShape(vocab, t, 0, ms);
    if ms != [] {
      assert MatchesAt(vocab, t, ms[0].start);
    }
  }

  /** Every label's first two characters, in vocabulary order; all distinct. */
  const Initials: seq<string> := [
    "As", "Ro", "Go", "To", "Ex", "On", "Re", "Bo", "Im", "Co", "Ac", "Mi"
  ]

  /** No word of `vocab` is a proper prefix of another. */
  predicate PrefixFree(vocab: seq<string>) {
    forall v, w :: v in vocab && w in vocab && v <= w ==> v == w
  }

  /** No label in the vocabulary is a prefix of another, so at most one label
      occurs at any position and the alternation order does not matter. */
  lemma LabelsPrefixFree()
    ensures PrefixFree(Labels)
  {
    LabelsInitials();
    forall v, w | v in Labels && w in Labels && v <= w ensures v == w {
      var a :| 0 <= a < |Labels| && Labels[a] == v;
      var b :| 0 <= b < |Labels| && Labels[b] == w;
      assert Initials[a] == Initials[b];
    }
  }

  /** Every label starts with its entry of `Initials`. */
  lemma LabelsInitials()
    ensures |Labels| == |Initials|
    ensures forall k :: 0 <= k < |Labels| ==> |Labels[k]| >= 2 && Labels[k][..2] == Initials[k]
  {
  }

  /** Over a prefix-free vocabulary the label picked at a position is the one
      label occurring there, whatever the alternation order. */
  lemma LabelAtUnique(vocab: seq<string>, t: string, i: nat, w: string)
    requires PrefixFree(vocab)
    requires w in vocab && OccursAt(t, i, w)
    ensures LabelAt(vocab, t, i) == Some(w)
  {
    var v := LabelAt(vocab, t, i).value;
    var m := if |v| <= |w| then |v| else |w|;
    assert v[..m] == t[i..i + m] == w[..m];
  }

  /** The lookahead succeeds exactly at the end of the text and where some
      vocabulary word occurs, with or without a colon after it. */
  lemma BoundaryIff(vocab: seq<string>, t: string, j: nat)
    ensures IsBoundary(vocab, t, j) <==> j == |t| || exists w :: w in vocab && OccursAt(t, j, w)
  {
  }

  /** A match starts at `i` exactly when a vocabulary word occurs there with a
      colon and at least one more character after it; the converse needs a
      prefix-free vocabulary, because only the first word occurring at `i` is
      tried. */
  lemma MatchesAtIff(vocab: seq<string>, t: string, i: nat)
    ensures MatchesAt(vocab, t, i) ==>
      exists w :: w in vocab && OccursAt(t, i, w) && i + |w| + 1 < |t| && t[i + |w|] == ':'
    ensures PrefixFree(vocab) ==>
      (forall w :: w in vocab && OccursAt(t, i, w) && i + |w| + 1 < |t| && t[i + |w|] == ':' ==> MatchesAt(vocab, t, i))
  {
    if PrefixFree(vocab) {
      forall w | w in vocab && OccursAt(t, i, w) && i + |w| + 1 < |t| && t[i + |w|] == ':'
        ensures MatchesAt(vocab, t, i)
      {
        LabelAtUnique(vocab, t, i, w);
      }
    }
  }

  /** No vocabulary label contains a `-`. */
  lemma LabelsHaveNoDash()
    ensures forall w :: w in Labels ==> '-' !in w
  {
  }

  /** A text in which no vocabulary word is immediately followed by `:` has no
      match at all. */
  lemma NoLabelColonNoMatch(vocab: seq<string>, t: string)
    requires forall i, w :: 0 <= i && w in vocab && OccursAt(t, i, w) ==> i + |w| >= |t| || t[i + |w|] != ':'
    ensures Scan(vocab, t, 0) == []
  {
    forall i | 0 <= i < |t| ensures !MatchesAt(vocab, t, i) {
      if LabelAt(vocab, t, i).Some? {
        var w := LabelAt(vocab, t, i).value;
        assert OccursAt(t, i, w);
      }
    }
  }

  /** A match's content holds at least one character and no occurrence of
      any vocabulary word after its first character, whether a colon follows
      that word or not. */
  lemma ScanContentStops(vocab: seq<string>, t: string)
    ensures var ms := Scan(vocab, t, 0);
      && (forall k :: 0 <= k < |ms| ==> ms[k].contentStart < ms[k].end <= |t|)
      && (forall k, j, w :: 0 <= k < |ms| && ms[k].contentStart < j < ms[k].end && w in vocab ==> !OccursAt(t, j, w))
  {
    var ms := Scan(vocab, t, 0);
    MatchListShape(vocab, t, 0, ms);
    forall k | 0 <= k < |ms|
      ensures forall j, w :: ms[k].contentStart < j < ms[k].end && w in vocab ==> !OccursAt(t, j, w)
    {
      SpanContentStops(vocab, t, ms[k]);
    }
  }

  lemma SpanContentStops(vocab: seq<string>, t: string, sp: Span)
    requires ValidSpan(vocab, t, sp)
    ensures forall j, w :: sp.contentStart < j < sp.end && w in vocab ==> !OccursAt(t, j, w)
  {
    forall j, w | sp.contentStart < j < sp.end && w in vocab ensures !OccursAt(t, j, w) {
      assert !IsBoundary(vocab, t, j);
    }
  }

  /** A match's content ends at the end of the text or right before a
      vocabulary word. */
  lemma ScanContentEnds(vocab: seq<string>, t: string)
    ensures var ms := Scan(vocab, t, 0);
      forall k :: 0 <= k < |ms| && ms[k].end < |t| ==> exists w :: w in vocab && OccursAt(t, ms[k].end, w)
  {
    var ms := Scan(vocab, t, 0);
    MatchListShape(vocab, t, 0, ms);
    forall k | 0 <= k < |ms| && ms[k].end < |t|
      ensures exists w :: w in vocab && OccursAt(t, ms[k].end, w)
    {
      assert ValidSpan(vocab, t, ms[k]);
      var w := LabelAt(vocab, t, ms[k].end).value;
      assert w in vocab && OccursAt(t, ms[k].end, w);
    }
  }

  /** No match starts inside another match's content, not even where a
      vocabulary word and `:` follow right after that match's own colon: the
      content takes its first character before the lookahead is tried, so
      such a label is swallowed into the content. */
  lemma ScanSwallowsContent(vocab: seq<string>, t: string)
    ensures var ms := Scan(vocab, t, 0);
      forall k, m :: 0 <= k < |ms| && 0 <= m < |ms| ==> !(ms[k].contentStart <= ms[m].start < ms[k].end)
  {
    NoStartInContent(vocab, t, 0, Scan(vocab, t, 0));
  }

  lemma {:induction false} NoStartInContent(vocab: seq<string>, t: string, p: nat, ms: seq<Span>)
    requires IsMatchList(vocab, t, p, ms)
    ensures forall k, m :: 0 <= k < |ms| && 0 <= m < |ms| ==> !(ms[k].contentStart <= ms[m].start < ms[k].end)
    decreases |ms|
  {
    if ms != [] {
      var rest := ms[1..];
      NoStartInContent(vocab, t, ms[0].end, rest);
      MatchListSpans(vocab, t, ms[0].end, rest);
      forall k, m | 0 <= k < |ms| && 0 <= m < |ms|
        ensures !(ms[k].contentStart <= ms[m].start < ms[k].end)
      {
        if k > 0 {
          assert ms[k] == rest[k - 1];
        }
        if m > 0 {
          assert ms[m] == rest[m - 1];
        }
      }
    }
  }

  /** A vocabulary word followed by `:` at the very end of the text starts no
      match, since the content needs at least one character. */
  lemma TrailingLabelNoMatch(vocab: seq<string>, s: string, w: string)
    requires PrefixFree(vocab) && w in vocab
    ensures !MatchesAt(vocab, s + w + ":", |s|)
    ensures forall k :: 0 <= k < |Scan(vocab, s + w + ":", 0)| ==> Scan(vocab, s + w + ":", 0)[k].start != |s|
  {
    var t := s + w + ":";
    assert t[|s|..|s| + |w|] == w;
    LabelAtUnique(vocab, t, |s|, w);
    var ms := Scan(vocab, t, 0);
    MatchListShape(vocab, t, 0, ms);
    forall k | 0 <= k < |ms| ensures ms[k].start != |s| {
      assert ValidSpan(vocab, t, ms[k]);
    }
  }
}
