/** Worked inputs for `cleanRoadmap` (Frontend/src/App.jsx:59-80) over a
    two-word vocabulary, "Topics" and "Books"; like the twelve labels, the
    two words are prefix-free, so the scanner treats them as it treats the
    twelve-label vocabulary. */
module Scenarios {
  import opened Wrappers
  import opened Text
  import opened Scanner
  import opened Sections

  const Vocab: seq<string> := ["Topics", "Books"]

  /** A word cannot occur where its first character does not. */
  lemma FirstCharDiffers(t: string, i: nat, w: string)
    requires w != [] && i < |t| && t[i] != w[0]
    ensures !OccursAt(t, i, w)
  {
  }

  /** Where the two words occur in "Topics: Read Books daily": "Topics" at
      0 and "Books" at 13, nothing anywhere else. */
  lemma BareWordLabels()
    ensures LabelAt(Vocab, "Topics: Read Books daily", 0) == Some("Topics")
    ensures LabelAt(Vocab, "Topics: Read Books daily", 13) == Some("Books")
    ensures forall k :: 0 < k < 24 && k != 13 ==> LabelAt(Vocab, "Topics: Read Books daily", k) == None
  {
    var t := "Topics: Read Books daily";
    assert OccursAt(t, 0, "Topics");
    assert OccursAt(t, 13, "Books");
    FirstCharDiffers(t, 13, "Topics");
    forall k | 0 < k < |t| && k != 13 ensures LabelAt(Vocab, t, k) == None {
      FirstCharDiffers(t, k, "Topics");
      FirstCharDiffers(t, k, "Books");
    }
  }

  /** The match at 0 and the empty rest after it. */
  lemma BareWordSpan()
    ensures ValidSpan(Vocab, "Topics: Read Books daily", Span("Topics", 0, 7, 13))
    ensures IsMatchList(Vocab, "Topics: Read Books daily", 13, [])
  {
    var t := "Topics: Read Books daily";
    BareWordLabels();
    assert t[18] != ':';
    assert forall k :: 7 < k < 13 ==> !IsBoundary(Vocab, t, k);
  }

  /** A vocabulary word inside the content ends the match even without a
      colon after it, and the text from that word on belongs to no match:
      "Topics: Read Books daily" yields the single match from 0 to 13, whose
      content is " Read ". */
  lemma BareWordCutsContent()
    ensures Scan(Vocab, "Topics: Read Books daily", 0) == [Span("Topics", 0, 7, 13)]
  {
    var t := "Topics: Read Books daily";
    var sp := Span("Topics", 0, 7, 13);
    BareWordSpan();
    assert [sp][1..] == [];
    assert IsMatchList(Vocab, t, 0, [sp]);
    MatchListUnique(Vocab, t, 0, Scan(Vocab, t, 0), [sp]);
  }

  /** Cleaning " Read " trims it to "Read". */
  lemma CleanRead()
    ensures Clean(" Read ") == "Read"
  {
    TrimRead();
    assert NoEmphasisPair("Read");
  }

  lemma TrimRead()
    ensures Trim(" Read ") == "Read"
  {
    assert TrimStart(" Read ") == 1;
    assert TrimEnd("Read ") == 4;
  }

  /** The one entry of "Topics: Read Books daily", before cleaning is worked
      out. */
  lemma BareWordRawEntries()
    ensures Entries(Vocab, "Topics: Read Books daily") ==
              [Entry("Topics", Clean(Content("Topics: Read Books daily", Span("Topics", 0, 7, 13))))]
  {
    BareWordCutsContent();
    SingleMatchEntry(Vocab, "Topics: Read Books daily", Span("Topics", 0, 7, 13));
  }

  /** The one entry of "Topics: Read Books daily". */
  lemma BareWordEntries()
    ensures Entries(Vocab, "Topics: Read Books daily") == [Entry("Topics", "Read")]
  {
    BareWordRawEntries();
    BareWordContent();
    CleanRead();
  }

  /** The capture of "Topics: Read Books daily". */
  lemma BareWordContent()
    ensures Content("Topics: Read Books daily", Span("Topics", 0, 7, 13)) == " Read "
  {
  }

  /** The same text as sections: "Books daily" is lost. */
  lemma BareWordDropsText()
    ensures SectionsOf(Vocab, "Topics: Read Books daily") == [Section("Topics", "Read")]
  {
    BareWordEntries();
    MergeOne("Topics", "Read");
  }

  /** "Topics: \nBooks: x" holds two matches: the first captures the
      whitespace " \n" up to "Books", the second " x" up to the end. */
  lemma TwoMatches()
    ensures Scan(Vocab, "Topics: \nBooks: x", 0) == [Span("Topics", 0, 7, 9), Span("Books", 9, 15, 17)]
  {
    var t := "Topics: \nBooks: x";
    var sp1, sp2 := Span("Topics", 0, 7, 9), Span("Books", 9, 15, 17);
    TwoMatchesSpans();
    assert [sp2][1..] == [];
    assert IsMatchList(Vocab, t, 9, [sp2]);
    assert [sp1, sp2][1..] == [sp2];
    assert IsMatchList(Vocab, t, 0, [sp1, sp2]);
    MatchListUnique(Vocab, t, 0, Scan(Vocab, t, 0), [sp1, sp2]);
  }

  /** Where the two words occur in "Topics: \nBooks: x": "Topics" at 0 and
      "Books" at 9, nothing anywhere else. */
  lemma TwoMatchesLabels()
    ensures LabelAt(Vocab, "Topics: \nBooks: x", 0) == Some("Topics")
    ensures LabelAt(Vocab, "Topics: \nBooks: x", 9) == Some("Books")
    ensures forall k :: 0 < k < 17 && k != 9 ==> LabelAt(Vocab, "Topics: \nBooks: x", k) == None
  {
    var t := "Topics: \nBooks: x";
    assert OccursAt(t, 0, "Topics");
    assert OccursAt(t, 9, "Books");
    FirstCharDiffers(t, 9, "Topics");
    forall k | 0 < k < |t| && k != 9 ensures LabelAt(Vocab, t, k) == None {
      FirstCharDiffers(t, k, "Topics");
      FirstCharDiffers(t, k, "Books");
    }
  }

  /** The two matches of "Topics: \nBooks: x" and the empty rest. */
  lemma TwoMatchesSpans()
    ensures ValidSpan(Vocab, "Topics: \nBooks: x", Span("Topics", 0, 7, 9))
    ensures ValidSpan(Vocab, "Topics: \nBooks: x", Span("Books", 9, 15, 17))
    ensures IsMatchList(Vocab, "Topics: \nBooks: x", 17, [])
  {
    TwoMatchesLabels();
  }

  /** Cleaning the whitespace " \n" leaves "". */
  lemma CleanBlank()
    ensures Clean(" \n") == ""
  {
    assert AllWhitespace(" \n");
  }

  /** Cleaning " x" trims it to "x". */
  lemma CleanX()
    ensures Clean(" x") == "x"
  {
    assert TrimStart(" x") == 1;
    assert TrimEnd("x") == 1;
    assert Trim(" x") == "x";
    assert NoEmphasisPair("x");
  }

  /** The entries of "Topics: \nBooks: x", before cleaning is worked out. */
  lemma TwoMatchesRawEntries()
    ensures Entries(Vocab, "Topics: \nBooks: x") ==
              [Entry("Topics", Clean(Content("Topics: \nBooks: x", Span("Topics", 0, 7, 9)))),
               Entry("Books", Clean(Content("Topics: \nBooks: x", Span("Books", 9, 15, 17))))]
  {
    TwoMatches();
    TwoMatchEntries(Vocab, "Topics: \nBooks: x", Span("Topics", 0, 7, 9), Span("Books", 9, 15, 17));
  }

  /** The two captures of "Topics: \nBooks: x". */
  lemma TwoMatchesContents()
    ensures Content("Topics: \nBooks: x", Span("Topics", 0, 7, 9)) == " \n"
    ensures Content("Topics: \nBooks: x", Span("Books", 9, 15, 17)) == " x"
  {
  }

  /** The entries of "Topics: \nBooks: x": the whitespace-only capture
      becomes an empty entry. */
  lemma TwoMatchesEntries()
    ensures Entries(Vocab, "Topics: \nBooks: x") == [Entry("Topics", ""), Entry("Books", "x")]
  {
    TwoMatchesRawEntries();
    TwoMatchesContents();
    CleanBlank();
    CleanX();
  }

  /** A whitespace-only capture is kept as an empty section rather than
      dropped: "Topics: \nBooks: x" gives "Topics" with "" and then "Books"
      with "x". */
  lemma WhitespaceSpanKept()
    ensures SectionsOf(Vocab, "Topics: \nBooks: x") == [Section("Topics", ""), Section("Books", "x")]
  {
    TwoMatchesEntries();
    MergeDistinct("Topics", "Books", "", "x");
  }

  /** Where the two words occur in "Topics:Books:x": "Topics" at 0 and
      "Books" at 7, nothing anywhere else. */
  lemma SwallowedLabels()
    ensures LabelAt(Vocab, "Topics:Books:x", 0) == Some("Topics")
    ensures LabelAt(Vocab, "Topics:Books:x", 7) == Some("Books")
    ensures forall k :: 0 < k < 14 && k != 7 ==> LabelAt(Vocab, "Topics:Books:x", k) == None
  {
    var t := "Topics:Books:x";
    assert OccursAt(t, 0, "Topics");
    assert OccursAt(t, 7, "Books");
    FirstCharDiffers(t, 7, "Topics");
    forall k | 0 < k < |t| && k != 7 ensures LabelAt(Vocab, t, k) == None {
      FirstCharDiffers(t, k, "Topics");
      FirstCharDiffers(t, k, "Books");
    }
  }

  /** The one match of "Topics:Books:x" runs from 0 to the end of the text. */
  lemma SwallowedScan()
    ensures Scan(Vocab, "Topics:Books:x", 0) == [Span("Topics", 0, 7, 14)]
  {
    var t := "Topics:Books:x";
    var sp := Span("Topics", 0, 7, 14);
    SwallowedLabels();
    assert ValidSpan(Vocab, t, sp);
    assert [sp][1..] == [];
    assert IsMatchList(Vocab, t, 0, [sp]);
    MatchListUnique(Vocab, t, 0, Scan(Vocab, t, 0), [sp]);
  }

  /** Cleaning "Books:x" leaves it as it is. */
  lemma CleanBooksX()
    ensures Clean("Books:x") == "Books:x"
  {
    TrimNoOp("Books:x");
    assert NoEmphasisPair("Books:x");
  }

  /** The entry of "Topics:Books:x", before cleaning is worked out. */
  lemma SwallowedRawEntries()
    ensures Entries(Vocab, "Topics:Books:x") ==
              [Entry("Topics", Clean(Content("Topics:Books:x", Span("Topics", 0, 7, 14))))]
  {
    SwallowedScan();
    SingleMatchEntry(Vocab, "Topics:Books:x", Span("Topics", 0, 7, 14));
  }

  /** The capture of "Topics:Books:x". */
  lemma SwallowedContent()
    ensures Content("Topics:Books:x", Span("Topics", 0, 7, 14)) == "Books:x"
  {
  }

  /** The entry of "Topics:Books:x". */
  lemma SwallowedEntries()
    ensures Entries(Vocab, "Topics:Books:x") == [Entry("Topics", "Books:x")]
  {
    SwallowedRawEntries();
    SwallowedContent();
    CleanBooksX();
  }

  /** A label right after another label's colon is swallowed into that
      label's content: "Topics:Books:x" gives the single section "Topics"
      with "Books:x", and no "Books" section. */
  lemma LabelAfterColonSwallowed()
    ensures SectionsOf(Vocab, "Topics:Books:x") == [Section("Topics", "Books:x")]
  {
    SwallowedEntries();
    MergeOne("Topics", "Books:x");
  }

  /** The text a list of sections reads back as: each label, `:` and its
      content, concatenated. */
  function Reassemble(secs: seq<Section>): string {
    if secs == [] then "" else secs[0].name + ":" + secs[0].content + Reassemble(secs[1..])
  }

  /** The two sections of "Topics: \nBooks: x", reassembled. */
  lemma ReassembleTwo()
    ensures Reassemble([Section("Topics", ""), Section("Books", "x")]) == "Topics:Books:x"
  {
    var secs := [Section("Topics", ""), Section("Books", "x")];
    assert secs[1..] == [Section("Books", "x")];
    assert secs[1..][1..] == [];
  }

  /** Parsing the reassembled sections does not give the sections back: the
      empty "Topics" section of "Topics: \nBooks: x" reassembles to
      "Topics:Books:x", which parses as one section. */
  lemma ReparseMergesSections()
    ensures var secs := SectionsOf(Vocab, "Topics: \nBooks: x");
      && Reassemble(secs) == "Topics:Books:x"
      && SectionsOf(Vocab, Reassemble(secs)) == [Section("Topics", "Books:x")]
      && SectionsOf(Vocab, Reassemble(secs)) != secs
  {
    WhitespaceSpanKept();
    ReassembleTwo();
    LabelAfterColonSwallowed();
  }

  /** The one match of "Topics: _**_" runs from 0 to the end of the text. */
  lemma EmphasisScan()
    ensures Scan(Vocab, "Topics: _**_", 0) == [Span("Topics", 0, 7, 12)]
  {
    var t := "Topics: _**_";
    var sp := Span("Topics", 0, 7, 12);
    assert OccursAt(t, 0, "Topics");
    forall k | 0 < k < |t| ensures LabelAt(Vocab, t, k) == None {
      FirstCharDiffers(t, k, "Topics");
      FirstCharDiffers(t, k, "Books");
    }
    assert ValidSpan(Vocab, t, sp);
    assert [sp][1..] == [];
    assert IsMatchList(Vocab, t, 0, [sp]);
    MatchListUnique(Vocab, t, 0, Scan(Vocab, t, 0), [sp]);
  }

  /** The entry of "Topics: _**_", before cleaning is worked out. */
  lemma EmphasisRawEntries()
    ensures Entries(Vocab, "Topics: _**_") ==
              [Entry("Topics", Clean(Content("Topics: _**_", Span("Topics", 0, 7, 12))))]
  {
    EmphasisScan();
    SingleMatchEntry(Vocab, "Topics: _**_", Span("Topics", 0, 7, 12));
  }

  /** The capture of "Topics: _**_". */
  lemma EmphasisContent()
    ensures Content("Topics: _**_", Span("Topics", 0, 7, 12)) == " _**_"
  {
  }

  /** Cleaning " _**_" removes the inner pair and leaves "__". */
  lemma CleanEmphasis()
    ensures Clean(" _**_") == "__"
  {
    assert TrimStart(" _**_") == 1;
    assert TrimEnd("_**_") == 4;
    assert Trim(" _**_") == "_**_";
    StripEmphasisNotIdempotent();
    TrimNoOp("__");
  }

  /** The sections of "Topics: _**_". */
  lemma EmphasisSections()
    ensures SectionsOf(Vocab, "Topics: _**_") == [Section("Topics", "__")]
  {
    EmphasisRawEntries();
    EmphasisContent();
    CleanEmphasis();
    MergeOne("Topics", "__");
  }

  /** The one match of "Topics:__" runs from 0 to the end of the text. */
  lemma BareMarkersScan()
    ensures Scan(Vocab, "Topics:__", 0) == [Span("Topics", 0, 7, 9)]
  {
    var t := "Topics:__";
    var sp := Span("Topics", 0, 7, 9);
    assert OccursAt(t, 0, "Topics");
    forall k | 0 < k < |t| ensures LabelAt(Vocab, t, k) == None {
      FirstCharDiffers(t, k, "Topics");
      FirstCharDiffers(t, k, "Books");
    }
    assert ValidSpan(Vocab, t, sp);
    assert [sp][1..] == [];
    assert IsMatchList(Vocab, t, 0, [sp]);
    MatchListUnique(Vocab, t, 0, Scan(Vocab, t, 0), [sp]);
  }

  /** The entry of "Topics:__", before cleaning is worked out. */
  lemma BareMarkersRawEntries()
    ensures Entries(Vocab, "Topics:__") ==
              [Entry("Topics", Clean(Content("Topics:__", Span("Topics", 0, 7, 9))))]
  {
    BareMarkersScan();
    SingleMatchEntry(Vocab, "Topics:__", Span("Topics", 0, 7, 9));
  }

  /** The capture of "Topics:__". */
  lemma BareMarkersContent()
    ensures Content("Topics:__", Span("Topics", 0, 7, 9)) == "__"
  {
  }

  /** Cleaning "__" removes it. */
  lemma CleanBareMarkers()
    ensures Clean("__") == ""
  {
    TrimNoOp("__");
    StripEmphasisNotIdempotent();
    assert Trim("") == "";
  }

  /** The sections of "Topics:__". */
  lemma BareMarkersSections()
    ensures SectionsOf(Vocab, "Topics:__") == [Section("Topics", "")]
  {
    BareMarkersRawEntries();
    BareMarkersContent();
    CleanBareMarkers();
    MergeOne("Topics", "");
  }

  /** The section of "Topics: _**_", reassembled. */
  lemma ReassembleOne()
    ensures Reassemble([Section("Topics", "__")]) == "Topics:__"
  {
    assert [Section("Topics", "__")][1..] == [];
  }

  /** The removal of doubled markers is one pass, so parsing the reassembled
      sections removes more: "Topics: _**_" gives "Topics" with "__", which
      reassembles to "Topics:__" and parses as "Topics" with "". */
  lemma ReparseStripsAgain()
    ensures var secs := SectionsOf(Vocab, "Topics: _**_");
      && secs == [Section("Topics", "__")]
      && Reassemble(secs) == "Topics:__"
      && SectionsOf(Vocab, Reassemble(secs)) == [Section("Topics", "")]
  {
    EmphasisSections();
    ReassembleOne();
    BareMarkersSections();
  }
}
