/** String utilities the roadmap view relies on, written out with JavaScript's
    semantics: `String.prototype.trim`, the global `**`/`__` removal,
    `split('\n')`, `Array.prototype.join` and the decimal rendering of an index
    inside a template literal. */
module Text {

  /** The characters JavaScript's `trim` removes: WhiteSpace (tab, vertical
      tab, form feed, space, no-break space, byte-order mark and the Zs
      category) and LineTerminator (LF, CR, LS, PS). */
  predicate IsWhitespace(c: char) {
    || c == '\t' || c == '\n' || c == '\U{B}' || c == '\U{C}' || c == '\r'
    || c == ' ' || c == '\U{A0}' || c == '\U{1680}'
    || ('\U{2000}' <= c <= '\U{200A}')
    || c == '\U{2028}' || c == '\U{2029}' || c == '\U{202F}' || c == '\U{205F}'
    || c == '\U{3000}' || c == '\U{FEFF}'
  }

  predicate AllWhitespace(s: string) {
    forall i :: 0 <= i < |s| ==> IsWhitespace(s[i])
  }

  /** Index of the first non-whitespace character (|s| when there is none). */
  function TrimStart(s: string): (a: nat)
    ensures a <= |s|
    ensures AllWhitespace(s[..a])
    ensures a < |s| ==> !IsWhitespace(s[a])
  {
    if s == [] || !IsWhitespace(s[0]) then 0
    else
      var a' := TrimStart(s[1..]);
      assert s[1..][..a'] == s[1..a' + 1];
      a' + 1
  }

  /** Index just past the last non-whitespace character (0 when there is none). */
  function TrimEnd(s: string): (b: nat)
    ensures b <= |s|
    ensures AllWhitespace(s[b..])
    ensures b > 0 ==> !IsWhitespace(s[b - 1])
  {
    if s == [] || !IsWhitespace(s[|s| - 1]) then |s|
    else
      var b' := TrimEnd(s[..|s| - 1]);
      assert s[b'..] == s[..|s| - 1][b'..] + [s[|s| - 1]];
      b'
  }

  /** JavaScript `s.trim()`: the infix left after removing leading and trailing
      whitespace. */
  function Trim(s: string): (r: string)
    ensures TrimStart(s) + |r| <= |s|
    ensures r == [] <==> AllWhitespace(s)
    ensures r == s[TrimStart(s)..TrimStart(s) + |r|]
    ensures AllWhitespace(s[TrimStart(s) + |r|..])
    ensures r != [] ==> !IsWhitespace(r[0]) && !IsWhitespace(r[|r| - 1])
  {
    var a := TrimStart(s);
    var rest := s[a..];
    assert s == s[..a] + rest;
    rest[..TrimEnd(rest)]
  }

  /** Trimming is idempotent. */
  lemma TrimIdempotent(s: string)
    ensures Trim(Trim(s)) == Trim(s)
  {
    var r := Trim(s);
    if r != [] {
      assert TrimStart(r) == 0;
      assert TrimEnd(r) == |r|;
    }
  }

  /** A string that neither starts nor ends with whitespace is its own trim. */
  lemma TrimNoOp(s: string)
    requires s != [] && !IsWhitespace(s[0]) && !IsWhitespace(s[|s| - 1])
    ensures Trim(s) == s
  {
    assert TrimStart(s) == 0;
    assert s[0..] == s;
    assert TrimEnd(s) == |s|;
  }

  predicate IsMarker(c: char) {
    c == '*' || c == '_'
  }

  /** True when `s` holds a doubled marker, `**` or `__`, at position `i`. */
  predicate PairAt(s: string, i: int) {
    0 <= i && i + 1 < |s| && IsMarker(s[i]) && s[i + 1] == s[i]
  }

  predicate NoEmphasisPair(s: string) {
    forall i :: 0 <= i < |s| ==> !PairAt(s, i)
  }

  /** The characters of `s` other than `*` and `_`, in order. */
  function Plain(s: string): (r: string)
    ensures |r| <= |s|
    ensures forall i :: 0 <= i < |r| ==> !IsMarker(r[i])
  {
    if s == [] then []
    else if IsMarker(s[0]) then Plain(s[1..])
    else [s[0]] + Plain(s[1..])
  }

  /** JavaScript `s.replace(/(\*\*|__)/g, '')`: one left-to-right pass that
      deletes non-overlapping `**` and `__` pairs.  The result keeps every
      other character in order, and it equals `s` exactly when `s` has no
      doubled marker. */
  function StripEmphasis(s: string): (r: string)
    ensures |r| <= |s|
    ensures Plain(r) == Plain(s)
    ensures r == s <==> NoEmphasisPair(s)
  {
    if |s| >= 2 && PairAt(s, 0) then
      var r := StripEmphasis(s[2..]);
      assert Plain(s) == Plain(s[2..]) by {
        assert s[1..][1..] == s[2..];
      }
      assert |r| < |s|;
      r
    else if s == [] then
      []
    else
      var r' := StripEmphasis(s[1..]);
      assert NoEmphasisPair(s) <==> NoEmphasisPair(s[1..]) by {
        if NoEmphasisPair(s[1..]) {
          forall i | 0 <= i < |s| ensures !PairAt(s, i) {
            if i > 0 { assert !PairAt(s[1..], i - 1); }
          }
        }
        if NoEmphasisPair(s) {
          forall i | 0 <= i < |s| - 1 ensures !PairAt(s[1..], i) {
            assert !PairAt(s, i + 1);
          }
        }
      }
      var r := [s[0]] + r';
      assert r[1..] == r';
      assert r == s <==> r' == s[1..];
      r
  }

  /** The emphasis removal is a single pass, not a fixpoint: removing one pair
      can bring two lone markers together. */
  lemma StripEmphasisNotIdempotent()
    ensures StripEmphasis("_**_") == "__"
    ensures StripEmphasis(StripEmphasis("_**_")) == ""
  {
    assert PairAt("_**_", 1);
    assert !PairAt("_**_", 0);
    assert "_**_"[1..] == "**_";
    assert "**_"[2..] == "_";
    assert PairAt("__", 0);
    assert "__"[2..] == "";
  }

  /** `ps` lists, in order, the pairs a left-to-right scan of `s` from `p`
      deletes: each is the leftmost pair at or after the end of the one before,
      no pair is skipped, and none starts after the last. */
  predicate IsPairList(s: string, p: nat, ps: seq<nat>)
    decreases ps
  {
    if ps == [] then forall i :: p <= i < |s| ==> !PairAt(s, i)
    else
      && p <= ps[0]
      && PairAt(s, ps[0])
      && (forall i :: p <= i < ps[0] ==> !PairAt(s, i))
      && IsPairList(s, ps[0] + 2, ps[1..])
  }

  /** `s[p..]` with the two characters of every listed pair taken out and
      every other character kept, in order. */
  function Without(s: string, p: nat, ps: seq<nat>): string
    requires p <= |s| && IsPairList(s, p, ps)
    decreases ps
  {
    if ps == [] then s[p..]
    else s[p..ps[0]] + Without(s, ps[0] + 2, ps[1..])
  }

  /** The pairs a scan from `p` finds. */
  function PairsFrom(s: string, p: nat): (ps: seq<nat>)
    requires p <= |s|
    ensures IsPairList(s, p, ps)
    decreases |s| - p
  {
    if p + 1 >= |s| then []
    else if PairAt(s, p) then
      var rest := PairsFrom(s, p + 2);
      assert ([p] + rest)[1..] == rest;
      [p] + rest
    else PairsFrom(s, p + 1)
  }

  /** A text has one pair list only. */
  lemma {:induction false} PairListUnique(s: string, p: nat, ps: seq<nat>, qs: seq<nat>)
    requires IsPairList(s, p, ps) && IsPairList(s, p, qs)
    ensures ps == qs
    decreases ps
  {
    if ps != [] && qs != [] {
      assert ps[0] == qs[0];
      PairListUnique(s, ps[0] + 2, ps[1..], qs[1..]);
      assert ps == [ps[0]] + ps[1..] && qs == [qs[0]] + qs[1..];
    }
  }

  /** Removal from `p` when no pair starts at or after `p`. */
  lemma StripNoPairFrom(s: string, p: nat)
    requires p <= |s|
    requires forall i :: p <= i < |s| ==> !PairAt(s, i)
    ensures StripEmphasis(s[p..]) == s[p..]
  {
    var t := s[p..];
    forall i | 0 <= i < |t| ensures !PairAt(t, i) {
      assert !PairAt(s, p + i);
    }
  }

  /** Removal from a pair skips its two characters. */
  lemma StripPairAt(s: string, p: nat)
    requires PairAt(s, p)
    ensures StripEmphasis(s[p..]) == StripEmphasis(s[p + 2..])
  {
    assert s[p..][2..] == s[p + 2..];
  }

  /** Removal from a character that starts no pair keeps that character. */
  lemma StripKeepAt(s: string, p: nat)
    requires p < |s| && !PairAt(s, p)
    ensures StripEmphasis(s[p..]) == [s[p]] + StripEmphasis(s[p + 1..])
  {
    assert !PairAt(s[p..], 0);
    assert s[p..][1..] == s[p + 1..];
  }

  /** A pair list from `p` that does not start at `p` is one from `p + 1`. */
  lemma PairListLater(s: string, p: nat, ps: seq<nat>)
    requires IsPairList(s, p, ps) && ps != [] && ps[0] != p
    ensures p + 1 < |s| && !PairAt(s, p) && IsPairList(s, p + 1, ps)
  {
  }

  /** The text such a pair list leaves starts with `s[p]`. */
  lemma WithoutKeeps(s: string, p: nat, ps: seq<nat>)
    requires p < |s| && ps != [] && p < ps[0]
    requires IsPairList(s, p, ps) && IsPairList(s, p + 1, ps)
    ensures Without(s, p, ps) == [s[p]] + Without(s, p + 1, ps)
  {
    var rest := Without(s, ps[0] + 2, ps[1..]);
    assert Without(s, p, ps) == s[p..ps[0]] + rest;
    assert Without(s, p + 1, ps) == s[p + 1..ps[0]] + rest;
    assert s[p..ps[0]] == [s[p]] + s[p + 1..ps[0]];
  }

  /** A pair list from `p` that starts at `p` drops those two characters. */
  lemma PairListFirst(s: string, p: nat, ps: seq<nat>)
    requires p <= |s| && IsPairList(s, p, ps) && ps != [] && ps[0] == p
    ensures PairAt(s, p) && IsPairList(s, p + 2, ps[1..])
    ensures Without(s, p, ps) == Without(s, p + 2, ps[1..])
  {
    assert s[p..ps[0]] == [];
  }

  lemma {:induction false} StripEmphasisFrom(s: string, p: nat, ps: seq<nat>)
    requires p <= |s| && IsPairList(s, p, ps)
    ensures StripEmphasis(s[p..]) == Without(s, p, ps)
    decreases |s| - p
  {
    if ps == [] {
      StripNoPairFrom(s, p);
    } else if ps[0] == p {
      PairListFirst(s, p, ps);
      StripPairAt(s, p);
      StripEmphasisFrom(s, p + 2, ps[1..]);
    } else {
      PairListLater(s, p, ps);
      WithoutKeeps(s, p, ps);
      StripKeepAt(s, p);
      StripEmphasisFrom(s, p + 1, ps);
    }
  }

  /** The removal deletes exactly the pairs of the text's pair list and keeps
      every other character, a lone `*` or `_` included, in order. */
  lemma StripEmphasisDeletesPairs(s: string)
    ensures exists ps :: IsPairList(s, 0, ps)
    ensures forall ps :: IsPairList(s, 0, ps) ==> StripEmphasis(s) == Without(s, 0, ps)
  {
    var found := PairsFrom(s, 0);
    assert IsPairList(s, 0, found);
    forall ps | IsPairList(s, 0, ps) ensures StripEmphasis(s) == Without(s, 0, ps) {
      StripEmphasisFrom(s, 0, ps);
      assert s[0..] == s;
    }
  }

  /** A lone marker next to a pair survives: `**a*` loses only its leading
      pair. */
  lemma StripEmphasisKeepsLoneMarker()
    ensures StripEmphasis("**a*") == "a*"
  {
    assert PairAt("**a*", 0);
    assert "**a*"[2..] == "a*";
    assert !PairAt("a*", 0) && "a*"[1..] == "*";
  }

  /** `Array.prototype.join(sep)` on a list of strings. */
  function Join(xs: seq<string>, sep: string): string {
    if |xs| == 0 then ""
    else if |xs| == 1 then xs[0]
    else xs[0] + sep + Join(xs[1..], sep)
  }

  /** The join of no pieces is empty; otherwise it starts with the first
      piece and ends with the last. */
  lemma {:induction false} JoinEnds(xs: seq<string>, sep: string)
    ensures xs == [] ==> Join(xs, sep) == ""
    ensures xs != [] ==> |xs[0]| <= |Join(xs, sep)| && Join(xs, sep)[..|xs[0]|] == xs[0]
    ensures xs != [] ==> var r := Join(xs, sep); var last := xs[|xs| - 1];
      |last| <= |r| && r[|r| - |last|..] == last
  {
    if |xs| > 1 {
      JoinEnds(xs[1..], sep);
      var rest := Join(xs[1..], sep);
      var r := xs[0] + sep + rest;
      assert Join(xs, sep) == r;
      assert r[|r| - |rest|..] == rest;
    }
  }

  /** Joining one more piece appends the separator and that piece: the join
      read from the back. */
  lemma {:induction false} JoinSnoc(xs: seq<string>, x: string, sep: string)
    requires xs != []
    ensures Join(xs + [x], sep) == Join(xs, sep) + sep + x
  {
    if |xs| == 1 {
      assert xs + [x] == [xs[0], x];
      JoinTwo(xs[0], x, sep);
    } else {
      assert (xs + [x])[1..] == xs[1..] + [x];
      JoinSnoc(xs[1..], x, sep);
    }
  }

  lemma JoinTwo(a: string, b: string, sep: string)
    ensures Join([a, b], sep) == a + sep + b
  {
    assert [a, b][1..] == [b];
  }

  /** JavaScript `s.split('\n')`: the pieces between line feeds, always at
      least one (the empty string splits into `[""]`). */
  function SplitLines(s: string): (lines: seq<string>)
    ensures |lines| >= 1
    ensures forall i :: 0 <= i < |lines| ==> '\n' !in lines[i]
    ensures Join(lines, "\n") == s
  {
    if s == [] then [""]
    else if s[0] == '\n' then
      var rest := SplitLines(s[1..]);
      assert s == "\n" + s[1..];
      [""] + rest
    else
      var rest := SplitLines(s[1..]);
      var lines := [[s[0]] + rest[0]] + rest[1..];
      assert lines[1..] == rest[1..];
      assert s == [s[0]] + s[1..];
      lines
  }

  /** Splitting a line-feed-free piece yields just that piece. */
  lemma {:induction false} SplitLinesNoBreak(a: string)
    requires '\n' !in a
    ensures SplitLines(a) == [a]
    decreases |a|
  {
    if a != [] {
      SplitLinesNoBreak(a[1..]);
      assert [a[0]] + a[1..] == a;
    }
  }

  /** A line-feed-free piece followed by a line feed splits off as the first line. */
  lemma {:induction false} SplitLinesCons(a: string, b: string)
    requires '\n' !in a
    ensures SplitLines(a + "\n" + b) == [a] + SplitLines(b)
    decreases |a|
  {
    var s := a + "\n" + b;
    if a == [] {
      assert s[1..] == b;
    } else {
      assert s[0] == a[0];
      assert s[1..] == a[1..] + "\n" + b;
      SplitLinesCons(a[1..], b);
      assert [a[0]] + a[1..] == a;
    }
  }

  /** Splitting inverts joining: lines without line feeds, joined with "\n",
      split back into the same lines. */
  lemma {:induction false} SplitJoin(xs: seq<string>)
    requires |xs| >= 1
    requires forall i :: 0 <= i < |xs| ==> '\n' !in xs[i]
    ensures SplitLines(Join(xs, "\n")) == xs
    decreases |xs|
  {
    if |xs| == 1 {
      SplitLinesNoBreak(xs[0]);
    } else {
      SplitLinesCons(xs[0], Join(xs[1..], "\n"));
      SplitJoin(xs[1..]);
      assert xs == [xs[0]] + xs[1..];
    }
  }

  predicate IsDigit(c: char) {
    '0' <= c <= '9'
  }

  predicate AllDigits(s: string) {
    forall i :: 0 <= i < |s| ==> IsDigit(s[i])
  }

  function DigitChar(d: nat): (c: char)
    requires d < 10
    ensures IsDigit(c)
  {
    (48 + d) as char
  }

  function DigitValue(c: char): nat
    requires IsDigit(c)
  {
    (c as int) - 48
  }

  /** Decimal rendering of a non-negative integer, as `${n}` produces it:
      digits only, no leading zero unless the number is zero. */
  function NatToString(n: nat): (s: string)
    ensures |s| >= 1
    ensures AllDigits(s)
    ensures |s| > 1 ==> s[0] != '0'
    decreases n
  {
    if n < 10 then [DigitChar(n)]
    else NatToString(n / 10) + [DigitChar(n % 10)]
  }

  /** The value of a string of decimal digits. */
  function ParseDigits(s: string): nat
    requires AllDigits(s)
  {
    if s == [] then 0
    else ParseDigits(s[..|s| - 1]) * 10 + DigitValue(s[|s| - 1])
  }

  /** Reading the decimal rendering back gives the number. */
  lemma {:induction false} ParseNatToString(n: nat)
    ensures ParseDigits(NatToString(n)) == n
    decreases n
  {
    var s := NatToString(n);
    if n >= 10 {
      ParseNatToString(n / 10);
      assert s[..|s| - 1] == NatToString(n / 10);
    } else {
      assert s[..0] == [];
    }
  }

  /** Distinct numbers render to distinct strings. */
  lemma NatToStringInjective(m: nat, n: nat)
    requires NatToString(m) == NatToString(n)
    ensures m == n
  {
    ParseNatToString(m);
    ParseNatToString(n);
  }
}
