/** The completion state of checklist lines (Frontend/src/App.jsx:82-109):
    a map from the key `${label}-${index}` to a boolean, where an absent key
    reads as false, the toggle of one line, and the checklist items a section's
    content turns into. */
module Progress {
  import opened Wrappers
  import opened Text

  type ProgressMap = map<string, bool>

  /** The template literal `${label}-${index}` of App.jsx:85 and :100. */
  function Key(name: string, index: nat): (key: string)
    ensures |key| > |name| + 1 && key[..|name|] == name && key[|name|] == '-'
    ensures AllDigits(key[|name| + 1..]) && ParseDigits(key[|name| + 1..]) == index
  {
    var key := name + "-" + NatToString(index);
    assert key[|name| + 1..] == NatToString(index);
    ParseNatToString(index);
    key
  }

  /** Position of the first `c` in `s`, if any. */
  function IndexOf(s: string, c: char): (r: Option<nat>)
    ensures r.Some? ==> r.value < |s| && s[r.value] == c && c !in s[..r.value]
    ensures r.None? ==> c !in s
  {
    if s == [] then None
    else if s[0] == c then Some(0)
    else match IndexOf(s[1..], c)
      case None => None
      case Some(k) =>
        assert s[..k + 1] == [s[0]] + s[1..][..k];
        Some(k + 1)
  }

  /** Reads a key back into its label and line index: the label is the text
      before the first `-`, the index the decimal digits after it. */
  function ParseKey(key: string): Option<(string, nat)> {
    match IndexOf(key, '-')
    case None => None
    case Some(k) =>
      var digits := key[k + 1..];
      if digits != [] && AllDigits(digits) then Some((key[..k], ParseDigits(digits)))
      else None
  }

  /** For a label without `-`, the key reads back as the pair it was built
      from. */
  lemma ParseKeyOfKey(name: string, index: nat)
    requires '-' !in name
    ensures ParseKey(Key(name, index)) == Some((name, index))
  {
    var key := Key(name, index);
    assert key[..|name|] == name;
    assert key[|name|] == '-';
    assert key[|name| + 1..] == NatToString(index);
    ParseNatToString(index);
  }

  /** Distinct (label, index) pairs give distinct keys, as long as labels have
      no `-` (no vocabulary label does). */
  lemma KeyInjective(l1: string, i1: nat, l2: string, i2: nat)
    requires '-' !in l1 && '-' !in l2
    requires Key(l1, i1) == Key(l2, i2)
    ensures l1 == l2 && i1 == i2
  {
    ParseKeyOfKey(l1, i1);
    ParseKeyOfKey(l2, i2);
  }

  /** `progress[key] || false`: an absent key reads as false, a present one
      as its value. */
  function Checked(p: ProgressMap, key: string): (b: bool)
    ensures key !in p ==> !b
    ensures key in p ==> b == p[key]
  {
    key in p && p[key]
  }

  /** `toggleTask(label, index)` (App.jsx:82-89): the key `label-index` is
      set to the negation of what it read (absent reads false, so it becomes
      true); every other key keeps its entry. */
  function Toggle(p: ProgressMap, name: string, index: nat): (r: ProgressMap)
    ensures Key(name, index) in r && r[Key(name, index)] == !Checked(p, Key(name, index))
    ensures r.Keys == p.Keys + {Key(name, index)}
    ensures forall k :: k in p && k != Key(name, index) ==> r[k] == p[k]
  {
    var key := Key(name, index);
    p[key := !Checked(p, key)]
  }

  /** Toggling the same line twice restores every key's reading. */
  lemma ToggleTwice(p: ProgressMap, name: string, index: nat)
    ensures forall k :: Checked(Toggle(Toggle(p, name, index), name, index), k) == Checked(p, k)
  {
  }

  /** When the key was already present, toggling twice restores the map itself. */
  lemma ToggleTwicePresent(p: ProgressMap, name: string, index: nat)
    requires Key(name, index) in p
    ensures Toggle(Toggle(p, name, index), name, index) == p
  {
  }

  /** Toggling one line of a section never changes the reading of another
      line, in the same section or in another one. */
  lemma ToggleLeavesOtherLines(p: ProgressMap, l1: string, i1: nat, l2: string, i2: nat)
    requires '-' !in l1 && '-' !in l2
    requires l1 != l2 || i1 != i2
    ensures Checked(Toggle(p, l1, i1), Key(l2, i2)) == Checked(p, Key(l2, i2))
  {
    if Key(l1, i1) == Key(l2, i2) {
      KeyInjective(l1, i1, l2, i2);
    }
  }

  /** One rendered checkbox: the line's index in the unfiltered
      `split('\n')` array, its text, and whether it is ticked. */
  datatype Item = Item(index: nat, text: string, checked: bool)

  /** A line the checklist skips: `line.trim() === ''` (App.jsx:93), which by
      the contract of `Trim` holds exactly when every character is whitespace. */
  predicate IsBlank(line: string) {
    AllWhitespace(line)
  }

  /** A line is skipped exactly when trimming it leaves the empty string. */
  lemma IsBlankIff(line: string)
    ensures IsBlank(line) <==> Trim(line) == ""
  {
  }

  /** Indices of the non-blank lines of `lines[from..]`, in increasing order. */
  function NonBlankFrom(lines: seq<string>, from: nat): (ix: seq<nat>)
    requires from <= |lines|
    ensures forall j :: 0 <= j < |ix| ==> from <= ix[j] < |lines| && !IsBlank(lines[ix[j]])
    ensures forall j, j' :: 0 <= j < j' < |ix| ==> ix[j] < ix[j']
    ensures forall i :: from <= i < |lines| && !IsBlank(lines[i]) ==> i in ix
    decreases |lines| - from
  {
    if from == |lines| then []
    else
      var rest := NonBlankFrom(lines, from + 1);
      if IsBlank(lines[from]) then rest
      else
        var ix := [from] + rest;
        assert forall j :: 0 < j < |ix| ==> ix[j] == rest[j - 1];
        ix
  }

  /** `formatContentWithCheckboxes(label, content)` (App.jsx:91-109), the
      item derivation only: exactly the non-blank lines of
      `content.split('\n')` become items, in order, each keyed by its index in
      the unfiltered array and ticked when `progress[label-index]` is true. */
  function Checklist(name: string, content: string, p: ProgressMap): (items: seq<Item>)
    ensures forall j :: 0 <= j < |items| ==> items[j].index < |SplitLines(content)|
    ensures forall j :: 0 <= j < |items| ==>
              && items[j].text == SplitLines(content)[items[j].index]
              && !IsBlank(items[j].text)
              && items[j].checked == Checked(p, Key(name, items[j].index))
    ensures forall j, j' :: 0 <= j < j' < |items| ==> items[j].index < items[j'].index
    ensures forall i :: 0 <= i < |SplitLines(content)| && !IsBlank(SplitLines(content)[i]) ==>
              exists j :: 0 <= j < |items| && items[j].index == i
  {
    var lines := SplitLines(content);
    var ix := NonBlankFrom(lines, 0);
    var items := ItemsAt(name, lines, ix, p);
    forall i | 0 <= i < |lines| && !IsBlank(lines[i]) ensures exists j :: 0 <= j < |items| && items[j].index == i {
      var j :| 0 <= j < |ix| && ix[j] == i;
      assert items[j].index == i;
    }
    items
  }

  /** The item of each listed line index. */
  function ItemsAt(name: string, lines: seq<string>, ix: seq<nat>, p: ProgressMap): (items: seq<Item>)
    requires forall j :: 0 <= j < |ix| ==> ix[j] < |lines|
    ensures |items| == |ix|
    ensures forall j :: 0 <= j < |ix| ==> items[j] == Item(ix[j], lines[ix[j]], Checked(p, Key(name, ix[j])))
  {
    seq(|ix|, j requires 0 <= j < |ix| => Item(ix[j], lines[ix[j]], Checked(p, Key(name, ix[j]))))
  }

  /** Ticking one item of a checklist flips that item and no other. */
  lemma ToggleItem(name: string, content: string, p: ProgressMap, j: nat)
    requires '-' !in name
    requires j < |Checklist(name, content, p)|
    ensures var items := Checklist(name, content, p);
      var items' := Checklist(name, content, Toggle(p, name, items[j].index));
      && |items'| == |items|
      && items'[j].checked == !items[j].checked
      && forall j' :: 0 <= j' < |items| && j' != j ==> items'[j'].checked == items[j'].checked
  {
    var items := Checklist(name, content, p);
    var p' := Toggle(p, name, items[j].index);
    var items' := Checklist(name, content, p');
    forall j' | 0 <= j' < |items| && j' != j
      ensures items'[j'].checked == items[j'].checked
    {
      ToggleLeavesOtherLines(p, name, items[j].index, name, items[j'].index);
    }
  }
}
