# EduAid roadmap engine, modelled in Dafny

EduAid asks a text generator for a study roadmap and shows it as a set of
labelled checklists. Everything with logic in it lives in the React component
`Frontend/src/App.jsx`. This project models that component's engine:

- **`cleanRoadmap`** splits the generated text into sections. A section starts
  where one of twelve fixed labels ("Assumptions", "Roadmap Structure",
  "Goal", "Topics", …) is followed by `:` and at least one more character,
  unless that position already lies inside the content of an earlier
  section. Each content is cleaned (trim, remove `**` and `__`, trim again). Repeated labels are merged in first-seen
  order, with their contents joined by a blank line.
- **The checklist.** `formatContentWithCheckboxes` turns each non-blank line
  of a section into a checkbox. The box is keyed `label-index`, where `index`
  is the line's position in `content.split('\n')`. `toggleTask` flips one key
  of the progress map; an absent key reads as unticked.
- **The session.** Goal, roadmap text and progress are mirrored into
  `localStorage`, restored at start-up and wiped by `clearAll`. The submit
  handler clears the old roadmap and then shows the generator's answer or a
  fixed error message.

Modules, one per concern:

| file | module | what it holds |
|---|---|---|
| `wrappers.dfy` | `Wrappers` | `Option` and `Result` |
| `text.dfy` | `Text` | JavaScript `trim`, the `**`/`__` removal, `split('\n')`, `join`, decimal rendering of an index |
| `scanner.dfy` | `Scanner` | the label vocabulary and a hand-written scanner with the semantics of the pattern at `App.jsx:65` under `matchAll` |
| `sections.dfy` | `Sections` | cleaning, grouping and merging: `cleanRoadmap` itself |
| `progress.dfy` | `Progress` | progress keys, `toggleTask`, checklist items |
| `session.dfy` | `Session` | component state, the in-memory store, restore, the write effects, submit, `clearAll` |
| `scenarios.dfy` | `Scenarios` | worked inputs over a two-word vocabulary |

**How the scanner works.** On the program's labels its semantics are those of the regular expression:

- A match starts at the leftmost position at or after the resume point where
  a vocabulary word occurs. A `:` must follow it, then at least one more
  character.
- The lazy content runs to the first later position where any vocabulary
  word occurs (colon or not), or to the end of the text. The search resumes
  there.
- The vocabulary is prefix-free (`Scanner.LabelsPrefixFree`), so the order of
  the alternation does not matter.
- The scanner is written over any vocabulary; `Scanner.Labels` is the
  twelve-word one. The model and `cleanRoadmap` agree on a prefix-free
  vocabulary of plain labels (`Sections.PlainLabel`: already trimmed, no
  regular-expression specials, not all digits, not a name every object
  inherits). The twelve labels are such a vocabulary (`Scanner.LabelsPrefixFree`,
  `Sections.LabelsArePlain`). On other vocabularies the two differ (see
  "Left out").

**Behaviour as written, where a reader might expect otherwise:**

- A whitespace-only capture is kept as an empty content. It is not dropped.
- A vocabulary word inside a sentence ends the capture even without a colon.
  The text from that word up to the next real match belongs to no section;
  `Scenarios.BareWordDropsText` shows this.
- A label and `:` right after another label's colon start no section. The
  earlier label's content takes at least one character before any label can
  end it, so the later label becomes part of that content: `Goal:Topics: x`
  gives only a "Goal" section, holding `Topics: x`
  (`Scanner.ScanSwallowsContent`, `Scenarios.LabelAfterColonSwallowed`).
- A label and `:` at the very end of the text start no section, since the
  content needs at least one character (`Scanner.TrailingLabelNoMatch`).
- Parsing is not idempotent. Writing the sections back out as label, `:` and
  content, concatenated, and parsing that text again can give different
  sections. It happens in two ways. An empty content puts the next label
  right after a colon, where it is swallowed
  (`Scenarios.ReparseMergesSections`). The `**`/`__` removal is a single
  pass, so a second parse can remove markers the first one left
  (`Scenarios.ReparseStripsAgain`).
- A failed generation clears the roadmap on screen. The store still holds the
  previous roadmap, since an empty value is never written, so a reload brings
  it back.
- Stored progress text that is not valid JSON makes the unguarded
  `JSON.parse` at `App.jsx:17` throw, which aborts start-up. `Session.Restore`
  returns `Failure` in that case. It does not treat the value as absent.

The browser store is a map from key to `Blob`. A `Blob` is either a string or
a serialised progress map, kept as the map itself: `JSON.stringify` followed by
`JSON.parse` is the identity on `map<string, bool>`. The three write effects
are modelled together by `Session.Persist`. It runs after each transition,
comparing the state before and after: a field is written when it changed and is
non-empty. That is what React does with the dependency arrays at
`App.jsx:28-40`.

## Model

| member | source | states |
|---|---|---|
| `Text.Trim` | Frontend/src/App.jsx:71 | the result is the infix of the input between its leading and trailing whitespace, using JavaScript's whitespace set; it is empty exactly when the input is all whitespace, and otherwise starts and ends with non-whitespace |
| `Text.TrimIdempotent` | Frontend/src/App.jsx:71 | trimming a trimmed string changes nothing |
| `Text.TrimNoOp` | Frontend/src/App.jsx:70 | a non-empty string that neither starts nor ends with whitespace is its own trim |
| `Text.StripEmphasis` | Frontend/src/App.jsx:71 | the global removal of `**` and `__` never lengthens the text and keeps every character other than a marker; it changes the text exactly when the text holds a doubled marker |
| `Text.PairsFrom` | Frontend/src/App.jsx:71 | every text has a pair list: the doubled markers a left-to-right scan deletes, each the leftmost pair after the previous one, none skipped |
| `Text.PairListUnique` | Frontend/src/App.jsx:71 | a text has only one pair list, so it fixes which characters the removal deletes |
| `Text.StripEmphasisDeletesPairs` | Frontend/src/App.jsx:71 | the removal's result is the text with exactly the two characters of each listed pair taken out and every other character, lone markers included, kept in order |
| `Text.StripEmphasisKeepsLoneMarker` | Frontend/src/App.jsx:71 | `**a*` becomes `a*`: a lone marker after a pair survives |
| `Text.StripEmphasisNotIdempotent` | Frontend/src/App.jsx:71 | the removal is a single pass: `_**_` becomes `__`, which a second pass would remove |
| `Text.SplitLines` | Frontend/src/App.jsx:92 | `split('\n')` gives at least one piece, no piece holds a line feed, and joining the pieces with line feeds gives the input back |
| `Text.SplitJoin` | Frontend/src/App.jsx:92 | splitting inverts joining for pieces without line feeds |
| `Text.JoinEnds` | Frontend/src/App.jsx:78 | `join` of no pieces is the empty string; otherwise the result starts with the first piece and ends with the last |
| `Text.JoinSnoc` | Frontend/src/App.jsx:78 | joining one more piece appends the separator and that piece, so the join puts the separator exactly between consecutive pieces |
| `Text.NatToString` | Frontend/src/App.jsx:85 | the rendering of a line index in the key template is non-empty decimal digits without a leading zero |
| `Text.ParseNatToString` | Frontend/src/App.jsx:85 | reading the rendered index back gives the index |
| `Text.NatToStringInjective` | Frontend/src/App.jsx:85 | distinct indices render differently |
| `Scanner.LabelAt` | Frontend/src/App.jsx:60-65 | the label picked at a position is a vocabulary word occurring there; none is picked only when no vocabulary word occurs there |
| `Scanner.BoundaryIff` | Frontend/src/App.jsx:65 | the lookahead succeeds exactly at the end of the text or where some vocabulary word occurs, colon or not |
| `Scanner.MatchesAtIff` | Frontend/src/App.jsx:65 | a match starting at a position needs a vocabulary word there followed by `:` and one more character; over a prefix-free vocabulary any such word gives a match |
| `Scanner.LabelsPrefixFree` | Frontend/src/App.jsx:60-64 | no label is a proper prefix of another |
| `Scanner.LabelAtUnique` | Frontend/src/App.jsx:65 | over a prefix-free vocabulary, the label picked at a position is the one word occurring there, whatever the alternation order |
| `Scanner.LabelsHaveNoDash` | Frontend/src/App.jsx:60-64 | no label contains `-`, the separator of progress keys |
| `Scanner.NextMatch` | Frontend/src/App.jsx:65-66 | finds the leftmost position at or after the resume point where the pattern matches, or reports that none exists |
| `Scanner.SpanAt` | Frontend/src/App.jsx:65 | the match at a matching position takes the label, the colon and the shortest non-empty content that ends at a boundary |
| `Scanner.Scan` | Frontend/src/App.jsx:65-66 | over a prefix-free vocabulary, `matchAll` yields a match list: each match starts at the leftmost match start after the previous match's end, is a valid span, and the list ends exactly when no match start remains |
| `Scanner.MatchListUnique` | Frontend/src/App.jsx:65-66 | there is only one match list for a text, so the scan's result is determined by the declarative description |
| `Scanner.MatchListShape` | Frontend/src/App.jsx:65-66 | the matches are valid, in text order and non-overlapping, and no match start lies before the first, between two, or after the last |
| `Scanner.ScanEmptyIff` | Frontend/src/App.jsx:65-66 | the scan is empty exactly when no position holds a vocabulary word, a colon and at least one more character |
| `Scanner.NoLabelColonNoMatch` | Frontend/src/App.jsx:65-66 | a text in which no vocabulary word is followed by `:` yields no match |
| `Scanner.ScanContentStops` | Frontend/src/App.jsx:65 | every capture holds at least one character and contains no occurrence of any vocabulary word after its first character, whether or not a colon follows it |
| `Scanner.ScanContentEnds` | Frontend/src/App.jsx:65 | every capture ends at the end of the text or right before a vocabulary word |
| `Scanner.TrailingLabelNoMatch` | Frontend/src/App.jsx:65 | a vocabulary word and colon at the very end of the text start no match |
| `Scanner.ScanSwallowsContent` | Frontend/src/App.jsx:65-66 | no match starts inside another match's content, so a label and colon right after a match's own colon are swallowed into that content |
| `Sections.Clean` | Frontend/src/App.jsx:71 | the cleaned capture is the trimmed capture with the pairs of its pair list taken out, trimmed again; so a whitespace-only capture cleans to the empty string, a capture without doubled markers is only trimmed, and a non-empty result starts and ends with non-whitespace |
| `Sections.LabelsTrimmed` | Frontend/src/App.jsx:70 | trimming a matched label leaves it unchanged |
| `Sections.LabelsArePlain` | Frontend/src/App.jsx:60-72 | every one of the twelve labels is already trimmed, holds no regular-expression special, is not all digits and is not a name every object inherits, so the pattern, the grouping object and `Object.keys` treat it as plain text |
| `Sections.Entries` | Frontend/src/App.jsx:66-71 | there is one entry per match, in text order, carrying the match's label |
| `Sections.EntryOfMatch` | Frontend/src/App.jsx:69-71 | entry `k` holds the label of match `k` and its cleaned capture |
| `Sections.EntriesOfText` | Frontend/src/App.jsx:65-71 | every entry's label is a vocabulary word, and there are no entries exactly when the text has no match |
| `Sections.Names` | Frontend/src/App.jsx:72 | the label set of the entries is exactly the labels that occur among them |
| `Sections.FirstIndex` | Frontend/src/App.jsx:72 | gives the position of a label's first entry |
| `Sections.GroupEntries` | Frontend/src/App.jsx:67-74 | the grouping has distinct labels, exactly the entries' labels; each group's contents are its label's contents in encounter order; groups are in first-seen order |
| `Sections.AddEntryKeepsGrouping` | Frontend/src/App.jsx:72-73 | one `forEach` step, which creates the group when the label is new and then pushes, keeps the grouping correct for one more entry |
| `Sections.AddEntryShape` | Frontend/src/App.jsx:72-73 | the `forEach` body: a new label opens a group at the end holding just this content; a label that has a group gets the content pushed onto it and every other group stays |
| `Sections.JoinGroups` | Frontend/src/App.jsx:76-79 | the `map`: one section per group, in group order, each holding its label and its contents joined by a blank line |
| `Sections.Merge` | Frontend/src/App.jsx:76-79 | the sections have pairwise distinct labels, exactly the entries' labels; each content is its label's contents joined by a blank line in encounter order; sections follow first-seen order; there are none exactly when there are no entries |
| `Sections.SectionsOf` | Frontend/src/App.jsx:59-80 | `cleanRoadmap` over a prefix-free vocabulary of plain labels: section labels are vocabulary words and the result is the merge of the text's entries; it is empty exactly when the text holds no match, which is not an error |
| `Sections.CleanRoadmap` | Frontend/src/App.jsx:59-80 | the same over the twelve-label vocabulary |
| `Sections.MergeOne` | Frontend/src/App.jsx:72-79 | a single entry gives a single section with that content |
| `Sections.MergeTwo` | Frontend/src/App.jsx:72-79 | two contents C1 then C2 under one label give one section with `C1 + "\n\n" + C2` |
| `Sections.MergeDistinct` | Frontend/src/App.jsx:72-79 | two entries with different labels give two sections, in order |
| `Sections.MergeInterleaved` | Frontend/src/App.jsx:72-79 | labels A, B, A give A's section first, holding both of A's contents, then B's |
| `Sections.MergeOfOneLabel` | Frontend/src/App.jsx:72-79 | entries that all carry one label merge into a single section holding all their contents |
| `Sections.MergeOfTwoLabels` | Frontend/src/App.jsx:76-79 | over two labels, the sections are the first-seen label's and then the other's |
| `Progress.ParseKeyOfKey` | Frontend/src/App.jsx:85 | a key built from a dash-free label and an index reads back as that pair |
| `Progress.KeyInjective` | Frontend/src/App.jsx:85 | distinct (label, index) pairs give distinct keys when labels have no `-` |
| `Progress.Key` | Frontend/src/App.jsx:85 | the key `${label}-${index}` (also read at `:100`) is the label, a `-`, then decimal digits that read back as the index |
| `Progress.Checked` | Frontend/src/App.jsx:100 | the tick of a box: an absent key reads unticked, a present one reads its value |
| `Progress.IsBlankIff` | Frontend/src/App.jsx:93 | a line is skipped exactly when `line.trim() === ''` |
| `Progress.Toggle` | Frontend/src/App.jsx:82-89 | the toggled key is present and holds the negation of its previous reading, absent reading as false; the key set grows by that key only; every other key keeps its value |
| `Progress.ToggleTwice` | Frontend/src/App.jsx:82-89 | toggling the same line twice restores every key's reading |
| `Progress.ToggleTwicePresent` | Frontend/src/App.jsx:82-89 | when the key was present, toggling twice restores the map itself |
| `Progress.ToggleLeavesOtherLines` | Frontend/src/App.jsx:82-89 | toggling one line never changes another line's reading, in the same section or another |
| `Progress.NonBlankFrom` | Frontend/src/App.jsx:92-93 | lists exactly the indices of the non-blank lines, in increasing order |
| `Progress.Checklist` | Frontend/src/App.jsx:91-103 | items correspond exactly to the non-blank lines of `split('\n')`; each carries its unfiltered index and the line's text; indices are strictly increasing and below the line count; an item is ticked exactly when its key reads true |
| `Progress.ToggleItem` | Frontend/src/App.jsx:100-101 | ticking one item flips that item and no other |
| `Session.Fresh` | Frontend/src/App.jsx:6-11 | the initial state: empty goal and roadmap, no progress, not loading, no error |
| `Session.Truthy` | Frontend/src/App.jsx:17-22 | what `getItem` returned counts as present exactly when it is a non-empty string or a serialised map, whose text is never empty |
| `Session.Persist` | Frontend/src/App.jsx:28-40 | after a render, a field that changed and is non-empty is written under its key; nothing is ever removed; every other key is untouched |
| `Session.RestoreText` | Frontend/src/App.jsx:19-23 | a stored string is restored as it is; an absent key gives the empty default |
| `Session.Restore` | Frontend/src/App.jsx:15-23 | start-up fails exactly when the progress key holds non-empty text rather than a serialised map (text that is not valid JSON makes `JSON.parse` throw); otherwise goal, roadmap and progress come from their keys (defaults when absent) and the store is unchanged |
| `Session.Load` | Frontend/src/App.jsx:15-23 | once the progress is read, the restored goal and roadmap are the stored ones, and the write-back leaves the store as it was |
| `Session.EditGoal` | Frontend/src/App.jsx:28-30 | a new non-empty goal is written under its key; emptying the goal writes nothing |
| `Session.ToggleTask` | Frontend/src/App.jsx:32-36 | ticking a box always stores the toggled map under the progress key |
| `Session.BeginSubmit` | Frontend/src/App.jsx:46-48 | submitting turns loading on and clears the error and the roadmap, with the store untouched |
| `Session.FinishSubmit` | Frontend/src/App.jsx:49-56 | the generator's text becomes the roadmap and is stored when non-empty; a failure sets the fixed message; loading ends either way |
| `Session.Submit` | Frontend/src/App.jsx:42-57 | a blank goal changes nothing; otherwise the result is the generated roadmap, or an empty roadmap with the fixed error message; loading ends false and progress is untouched |
| `Session.BlankGoalIff` | Frontend/src/App.jsx:44 | `!goal.trim()` holds exactly when the goal is empty or all whitespace |
| `Session.ClearAll` | Frontend/src/App.jsx:111-119 | goal, roadmap and progress return to their defaults and the three keys are removed; error and loading stay |
| `Session.RestoreSynced` | Frontend/src/App.jsx:15-40 | a restored state matches its store, and a store holding only what this component writes always restores |
| `Session.EditGoalKeepsSync` | Frontend/src/App.jsx:28-30 | editing the goal keeps every non-empty field equal to what is stored |
| `Session.ToggleTaskKeepsSync` | Frontend/src/App.jsx:32-36 | ticking a box keeps every non-empty field equal to what is stored |
| `Session.SubmitKeepsSync` | Frontend/src/App.jsx:42-57 | a submission, whatever the answer, keeps every non-empty field equal to what is stored |
| `Session.ClearAllKeepsSync` | Frontend/src/App.jsx:111-119 | the reset keeps every non-empty field equal to what is stored |
| `Session.ReloadRestoresSynced` | Frontend/src/App.jsx:15-40 | reloading gives back every non-empty field of the session |
| `Session.ProgressRoundTrip` | Frontend/src/App.jsx:15-36 | whatever the store holds, after ticking a box a reload reads every key of the progress map the same way |
| `Session.ReloadAfterClear` | Frontend/src/App.jsx:111-119 | after a reset, a reload yields all defaults |
| `Session.FailedSubmitKeepsStoredRoadmap` | Frontend/src/App.jsx:42-57 | after a failed submission the screen shows no roadmap, but a reload brings the previous one back |
| `Session.EmptiedGoalComesBack` | Frontend/src/App.jsx:28-30 | emptying the goal field is not persisted, so a reload brings the last non-empty goal back |
| `Scenarios.BareWordCutsContent` | Frontend/src/App.jsx:65 | over the words "Topics" and "Books", `Topics: Read Books daily` has one match, whose capture stops before the bare "Books" |
| `Scenarios.BareWordDropsText` | Frontend/src/App.jsx:59-80 | that text yields the single section "Topics" with "Read"; "Books daily" is in no section |
| `Scenarios.WhitespaceSpanKept` | Frontend/src/App.jsx:59-80 | `Topics: \nBooks: x` yields "Topics" with the empty content, then "Books" with "x" |
| `Scenarios.LabelAfterColonSwallowed` | Frontend/src/App.jsx:59-80 | `Topics:Books:x` yields the single section "Topics" with `Books:x`, and no "Books" section |
| `Scenarios.ReparseMergesSections` | Frontend/src/App.jsx:59-80 | the two sections of `Topics: \nBooks: x`, written back as `Topics:Books:x`, parse as one section: parsing is not idempotent under reassembly |
| `Scenarios.ReparseStripsAgain` | Frontend/src/App.jsx:59-80 | `Topics: _**_` yields "Topics" with `__`; written back as `Topics:__` it yields "Topics" with "": the single-pass marker removal is not idempotent either |

## Left out

- The `level` selector (`App.jsx:7`) is not modelled. It is only forwarded to the generator, which is a parameter here.
- The HTTP call to the generator (`App.jsx:50`), `async`/`await` and the network are not modelled. The generator's answer is the `Session.Response` parameter: text or failure. The backend relay is not part of this model.
- `localStorage` is an in-memory map. JSON text is not modelled: a serialised progress map is stored as the map itself, and any other stored progress is opaque text.
- Session.Restore: stored progress text is always modelled as a failed start-up. That is exact for text that is not valid JSON. Valid JSON that is not a map of booleans is modelled as a failure too, although the code does something else. `0`, `[]` or `"x"` start the app with every box unticked through `progress[key] || false`. `null` throws later, in `Object.keys` at `App.jsx:33`.
- Sections.SectionsOf: `cleanRoadmap` over a vocabulary of labels that are not all plain (`Sections.PlainLabel`) is not modelled. On such words the model differs from the code in four ways. (1) `Object.keys` at `App.jsx:76` lists array-index keys first, in ascending order, so over `["1", "0"]` it puts "0" first where the model follows first appearance. (2) `match[1].trim()` at `:70` is not applied to labels, so `["A", " A"]` gives two sections where the code files both under "A". (3) The unescaped `labels.join('|')` at `:65` reads words such as `a.b` or `C++` as patterns, not literally. (4) `roadmapSections[label]` at `:72` finds inherited properties, so a word like `constructor` makes `push` throw. `Sections.CleanRoadmap` over the twelve labels is not affected (`Sections.LabelsArePlain`).
- Scanner.Scan: at a position where several vocabulary words occur, the scanner tries only the first of them. The pattern at `App.jsx:65` backtracks to the next alternative when `:` does not follow. The two agree on every prefix-free vocabulary, which includes the program's twelve labels (`Scanner.LabelsPrefixFree`). They differ on others: over `["Go", "Goal"]` the pattern matches `Goal: x`, and the scanner does not.
- Strings are sequences of Unicode scalar values rather than UTF-16 code units. Nothing here depends on the difference: every character the engine compares is outside the surrogate range, and the `split('\n')` line indices do not depend on the encoding.
- `Session.Restore` reads a serialised map stored under the goal or roadmap key as absent. The component never writes one there, and the text the browser would hand back is not modelled.
- React scheduling is not modelled. Updates made in one event are applied together, and effects run once per transition in declaration order. Effect dependency comparison is value equality; this agrees with `Object.is` here, because every progress update builds a new object, and the model writes only non-empty maps.
- Input focus (`App.jsx:25`, `:118`), the JSX layout, styling and the Milestone/Goal visual split of the sections are not modelled. The checklist is modelled as its items, not as markup.
- The scanner treats `$` in the lookahead as the end of the text. Without the `m` flag, that is what JavaScript does.
