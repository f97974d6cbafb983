# pyglossary entry layer and CC-CEDICT line parser, in Dafny

This project models two parts of pyglossary.

**The entry layer** (`pyglossary/entry.py`):

- `Entry` is one dictionary record. It holds a headword with its alternates and a definition with its alternates, in one of three definition formats: `m` (plain text), `h` (HTML) and `x` (XDXF).
- `DataEntry` is a named binary resource. It is kept in memory or in a temporary file.
- Both entry kinds convert to and from the raw `(word, defi[, format])` tuple that a glossary uses to stage and sort entries.

**The CC-CEDICT reader** (`pyglossary/plugins/cc_cedict/conv.py`):

- It parses one dictionary line.
- It builds the headword list of an entry.
- It pairs the characters or syllables of a headword with colours by tone.

Python's in-place mutators become functions from the old value to the new one.

A word or definition field is `Scalar(text)` or `Multi(items, isTuple)`. The `isTuple` flag records whether the sequence is a Python list or a tuple. This matters because `editFuncWord`, `replaceInWord` and `strip` store a tuple, and a tuple cannot be appended to.

The file system is a map from paths to byte strings. The path `mktemp` chooses and the gloss summariser `summarize` become parameters. The pinyin converter `convert` is called only by `render_article`, which is not part of this model.

Modules, one per file:

| file | module | contents |
|---|---|---|
| `wrappers.dfy` | `Wrappers` | `Option` and `Result` |
| `strings.dfy` | `Strings` | `str.isspace`, `str.strip`, `str.replace`, `str.split` with one character, `str.join`, ASCII lower-casing |
| `multistr.dfy` | `MultiStr` | the scalar/sequence field, its two views and the escaped join |
| `html_pattern.dfy` | `HtmlPattern` | `Entry.htmlPattern` as a predicate, and a scanner that decides it |
| `trailing_br.dfy` | `TrailingBr` | `_stripTrailingBR` |
| `entries.dfy` | `Entries` | `Entry`: constructor, format detection, `addAlt`, the edits, `strip`, de-duplication of words |
| `resources.dfy` | `Resources` | `DataEntry`: storage, `getData`, `size`, `save`, `fromFile` |
| `raw_entries.dfy` | `RawEntries` | both entry kinds behind one interface, `getRaw`, `fromRaw`, sort keys |
| `cc_cedict.dfy` | `CcCedict` | `parse_line`, the names of `make_entry`, `colorize` with `COLORS` and `CUSTOM_TONES` |

### Behaviour of the code that lemmas pin down

- **The escaped join is not reversible.** `_join` writes each `|` inside an element as `\|`, but `fromRaw` splits on `|` without undoing that escape.
  - `MultiStr.EscapeIsAmbiguous`: `["a|b"]` and `["a\\", "b"]` join to the same text.
  - `MultiStr.SplitDoesNotUnescape` and `RawEntries.PipeInWordSplits`: a `|` inside a word comes back as two words.
  - `MultiStr.EscapeRoundTrip`: the escape of one element loses nothing; only the join is ambiguous.
  - When no element contains `|`, the round trip holds: `MultiStr.SplitJoinedRoundTrip`.
- **The two sort keys read different things.** `getEntrySortKey` keys an entry by its first word; `getRawEntrySortKey` keys a raw entry by the first tuple element, which is the whole joined word.
  - They agree for a single word: `RawEntries.SortKeysAgreeOnSingleWord`.
  - They differ once there are alternates: `RawEntries.SortKeysDifferWithAlternates`.
  - The raw key decompresses its argument, so it has no value for an uncompressed raw entry.
- **`save` leaves an in-memory resource in memory.** It writes the bytes to the target file but keeps `_tmpPath` empty, so the resource goes on reading its own bytes; only a spooled resource is repointed at the target. The content read back is the same either way: `Resources.Save`.
- **Without a staging directory a resource's bytes do not survive the raw form.** `getRaw` stores an empty path when the glossary has no `tmpDataDir`, and `fromRaw` rebuilds from it an empty in-memory resource: `RawEntries.DataRoundTripUnstaged`. With a staging directory the bytes come back: `RawEntries.DataRoundTripStaged`.
- **The text round trip has conditions.** `getRaw` followed by `fromRaw` gives back word, definition and format when the format is one of `m`, `h`, `x` and alternates are off or hold no `|`. A format other than the glossary default travels in the tuple; when the format is the glossary default the tuple leaves it out, and `fromRaw` must then be handed that default. The byte progress is never carried.

## Model

| member | source | states |
|---|---|---|
| MultiStr.FromInput | pyglossary/entry.py:247-257 | a string or list argument is accepted and anything else refused; the list view (`MultiStr.Items`, pyglossary/entry.py:281-311) is exactly the given strings; a one-element list becomes a scalar; a stored sequence is a list, not a tuple |
| MultiStr.ScalarCollapse | pyglossary/entry.py:247-249 | a one-element list `[w]` is stored as a scalar whose list view is `[w]` and scalar view is `w` |
| MultiStr.Joined | pyglossary/entry.py:268-301 | the scalar view: a scalar is its text, a sequence the escaped join of its list view; when no element holds `|` it is the plain `|`-join of the list view |
| MultiStr.Escape | pyglossary/entry.py:200-204 | escaping one element never shortens it and never leaves a leading `|` |
| MultiStr.EscapeRoundTrip | pyglossary/entry.py:200-204 | turning each `\|` back into `|` gives the element back, so the escape of an element is injective |
| MultiStr.JoinEscaped | pyglossary/entry.py:200-204 | when no element holds `|`, `_join` is the plain `|`-join of the elements |
| MultiStr.SplitJoinedRoundTrip | pyglossary/entry.py:200-204 | if no element contains `|`, splitting the escaped join on `|` gives back the elements |
| MultiStr.FieldSplitRoundTrip | pyglossary/entry.py:268-310 | for a stored field, scalar or sequence, splitting the scalar view (`MultiStr.Joined`) on `|` gives the list view (`MultiStr.Items`) when no element contains `|` |
| MultiStr.EscapeIsAmbiguous | pyglossary/entry.py:200-204 | `["a|b"]` and `["a\\", "b"]` have the same escaped join, so the join cannot be undone |
| MultiStr.SplitDoesNotUnescape | pyglossary/entry.py:490-492 | splitting the join of `["a|b"]` on `|` yields `["a\\", "b"]`: the escape is not reversed |
| MultiStr.MapField | pyglossary/entry.py:364-388 | a scalar stays a scalar with `fn` applied; a sequence becomes a tuple of the same length with `fn` applied to each element in place |
| Entries.NewEntry | pyglossary/entry.py:230-265 | the word is checked first (TypeError), then the definition (TypeError), then the format must be `m`, `h` or `x` (ValueError); on success both list views equal the given strings, one-element lists are scalars, format and byte progress are stored |
| Entries.OneElementListCollapses | pyglossary/entry.py:247-249 | an entry built from a one-element word list has `words == [w]` and `word == w` |
| Entries.DetectDefiFormat | pyglossary/entry.py:349-354 | only a plain-text entry can change, and only to HTML, exactly when the lower-cased definition contains a tag opening; word, definition and every other format are untouched |
| Entries.DetectLinkExample | pyglossary/entry.py:349-354 | an upper-case `<A HREF=` makes a plain entry HTML, since detection lower-cases first |
| Entries.DetectPlainExample | pyglossary/entry.py:349-354 | a definition without tags stays plain |
| HtmlPattern.Search | pyglossary/entry.py:175-195 | the scan returns true exactly when one of the sixteen tag openings starts somewhere in the text, which is what `.*(?:...)` with DOTALL matches |
| HtmlPattern.NoAngleBracketNoMatch | pyglossary/entry.py:175-195 | text without `<` never matches the pattern |
| Entries.AddAlt | pyglossary/entry.py:359-362 | the word list becomes the old list with `alt` appended; the definition and format do not change |
| Entries.AddAltAsWritten | pyglossary/entry.py:359-362 | `words.append(alt)` fails exactly when the words are held in a tuple, and otherwise appends |
| Entries.AddAltAfterStripFails | pyglossary/entry.py:395-401 | after `strip` on an entry with two or more words, `addAlt` as written fails, while the corrected `addAlt` appends |
| Entries.EditFuncWord | pyglossary/entry.py:364-375 | every word is replaced by `fn` of itself, with the count kept; the definition and format are untouched |
| Entries.EditFuncDefi | pyglossary/entry.py:377-388 | every definition is replaced by `fn` of itself, with the count kept; the word and format are untouched |
| Entries.ReplaceInWord | pyglossary/entry.py:403-412 | every word has `source` replaced by `target`, with the count kept; the definition is untouched |
| Entries.ReplaceInDefi | pyglossary/entry.py:414-423 | every definition has `source` replaced by `target`, with the count kept; the word is untouched |
| Entries.Replace | pyglossary/entry.py:425-430 | the replacement applies to every word and every definition |
| Entries.ReplaceBySelfKeepsViews | pyglossary/entry.py:425-430 | replacing a string by itself leaves both list views unchanged |
| Strings.Replace | pyglossary/entry.py:408 | `s.replace(x, x) == s`, including for an empty `x`; a target at least as long as the source never shortens the string; an empty source makes the result `len(s) + 1` targets longer |
| Strings.ReplaceCharIsSplitJoin | pyglossary/entry.py:408 | for a one-character source `c`, `s.replace(c, t) == t.join(s.split(c))`: each occurrence of `c` becomes `t` and every other character stays, in order |
| Strings.ReplaceEmptyIsJoinOfChars | pyglossary/entry.py:408 | `s.replace("", t) == t.join([""] + list(s) + [""])`: `t` goes into each of the `len(s) + 1` gaps |
| MultiStr.EscapeIsSplitJoin | pyglossary/entry.py:200-204 | escaping an element splits it at each `|` and joins the pieces with `\|` |
| Strings.ReplaceAbsent | pyglossary/entry.py:408 | a string in which the source does not occur is returned unchanged |
| Strings.Trim | pyglossary/entry.py:399-400 | `str.strip` returns the slice left after cutting only whitespace from both ends, and it neither starts nor ends with whitespace |
| Strings.TrimIdempotent | pyglossary/entry.py:399-400 | stripping twice is stripping once |
| Strings.Split | pyglossary/entry.py:491-492 | `str.split(sep)` gives at least one piece, no piece contains `sep`, and joining the pieces with `sep` gives back the string |
| Strings.SplitJoin | pyglossary/entry.py:491-492 | splitting a join gives back the pieces when none contains the separator |
| TrailingBr.StripTrailingBr | pyglossary/entry.py:390-393 | the result is a prefix of the input that ends in neither `<BR>` nor `<br>`, and what was cut off is a run of those tags |
| TrailingBr.StripTrailingBrUnique | pyglossary/entry.py:390-393 | that prefix is unique: any prefix not ending in a tag, followed by a run of tags, strips back to itself |
| Entries.Strip | pyglossary/entry.py:395-401 | every word and definition is whitespace-stripped, and then each definition loses its trailing break tags; counts are kept, no word has outer whitespace, no definition ends in a break tag, and a word or definition sequence becomes a tuple |
| Entries.StripExample | pyglossary/entry.py:390-393 | both spellings are removed from the end: `hi<br><BR>` becomes `hi` |
| Entries.NonEmpty | pyglossary/entry.py:436 | the filter keeps exactly the non-empty words and never grows the list; a one-word list is kept when the word is non-empty and emptied otherwise |
| Entries.NonEmptyAppend | pyglossary/entry.py:436 | filtering a concatenation is the concatenation of the filtered parts, in order; with the one-word case this determines the result |
| Entries.UniqueEverseen | pyglossary/entry.py:437 | the output holds exactly the words not already seen |
| Entries.UniqueEverseenNoDuplicates | pyglossary/entry.py:437 | `unique_everseen` yields no word twice |
| Entries.UniqueEverseenOrder | pyglossary/entry.py:437 | `unique_everseen` yields words in the order of their first occurrences |
| Entries.RemoveEmptyAndDuplicateAltWords | pyglossary/entry.py:432-438 | a single word is left alone; otherwise the word list holds exactly the non-empty words, each once, in order of first occurrence, stored as a list; nothing else changes |
| Entries.RemoveDuplicatesExample | pyglossary/entry.py:432-438 | `["cat", "", "cat", "Cat"]` becomes `["cat", "Cat"]`: case-sensitive, order-preserving, empties dropped |
| Entries.RemoveCanLeaveNoWords | pyglossary/entry.py:432-438 | a list of only empty words becomes an empty word list |
| Resources.NewResource | pyglossary/entry.py:36-51 | with `inTmp` the bytes go to the temporary file and the in-memory copy is dropped; either way the resource reads back exactly the bytes given, and no other file changes |
| Resources.GetData | pyglossary/entry.py:56-61 | a spooled resource reads its file and fails if it is gone; otherwise the in-memory bytes are returned |
| Resources.Size | pyglossary/entry.py:63-67 | the size succeeds exactly when reading does and equals the length of the bytes read |
| Resources.PathJoin | pyglossary/entry.py:72 | posix `join`: an absolute name replaces the directory; otherwise the result is directory then name when the directory is empty or ends in `/`, and directory, `/`, name when it does not |
| Resources.Save | pyglossary/entry.py:69-82 | it succeeds exactly when the target has a directory part and the content is readable; the target file then holds the content, the resource reads back the same content, a spooled resource is repointed at the target and its temporary file is gone (unless it was the target), an in-memory resource is returned unchanged, and no other file changes |
| Resources.FromFile | pyglossary/entry.py:166-170 | an empty in-memory resource pointed at the path: it reads that file, or nothing when the path is empty |
| Resources.DefiDeterminesWord | pyglossary/entry.py:84-94 | two resources have the same definition (`Resources.Defi`) exactly when they have the same word (`Resources.Word`) |
| RawEntries.DataAccessors | pyglossary/entry.py:84-118 | a resource's word (`Resources.Word`) is its file name, its definition (`Resources.Defi`) is `File: ` and that name, each as a one-element list, and its format is `b` |
| RawEntries.Apply | pyglossary/entry.py:124-151 | every edit of a resource is a no-op; an edit of a text entry keeps it a text entry, and only format detection touches the format, keeping it valid; definition edits keep the word, word edits keep the definition |
| RawEntries.TextGetRaw | pyglossary/entry.py:440-463 | the tuple holds the scalar views, and carries the format exactly when it is set and differs from the glossary default; it is compressed exactly when the glossary says so |
| RawEntries.DataGetRaw | pyglossary/entry.py:153-164 | a triple `(fname, path, "b")`, where the path is the one `save` returned in the staging directory, or empty without one; it fails exactly when saving fails |
| RawEntries.FromRaw | pyglossary/entry.py:465-498 | a `b` triple becomes `DataEntry.fromFile(word, defi)`; otherwise the format is the third element or the caller's default, the constructor refuses an invalid one, and the word and definition are split on `|` exactly when alternates are enabled |
| RawEntries.TextRoundTrip | pyglossary/entry.py:440-498 | with alternates off, decoding the raw form gives back the scalar views and the format, for any reader default when the format differs from the glossary default and for the glossary default otherwise |
| RawEntries.TextRoundTripWithAlts | pyglossary/entry.py:440-498 | with alternates on, the list views come back as well when no element contains `|` and neither list is empty |
| RawEntries.PipeInWordSplits | pyglossary/entry.py:490-492 | a single word `a|b` comes back as the two words `a` and `b` |
| RawEntries.DataRoundTripStaged | pyglossary/entry.py:153-170 | with a staging directory, a readable resource reads back the same bytes under the same name after the raw round trip |
| RawEntries.DataRoundTripUnstaged | pyglossary/entry.py:153-170 | without a staging directory the round trip gives an empty in-memory resource with the same name |
| RawEntries.DefaultSortKey | pyglossary/entry.py:206-208 | `bytes.lower()`: same length, no ASCII capital left, each ASCII capital becomes its small letter and every other character is kept |
| RawEntries.DefaultSortKeyIdempotent | pyglossary/entry.py:206-208 | lower-casing a key again changes nothing |
| RawEntries.EntrySortKey | pyglossary/entry.py:210-216 | the key of the first word, none when there is no word |
| RawEntries.RawSortKey | pyglossary/entry.py:218-228 | the key of the tuple's first element, the joined word, and none for an uncompressed tuple |
| RawEntries.SortKeysAgreeOnSingleWord | pyglossary/entry.py:210-228 | for a scalar word and compressed raw entries, the two keys agree |
| RawEntries.SortKeysDifferWithAlternates | pyglossary/entry.py:210-228 | with two or more words, the default keys differ |
| CcCedict.LineShapeSpelledOut | pyglossary/plugins/cc_cedict/conv.py:7 | the group-by-group shape holds exactly when the line is `TRAD SIMP [PINYIN] /ENG/` with each group non-empty and inside its character class |
| CcCedict.MatchGroups | pyglossary/plugins/cc_cedict/conv.py:7 | any groups found make up the line in the pattern's shape |
| CcCedict.MatchGroupsComplete | pyglossary/plugins/cc_cedict/conv.py:7 | whenever the line has the shape, exactly those groups are found, so the match is unique |
| CcCedict.ParseLine | pyglossary/plugins/cc_cedict/conv.py:32-40 | nothing exactly when the stripped line lacks the shape; otherwise the traditional and simplified forms, the pinyin with `u:` replaced by `v` and no `u:` left, and a non-empty gloss list whose pieces contain no `/` and join with `/` to the gloss text |
| CcCedict.ReplacedHasNoUColon | pyglossary/plugins/cc_cedict/conv.py:38 | after replacing every `u:` by `v`, no `u` is directly followed by `:` |
| CcCedict.NoUColonAfterReplace | pyglossary/plugins/cc_cedict/conv.py:38 | the rewritten pinyin contains no `u:` |
| CcCedict.MakeEntryNames | pyglossary/plugins/cc_cedict/conv.py:43-45 | the names are simplified, traditional, pinyin, then one summary per gloss in order, so `3 + len(eng)` of them |
| CcCedict.ColorRun | pyglossary/plugins/cc_cedict/conv.py:63-66 | it succeeds exactly when every tone has a colour, pairing unit `i` plus a space with the colour of tone `i`; otherwise it fails on the first tone without one |
| CcCedict.Colorize | pyglossary/plugins/cc_cedict/conv.py:50-66 | on a count mismatch a listed headword takes its tones from `CUSTOM_TONES` and a syllable list raises; if the counts still differ every unit is emitted with an empty colour; otherwise units are coloured by tone in order |
| CcCedict.CustomTonesLineUp | pyglossary/plugins/cc_cedict/conv.py:21-29 | every `CUSTOM_TONES` entry has one known tone per character, so a listed headword arriving with the wrong number of tones is coloured tone by tone and never with an empty colour |

## Left out

- Pickling and zlib compression are an invertible wrapper (`Plain` or `Compressed`). UTF-8 encoding and decoding are the identity on strings, so decoding failures are not modelled.
- `mktemp`, `open`, `read`, `write`, `getsize` and `shutil.move` act on a map from paths to bytes. Directories are not modelled: `os.makedirs` always succeeds, except for the empty directory name it is given when the target path has no `/`, where it raises.
- `Strings.AsciiLower`: `str.lower()` is modelled as ASCII lower-casing. The only characters outside ASCII that lower-case into ASCII are U+0130 and U+212A. Neither can complete a tag opening, so whether the HTML pattern matches is decided exactly.
- The `defiFormat` setter is not modelled. It is declared under the name `setDefiFormat`, so plain assignment to `defiFormat` is refused in Python; the model builds a new entry instead.
- The deprecated `get*` accessors, `byteProgress()`, `isData()` and logging are left out.
- `log.warn` in `colorize` and the lxml HTML writer are left out. `colorize` returns its (text, colour) pairs, and a `KeyError` part-way through is modelled as failing the whole call.
- `render_article`, the pinyin `convert` and `summarize` are not part of this model. `summarize` is a parameter of `CcCedict.MakeEntryNames`, and `render_article`'s pairing of pinyin syllables with tones is covered by `CcCedict.Colorize` on a syllable list.
- Aliasing is not modelled. The constructor stores the caller's list itself (pyglossary/entry.py:262), `words` returns that same list (pyglossary/entry.py:288) and `addAlt` appends to it in place (pyglossary/entry.py:360-362), so in Python the caller's list, the `words` result and the entry share every append. The model's values are immutable and each operation returns a new entry.
- `MultiStr.FromInput`: `isinstance(word, list)` (pyglossary/entry.py:247) accepts a list of anything, such as `[123]`, and a one-element list then stores its element whatever its type. `ListInput` carries only strings, so lists holding other values are not modelled; a non-list, non-string argument is modelled as refused (`OtherInput`).
- `Strings.Replace`: for a source of two or more characters the left-to-right, non-overlapping scan is stated only by the definition; the contract and lemmas give the self-replacement, the length bound and the unchanged string when the source does not occur. The one-character source, which `_join` uses, and the empty source are stated in full.
- `RawEntries.Apply`: the `addAlt` edit uses the corrected `Entries.AddAlt`. `Entries.AddAltAsWritten` keeps the failing original.

## Findings

| source | as written | input that shows it | evidently intended | confidence | as-written member | corrected member |
|---|---|---|---|---|---|---|
| pyglossary/entry.py:359-362 | `addAlt` calls `self.words.append(alt)`, but `editFuncWord`, `replaceInWord`, `replace` and `strip` store the words as a tuple | `Entry(["a", "b"], "d")`, then `strip()`, then `addAlt("c")` raises AttributeError: a tuple has no `append` | the words become `["a", "b", "c"]` whatever sequence type holds them | high, not executed | Entries.AddAltAsWritten | Entries.AddAlt |
