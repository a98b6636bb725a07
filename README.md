# Kamus Malay Extension — a Dafny model

Kamus is a browser extension that translates English words on a web page.
Double-clicking a selection opens a popup with the word's translations.

The extension's background script keeps three values in the extension's
local storage:

- the index of every loaded dictionary, by dictionary name;
- the list of dictionary records (name, enabled flag, optional keywords);
- the merged index of the enabled dictionaries.

An index is a JavaScript object from normalised keys to arrays of entries,
in key insertion order.

The content script runs on each page. It works out which dictionaries the
page activates, asks the background for the merged index of those
dictionaries, and answers a double click by trying five match steps in
turn:

1. a multi-word phrase key;
2. the exact key;
3. the stemmer's output;
4. a translation containing the text;
5. a vowel correction of the stem.

If all five fail, it falls back to a greedy segmentation of the text into
two or three keys. An older single-dictionary content script with its own
loader and a two-step lookup is modelled too.

The modules follow the scripts:

| module | file | models |
|---|---|---|
| `Options`, `Text` | `text.dfy` | `trim`, `split`, `join` and `toLowerCase` on ASCII, the quote-stripping and letter-filtering regular expressions, and `split(/\s+/)` |
| `OrderedMaps` | `ordered_map.dfy` | insertion-ordered objects: assignment, `delete`, `Object.values` (with JavaScript's property order, array indices first), `flat` |
| `RowIndex` | `ordered_map.dfy` | the row loop both CSV loaders share; the parse of one row is a parameter |
| `Search` | `search.dfy` | the Boyer–Moore-style keyword search (`createBadCharTable`, `searchKeyword`, `searchKeywords`) |
| `DictionaryList` | `sources.dfy` | the stored records and the load, toggle, remove and update-keywords edits |
| `Activation` | `activation.dfy` | the active-dictionary filter of `updateActiveDictionaries` |
| `Dictionaries` | `dictionaries.dfy` | the CSV parse, `mergeDictionaries`, `filterDictionary` and their reference definitions |
| `BackgroundScript` | `background.dfy` | the background's loops as methods, and a class `Background` over the stored values with one method per message handler |
| `Matcher` | `matcher.dfy` | `correctStemmedWord`, `findPartialMatches` and `findMatches` |
| `ContentScript` | `content_script.dfy` | the selection test and `handleDoubleClick`, and a class `Page` over the script's `dictionary` and `dictionaryList` |
| `LegacyContent` | `legacy.dfy` | the single-dictionary `loadDictionary` and its double-click lookup |
| `Scenarios` | `scenarios.dfy` | concrete runs of the cascade on tiny indexes |
| `Findings` | `findings.dfy` | the inherited-name defect of both loaders, on one concrete row |

How the model represents the program:

- **Objects.** A JavaScript object is `OMap<V>(keys, items)`. The sequence
  `keys` is the insertion order and the map `items` the contents. The ghost
  predicate `Valid` says the keys are distinct and are exactly the map's
  domain.
- **Property order.** `Object.keys`, `Object.values` and `Object.entries`
  list array-index keys (such as `2024`) first, in ascending numeric order,
  and then the other keys in insertion order (`OrderedMaps.PropertyOrder`).
  An index's keys never look like array indices
  (`Dictionaries.LoadedKeyNotArrayIndex`), so for an index this is insertion
  order (`OrderedMaps.Values`, `OrderedMaps.Flatten`). The store of
  dictionaries is keyed by file names, which can be array indices, so its
  values are listed by `OrderedMaps.OwnValues`. Loading `english.csv` and then
  `2024.csv` merges `2024` first (`OrderedMaps.ArrayIndexKeyFirst`).
- **`hasOwnProperty` and truthiness tests** are both membership in `items`.
  They differ on a name every object inherits, such as `constructor` or
  `__proto__`, where a truthiness test sees the inherited value. This happens
  in two places:
  - the loaders' `if (!d[v])` test, which `## Findings` covers;
  - `if (merged[key])` at src/background.js:7. When an index holding the key
    `constructor` is merged, `merged[key]` is the inherited function, and the
    spread `[...merged[key], ...value]` throws because a function is not
    iterable. `Dictionaries.MergeKey` concatenates instead.

  The phrase test at content.js:255 never meets such a name, because its key
  joins words of four letters or more with underscores.
- **The stemmer** (a Porter stemmer loaded from another file) is a
  parameter `stem: string -> string`.
- **The page.** The page's body text and the selection are parameters.
- **Keyword search.** The search is specified against substring
  occurrence of the lower-cased keyword in the lower-cased text.
- **Sorting.** JavaScript's sort is stable, so the longest-first sort is
  an insertion sort. It is proved to be a permutation, to be descending in
  length, and to keep the keys of each length in their original order.

Two things one might expect of the partial step do not hold of the code,
and the model follows the code:

- **Short keys never fit.** The code accepts a segment only when its
  `s`-stripped form has at least four characters. With the keys `cat` and
  `fish`, the input `catfish` gets no segments, because `cat` never fits
  (`Scenarios.CatfishHasNoSegments`).
- **Unmatched remainder.** The code does not require the segments to
  consume the whole text; it checks only their number. So `kucingikanxyz`
  over `kucing` and `ikan` gives two partial results and drops `xyz`
  (`Scenarios.PartialDropsRemainder`). This looks like a latent bug rather
  than a design choice, but the model keeps the lenient behaviour, and
  `Matcher.GreedySplits` states exactly what is consumed.

## Model

| member | source | states |
|---|---|---|
| Text.Trim | src/background.js:41 | the result has no whitespace (JavaScript's `\s` set) at either end, and it is the input with only whitespace removed before and after it |
| Text.TrimOfTrimmed | src/background.js:45 | trimming text without surrounding whitespace changes nothing |
| Text.SplitOn | src/background.js:45 | every part is free of the separator; there is one part exactly when the separator is absent |
| Text.SplitOnAbsent | src/background.js:41 | text without the separator splits into itself alone |
| Text.JoinOfSplit | src/background.js:45-46 | joining the split pieces with the same separator gives back the text |
| Text.SplitOfJoin | src/background.js:45-46 | splitting a join of separator-free parts gives back the parts |
| Text.JoinOfSplitReplaces | src/background.js:53-56 | `split(' ')` then `join('_')` is replacing every space by an underscore |
| Text.StripQuotes | src/background.js:46 | removing one leading and one trailing quote never lengthens the text |
| Text.StripQuotesOfQuoted | src/background.js:46 | a quoted field loses exactly its surrounding quotes, whatever it contains |
| Text.StripQuotesOfUnquoted | src/background.js:46 | a field without surrounding quotes is unchanged |
| Text.LowerStr | content.js:27-28 | `toLowerCase` on ASCII: same length, no upper-case letter is left, letters stay letters and every other character is unchanged |
| Text.Join | src/background.js:46 | `join` of one piece is that piece; with several, the result starts with the first piece followed by the separator |
| Text.NormalizePhrase | content.js:248 | `toLowerCase().replace(/[^a-z\s]/g, '')` keeps only lower-case letters and whitespace and never lengthens the text |
| Text.NormalizeLetters | src/content.js:19 | `toLowerCase().replace(/[^a-z]/g, '')` keeps only the letters `a` to `z` |
| Text.NormalizePhraseOfLetters | content.js:248 | on letters and whitespace, the normalisation is just lower-casing |
| Text.NormalizeLettersOfLower | src/content.js:19 | a lower-case word is its own letter normalisation |
| Text.LowerStrIdempotent | content.js:27-28 | lower-casing twice is lower-casing once |
| Text.SplitWhitespace | content.js:249 | `split(/\s+/)` yields pieces free of whitespace; there is one piece exactly when the text has no whitespace |
| Text.SplitWhitespaceOfWord | content.js:249 | text without whitespace is one word |
| Text.LowerWord | content.js:248-249 | a lower-case word is its own lower-casing and normalisation, and a single word |
| OrderedMaps.Empty | src/background.js:18 | `{}` is well formed, with no keys |
| OrderedMaps.Put | src/background.js:10 | assignment updates the value; a new key goes last and an existing key keeps its place |
| OrderedMaps.Remove | src/background.js:22 | `delete` drops the key from the contents and from the order, and keeps the other keys' order |
| OrderedMaps.RemoveAfterPut | src/background.js:20-23 | assigning a fresh key and deleting it again restores the object |
| OrderedMaps.Push | src/background.js:59-62 | pushing under a key appends to that key's list only, and adds the key last when it is new |
| OrderedMaps.Values | content.js:270 | lists each key's value in insertion order, which is `Object.values` order for keys that are not array indices (see `OwnValuesInInsertionOrder`) |
| OrderedMaps.Flatten | content.js:270 | `Object.values(d).flat()`: the lists of `Values`, concatenated; no contract of its own, the translation step's lemmas state what is found in it |
| OrderedMaps.PropertyOrder | src/background.js:32 | the order `Object.values` lists keys in: as many keys as inserted, each one an inserted key |
| OrderedMaps.PropertyOrderPermutes | src/background.js:32 | that order is a permutation of insertion order: the array-index keys first, ascending, then the other keys in insertion order |
| OrderedMaps.OwnValues | src/background.js:32 | `Object.values` of the store: one value per key, in property order |
| OrderedMaps.OwnValuesInInsertionOrder | src/background.js:32 | without array-index keys, property order is insertion order |
| OrderedMaps.OwnValuesSingle | src/background.js:211-215 | a one-key object lists just its value |
| OrderedMaps.IndexKeyBefore | src/background.js:76 | an array-index key stored after another key is listed before it |
| OrderedMaps.ArrayIndexKeyFirst | src/background.js:76 | the store `{english, 2024}` lists `2024` first, so its index is merged first |
| RowIndex.PushAll | src/background.js:58-63 | pushing one entry under several keys keeps the object well formed and without empty lists |
| RowIndex.PushAllContents | src/background.js:58-63 | under each key, the entries after the pushes are the old ones followed by one copy per occurrence of the key; the key is present exactly when it was before or was pushed |
| RowIndex.AddRow | src/background.js:48-64 | adding one row keeps the object well formed and without empty lists |
| RowIndex.Build | src/background.js:44-65 | the object the row loop builds is well formed and has no empty list |
| RowIndex.Rows | src/background.js:41 | `csv.trim().split('\n')`, the rows of a CSV text (also src/background.js:185 and src/content.js:13); no contract of its own, `Scenarios.RunRowIsOneRow` shows a one-row case |
| RowIndex.BuildContents | src/background.js:44-65 | the built object holds a key exactly when an accepted row registers it, and under it the entries filed row by row |
| RowIndex.CopiesOf | src/background.js:58-63 | an entry is filed under a key exactly when the key is among its variations |
| RowIndex.FiledUnderFrom | src/background.js:44-65 | every filed entry comes from an accepted row that registers the key |
| RowIndex.FiledUnderHas | src/background.js:44-65 | each accepted row's entry is filed under each of its variations |
| RowIndex.BuildIndex | src/background.js:44-65 | the imperative row loop builds exactly `Build` |
| RowIndex.BuildAsWritten | src/background.js:59-62 | the loop as written yields a well-formed object whenever it does not throw |
| RowIndex.PushAsWritten | src/background.js:59-62 | one push as written: `None` (a throw) when the key is an inherited name the object lacks, otherwise `Push`; no contract of its own, `PushAllAsWrittenThrows` states it |
| RowIndex.PushAllAsWritten | src/background.js:58-63 | the pushes of one row as written keep the object well formed when none throws |
| RowIndex.BuildAsWrittenAgrees | src/background.js:59-62 | when no row registers an inherited name, the loop as written builds the corrected object |
| RowIndex.PushAllAsWrittenThrows | src/background.js:59-62 | pushing first under an inherited name the object lacks throws |
| RowIndex.OneInheritedRow | src/background.js:59-62 | a single row whose first key is an inherited name makes the loop as written throw, while the corrected loop files the entry under it |
| Search.LastIndexBelow | content.js:20-22 | the last occurrence of a character below an index, or -1 when there is none |
| Search.CreateBadCharTable | content.js:17-24 | the table holds exactly the characters of the lower-cased pattern before its last position, each mapped to its distance from the end |
| Search.AllMatch | content.js:38 | agreement at every position of the keyword is an occurrence |
| Search.MismatchRulesOut | content.js:34 | a mismatching position rules out the alignment |
| Search.ShiftIsSafe | content.js:39 | the shift taken after a mismatch skips no occurrence and moves at least one position |
| Search.Shift | content.js:39 | the shift is at least the matched count plus one (`m - j`) and at least the bad-character shift, and it is one of the two |
| Search.NoneLeft | content.js:41 | once the scan passes the end with no occurrence behind it, there is none |
| Search.Scan | content.js:30-41 | the comparison loop answers true exactly when the keyword occurs in the text |
| Search.SearchKeyword | content.js:26-42 | true exactly when the lower-cased keyword is a substring of the lower-cased text |
| Search.SearchKeywords | content.js:44-46 | true exactly when some keyword is found |
| Search.KeywordFound | content.js:26-42 | the meaning of `searchKeyword`: the lower-cased keyword occurs in the lower-cased text; no contract of its own, `SearchKeyword` is proved against it |
| Search.AnyKeywordFound | content.js:44-46 | the meaning of `searchKeywords`: some keyword is found; no contract of its own, `SearchKeywords` is proved against it |
| DictionaryList.Names | src/background.js:72 | the name of each record, in order |
| DictionaryList.EnabledNames | src/background.js:77 | a name is listed exactly when some enabled record has it |
| DictionaryList.AddIfAbsent | src/background.js:72-74 | the name ends up listed; an unknown name is appended as enabled, and a known name leaves the list unchanged |
| DictionaryList.Toggle | src/background.js:98-103 | records with the name have `enabled` flipped; everything else is unchanged |
| DictionaryList.SetKeywords | src/background.js:150-155 | records with the name get the new keywords; everything else is unchanged |
| DictionaryList.RemoveNamed | src/background.js:127 | `filter`: no kept record has the removed name, and the list does not grow |
| DictionaryList.AddIfAbsentUnique | src/background.js:72-74 | loading keeps names unique |
| DictionaryList.ToggleTwice | src/background.js:98-103 | toggling twice restores the list |
| DictionaryList.ToggleOthers | src/background.js:98-105 | toggling leaves whether any other dictionary is enabled unchanged |
| DictionaryList.ToggleNamed | src/background.js:98-105 | toggling a listed dictionary flips whether it is enabled |
| DictionaryList.ToggleNames | src/background.js:98-103 | toggling keeps the names and their order |
| DictionaryList.SetKeywordsEnabledNames | src/background.js:150-155 | updating keywords keeps the enabled names and all names, in order |
| DictionaryList.RemoveNamedNames | src/background.js:127 | removing drops exactly the named dictionary and keeps names unique |
| DictionaryList.RemoveNamedUnique | src/background.js:127 | removing keeps names unique |
| DictionaryList.RemoveNamedMembers | src/background.js:127 | a record is kept exactly when it was listed under another name |
| DictionaryList.RemoveNamedAppend | src/background.js:127 | removal from a concatenation is the concatenation of the removals, so the kept records stay in list order |
| DictionaryList.RemoveNamedOne | src/background.js:127 | one record is kept exactly when its name differs |
| DictionaryList.RemoveNamedAbsent | src/background.js:127 | removing a name that is not listed leaves the list as it was |
| Activation.VisibleText | content.js:12-14 | the page text's first 10000 characters, or all of it when shorter |
| Activation.IsActive | content.js:51 | the filter predicate: enabled, and keywords absent, empty or one of them found; no contract of its own, `ActiveDictionaries` states it |
| Activation.ActiveDictionaries | content.js:50-52 | a name is active exactly when a record with that name is enabled and has no keywords, an empty keyword list, or a keyword found on the page |
| Activation.ActiveAppend | content.js:50-52 | the active names follow the list order |
| Activation.ActiveWithinEnabled | content.js:50-52 | only enabled dictionaries are active, and without keywords every enabled one is |
| Activation.ComputeActiveDictionaries | content.js:50-52 | the filter that runs each keyword search in turn gives exactly the active names |
| Dictionaries.TrimAll | src/background.js:45 | every field is trimmed |
| Dictionaries.TrimAllOfUnpadded | src/background.js:45 | trimming fields without padding changes nothing |
| Dictionaries.ParseRow | src/background.js:45-48 | an accepted row has a non-empty, trimmed word and a non-empty translation |
| Dictionaries.ParseRowOfFormatted | src/background.js:45-48 | a row `word,translation` is read back as the word and the unquoted translation, commas inside the translation included |
| Dictionaries.ParseRowOneField | src/background.js:45-48 | a row without a comma is skipped |
| Dictionaries.Variations | src/background.js:49-56 | the keys are the normalised word and, when it contains a space, the same text with underscores for spaces |
| Dictionaries.Contribution | src/background.js:45-63 | what one row adds: its variations and the entry `{word, translationEntry, dictionaryName}`; no contract of its own, `LoadedEntry` and `LoadedUnder` state it |
| Dictionaries.VariationNotArrayIndex | src/background.js:49-56 | a variation of a normalised word never starts with a digit, so it is not an array index |
| Dictionaries.LoadedKeyNotArrayIndex | src/background.js:41-65 | no key of a loaded index is an array index, so `Object.entries` lists an index in insertion order |
| Dictionaries.LoadIndex | src/background.js:41-65 | a loaded index is well formed and has no empty list |
| Dictionaries.LoadedKeys | src/background.js:41-65 | a key is present exactly when some accepted row's normalised word or its underscore form is that key |
| Dictionaries.LoadedEntry | src/background.js:58-63 | each accepted row's entry is filed under its normalised word and, for a phrase, its underscore form |
| Dictionaries.LoadedUnder | src/background.js:58-63 | an accepted row's entry is filed under each of its keys |
| Dictionaries.LoadedEntryFrom | src/background.js:62 | every loaded entry belongs to the dictionary loaded and comes from an accepted row |
| Dictionaries.MergeKey | src/background.js:7-11 | merging one key keeps the object well formed |
| Dictionaries.MergeKeyContents | src/background.js:7-11 | one key's entries are appended to, a new key goes last, and nothing else changes |
| Dictionaries.MergePrefix | src/background.js:6-12 | the merge loop keeps the object well formed |
| Dictionaries.MergePrefixItems | src/background.js:6-12 | after the first `n` keys of `b`, each key holds `a`'s entries followed by `b`'s when `b`'s key was reached |
| Dictionaries.MergePrefixItemsLast | src/background.js:7-11 | the key merged last holds `a`'s entries followed by `b`'s |
| Dictionaries.MergePrefixItemsOther | src/background.js:6-12 | a key other than the last merged one keeps its earlier contents |
| Dictionaries.MergePrefixKeys | src/background.js:5-12 | the merged keys are `a`'s followed by `b`'s new ones, in order |
| Dictionaries.Merge | src/background.js:4-14 | `mergeDictionaries(a, b)`: the merge step over all of b's keys; no contract of its own, `MergeContents` states its keys and contents |
| Dictionaries.MergeContents | src/background.js:4-14 | the merge is well formed, holds the keys of either input, and puts `a`'s entries before `b`'s under each key |
| Dictionaries.NewKeysOfEmpty | src/background.js:5-12 | every key is new to `{}` |
| Dictionaries.MergeIntoEmpty | src/background.js:32 | merging into `{}` gives back the index itself |
| Dictionaries.MergeIntoEmptyItems | src/background.js:32 | merging into `{}` keeps the contents |
| Dictionaries.MergeAll | src/background.js:32 | the reduce yields a well-formed index |
| Dictionaries.MergeAllHas | src/background.js:32 | the merged index holds a key exactly when some stored index does |
| Dictionaries.MergeAllGet | src/background.js:32 | under each key the merged index holds the stored indexes' entries in store order |
| Dictionaries.SomeIndexHolds | src/background.js:32 | some index holds a key exactly when one of the earlier ones or the last one does |
| Dictionaries.KeepEntries | src/background.js:20 | filtering never lengthens the list |
| Dictionaries.KeepMembers | src/background.js:20 | filtering keeps exactly the entries whose dictionary is enabled |
| Dictionaries.KeepAppend | src/background.js:20 | filtering works piecewise, so kept entries keep their order |
| Dictionaries.KeepAll | src/background.js:20 | if every entry's dictionary is enabled, filtering keeps the list |
| Dictionaries.FilterStep | src/background.js:20-23 | one filter step keeps the object well formed |
| Dictionaries.FilterStepContents | src/background.js:20-23 | a key is added last when something is kept and dropped otherwise; nothing else changes |
| Dictionaries.FilterPrefix | src/background.js:19-24 | the filter loop keeps the object well formed |
| Dictionaries.FilterPrefixItems | src/background.js:19-24 | after `n` keys, a key is present exactly when it was reached and kept something, and holds its kept entries |
| Dictionaries.FilterPrefixKeys | src/background.js:19-24 | after `n` keys, the keys are the reached keys that kept something, in order |
| Dictionaries.FilterPrefixNext | src/background.js:19-24 | one more turn of the loop is one more filter step |
| Dictionaries.FilterIndex | src/background.js:17-26 | `filterDictionary(d, names)`: the filter step over all of d's keys; no contract of its own, `FilterContents` and `FilterShape` state what it keeps |
| Dictionaries.FilterContents | src/background.js:17-26 | under each key the filter holds exactly the enabled entries, in order; keys left empty are dropped; the rest keep their order |
| Dictionaries.FilterShape | src/background.js:17-26 | a filtered index has no empty list and only keys of the original |
| Dictionaries.KeptKeysAll | src/background.js:19-24 | when every key keeps something, all keys stay |
| Dictionaries.KeptEveryKey | src/background.js:21 | in an index without empty lists whose entries are all enabled, every key keeps something |
| Dictionaries.FilterKeepsAll | src/background.js:17-26 | filtering an index without empty lists whose entries are all enabled changes nothing |
| Dictionaries.FilterKeepsAllKeys | src/background.js:17-26 | such a filter keeps the key order |
| Dictionaries.FilterKeepsAllItems | src/background.js:17-26 | such a filter keeps the contents |
| BackgroundScript.ValuesValid | src/background.js:32 | every stored index handed to the reduce is well formed |
| BackgroundScript.Coherent | src/background.js:67-83 | the store invariant every handler keeps: valid indexes, unique names, the list names exactly the stored dictionaries, and `dictionary` is the filter of the merged store by the enabled names; no contract of its own, the `*Coherent` lemmas state that each handler keeps it |
| BackgroundScript.Filtered | src/background.js:76-78 | the merged stored indexes, in `Object.values` order, filtered by the given names; no contract of its own, `FilterContents` and `MergeAllGet` state its contents |
| BackgroundScript.FilterStored | src/background.js:32-33 | the reduce and the filter loop compute `Filtered` |
| BackgroundScript.NamesSnoc | src/background.js:73 | appending a record adds exactly its name |
| BackgroundScript.LoadStoreValid | src/background.js:71 | storing a well-formed index keeps the store well formed |
| BackgroundScript.LoadCoherent | src/background.js:67-83 | the load handler keeps the store coherent: names unique, the list names exactly the stored dictionaries, and `dictionary` is the filter by the enabled names |
| BackgroundScript.ToggleCoherent | src/background.js:94-111 | the toggle handler keeps the store coherent |
| BackgroundScript.RemoveCoherent | src/background.js:122-136 | the remove handler keeps the store coherent |
| BackgroundScript.SetKeywordsCoherent | src/background.js:147-159 | updating keywords keeps the store coherent without recomputing `dictionary` |
| BackgroundScript.InstallCoherent | src/background.js:211-215 | storing a single-dictionary index unfiltered is coherent, because filtering it by its own name changes nothing |
| BackgroundScript.InstallFiltered | src/background.js:211-215 | the one-dictionary store, merged and filtered by its own name, is that dictionary's index |
| BackgroundScript.InstallDefaultCoherent | src/background.js:185-215 | the store written on install is coherent |
| BackgroundScript.ParseDictionary | src/background.js:41-65 | the loader builds exactly `LoadIndex` |
| BackgroundScript.MergeDictionaries | src/background.js:4-14 | the merge loop computes `Merge`, whose contents `MergeContents` states |
| BackgroundScript.MergeAllDictionaries | src/background.js:32 | the reduce computes `MergeAll`, whose contents `MergeAllGet` states |
| BackgroundScript.FilterKey | src/background.js:20-23 | one turn of the filter loop advances it by one key |
| BackgroundScript.FilterDictionary | src/background.js:17-26 | the filter loop computes `FilterIndex`, whose contents `FilterContents` states |
| BackgroundScript.InstallDefault | src/background.js:185-215 | install stores the loaded bundled index alone, its one enabled record, and that index as `dictionary`, and this is coherent |
| BackgroundScript.Background.constructor | src/background.js:68-69 | an empty store is coherent |
| BackgroundScript.Background.GetFilteredDictionary | src/background.js:29-36 | the answer is the merged stored indexes filtered by the requested names |
| BackgroundScript.Background.LoadDictionary | src/background.js:38-92 | the store gets the parsed index under the name, the list gets the name if it is new, `dictionary` is recomputed, and coherence is kept |
| BackgroundScript.Background.ToggleDictionary | src/background.js:93-120 | only the list is toggled and `dictionary` recomputed; coherence is kept |
| BackgroundScript.Background.RemoveDictionary | src/background.js:121-145 | the dictionary leaves the store and the list, `dictionary` is recomputed, and coherence is kept |
| BackgroundScript.Background.UpdateKeywords | src/background.js:146-168 | only the list's keywords change; coherence is kept |
| BackgroundScript.Background.OnInstalled | src/background.js:179-219 | with a stored `default` nothing changes; otherwise the store is reset to the bundled dictionary alone; coherence is kept |
| BackgroundScript.Background.Store | src/background.js:211-215 | writing a coherent triple leaves the store coherent |
| Matcher.CorrectionIndex | content.js:237-242 | the first vowel from a position on that makes a key, with no earlier one doing so |
| Matcher.CorrectStem | content.js:234-245 | nothing exactly when no vowel makes a key; otherwise a key that is the stem plus one vowel |
| Matcher.CorrectStemFirst | content.js:237-242 | the correction is the first vowel, in the order a, e, i, o, u, that makes a key |
| Matcher.CorrectStemmedWord | content.js:234-245 | the vowel loop computes `CorrectStem` |
| Matcher.ContainingIndex | content.js:271 | the first entry from a position on whose lower-cased translation contains the text |
| Matcher.TranslationContains | content.js:271 | `entry.translationEntry.toLowerCase().includes(t)`; no contract of its own, `FirstContainingFirst` is stated through it |
| Matcher.FirstContaining | content.js:270-271 | nothing exactly when no translation contains the text; otherwise an entry whose translation does |
| Matcher.FirstContainingFirst | content.js:271 | the entry found is the first such entry |
| Matcher.FitIndex | content.js:297-306 | the first candidate from a position on whose stripped form begins the text and has four characters or more |
| Matcher.StripS | content.js:298 | `word.endsWith('s') ? word.slice(0, -1) : word`; no contract of its own, `GreedySplits` is stated through it |
| Matcher.Fits | content.js:300 | the fit test: the stripped key starts the remaining text and has at least four characters; no contract of its own, `FitIndexAt` is stated through it |
| Matcher.FitIndexAt | content.js:297-306 | the inner loop stops at the first fitting candidate |
| Matcher.Greedy | content.js:294-311 | the loop records at most three keys |
| Matcher.GreedyUnfold | content.js:294-311 | one round records the first fitting key and consumes its stripped form |
| Matcher.SplitsStep | content.js:302 | consuming one stripped key extends the segmentation |
| Matcher.GreedySplits | content.js:294-311 | the recorded keys' stripped forms, followed by the remainder, make up the text |
| Matcher.GreedyDone | content.js:294-309 | with no text, no budget or no fitting key, nothing more is recorded |
| Matcher.GreedyWords | content.js:300-301 | every recorded key is a candidate whose stripped form has at least four characters |
| Matcher.InsertPermutes | content.js:290 | inserting adds exactly the key |
| Matcher.InsertDescending | content.js:290 | inserting into a longest-first list keeps it longest-first |
| Matcher.SortPermutes | content.js:290 | the sort is a permutation of the keys |
| Matcher.SortDescending | content.js:290 | the sort puts longer keys first |
| Matcher.InsertOfLength | content.js:290 | inserting keeps the order of the keys of each length |
| Matcher.SortByLength | content.js:290 | the stable longest-first sort; no contract of its own, `SortPermutes`, `SortDescending` and `SortStable` state it |
| Matcher.SortStable | content.js:290 | the sort is stable: keys of each length keep their order |
| Matcher.FitIndexLongest | content.js:297-300 | in a longest-first list, the first fitting candidate is a longest one |
| Matcher.PartialList | content.js:314 | one partial result per key, carrying that key's entries |
| Matcher.PartialResults | content.js:313-314 | the final guard: two or three keys of at least four characters give one partial result each, anything else gives none; no contract of its own, `PartialShape` states it |
| Matcher.Segments | content.js:294-311 | the greedy segmentation over the sorted keys, three keys at most; no contract of its own, `GreedySplits` and `GreedyWords` state it |
| Matcher.PartialMatches | content.js:289-318 | `findPartialMatches`; no contract of its own, `PartialShape` states it |
| Matcher.GreedyAdvance | content.js:300-303 | recording the first fitting key keeps the loop on the greedy segmentation |
| Matcher.FindFitting | content.js:297-306 | the inner loop finds the first fitting key, or none |
| Matcher.FindPartialMatches | content.js:289-318 | the two loops compute `PartialMatches`, whose shape `PartialShape` states |
| Matcher.PartialNeverSingle | content.js:313 | the partial step never gives exactly one result |
| Matcher.PartialShape | content.js:289-318 | no results or two to three; each is a key with at least four significant letters and that key's entries; the keys' stripped forms begin the text |
| Matcher.FindMatches | content.js:247-287 | the cascade as the script runs it computes `Matches` |
| Matcher.Matches | content.js:247-287 | the cascade `findMatches` runs; no contract of its own, the precedence lemmas below state it |
| Matcher.PhraseHit | content.js:252-255 | the phrase step's test: several words, each of at least four characters, whose underscore join is a key; no contract of its own, the precedence lemmas are stated through it |
| Matcher.MatchesOneOrPartial | content.js:247-287 | the result is either one non-partial match or exactly the partial step's output |
| Matcher.KeyIsExact | content.js:261-262 | a key equal to the normalised text gives one exact result, whatever the stemmer |
| Matcher.SingleWordExact | content.js:261-262 | a one-word key is answered with its own entries |
| Matcher.StemmedMeans | content.js:264-267 | a stemmed result means neither the phrase nor the text is a key, and it carries the stem's entries |
| Matcher.TranslationMeans | content.js:268-274 | a translation result means no key step succeeded, and it carries the first entry whose translation contains the text |
| Matcher.CorrectedMeans | content.js:276-279 | a corrected result means every earlier step failed, and it carries the corrected key's entries |
| Matcher.PartialMeans | content.js:280-282 | partial results come only when every earlier step failed |
| ContentScript.ValidSelectionNormalizes | content.js:326 | on a valid selection, normalising only lower-cases and keeps the length |
| ContentScript.IsValidSelection | content.js:326 | the selection test: non-empty, ASCII letters and whitespace only; no contract of its own, `ValidSelectionNormalizes` states what it implies |
| ContentScript.FirstWords | content.js:341 | the first word of each match, in order |
| ContentScript.SeveralArePartial | content.js:335-342 | several results are two or three single keys, each long enough to be a segment |
| ContentScript.DoubleClickPopup | content.js:320-346 | a popup only for a valid trimmed selection; a combination popup lists two or three keys of four significant letters or more |
| ContentScript.DoubleClickOnKey | content.js:336-338 | a valid one-word selection whose lower-casing is a key opens that key's entries without highlighting |
| ContentScript.AnsweredEntriesRequested | content.js:54-58 | every entry in the background's answer belongs to a requested dictionary |
| ContentScript.Page.constructor | content.js:1-2 | the script starts with `{}` and `[]` |
| ContentScript.Page.LoadDictionaryList | content.js:64-69 | the list becomes the stored one, or `[]` when none is stored |
| ContentScript.Page.UpdateActiveDictionaries | content.js:48-62 | the page's active names are computed, and `dictionary` becomes the background's filtered index for them |
| ContentScript.Page.HandleDoubleClick | content.js:320-346 | the handler shows exactly `DoubleClickPopup` on the current index |
| LegacyContent.FieldAt | src/content.js:16 | a missing field is `undefined`; a present one is cleaned |
| LegacyContent.CleanField | src/content.js:16 | the field cleaning: trim, then drop one leading and one trailing quote; no contract of its own, `LegacyRowOfFields` states what it leaves of clean fields |
| LegacyContent.ParseLegacyRow | src/content.js:16-18 | an accepted row has a non-empty word and translation |
| LegacyContent.LegacyRowOneField | src/content.js:16-18 | a row without a comma is skipped |
| LegacyContent.LegacyRowOfFields | src/content.js:16-18 | a row of two comma-free fields is read as those fields cleaned, with no pronunciation or meaning, and is accepted exactly when both are non-empty |
| LegacyContent.SplitTwo | src/content.js:16 | two comma-free fields joined by a comma split back into them |
| LegacyContent.PluralVariations | src/content.js:20-23 | the keys are the word and the word plus `s` |
| LegacyContent.LegacyContribution | src/content.js:16-30 | what one row adds: the plural variations and the entry; no contract of its own, `LegacyEntryFiled` and `LegacyKeys` state it |
| LegacyContent.LoadLegacy | src/content.js:12-35 | the loaded object is well formed and has no empty list |
| LegacyContent.LoadDictionary | src/content.js:7-36 | the imperative loader builds exactly `LoadLegacy` |
| LegacyContent.LegacyKeys | src/content.js:15-33 | a key is present exactly when it is an accepted row's normalised word, with or without an appended `s` |
| LegacyContent.ContributionKey | src/content.js:19-23 | a row contributes under a key exactly when it is one of its two keys |
| LegacyContent.LegacyKeyLetters | src/content.js:19-23 | every key is made of the letters `a` to `z` only |
| LegacyContent.RowKeyLetters | src/content.js:19-23 | both keys of an accepted row are made of those letters |
| LegacyContent.LegacyEntryFiled | src/content.js:25-31 | each accepted row's entry is filed under the word and under its plural |
| LegacyContent.LegacyEntryFrom | src/content.js:25-31 | every entry comes from an accepted row filed under that key |
| LegacyContent.SelectionKey | src/content.js:105 | the lookup key is made of the letters `a` to `z` only |
| LegacyContent.SliceFrom | src/content.js:117 | `slice(n)` is the text after the first `n` characters, or empty past the end |
| LegacyContent.LegacyLookup | src/content.js:105-119 | a popup exactly when the key or its stem is present; the key's entries first; otherwise the stem's entries with the rest of the text after the stem |
| LegacyContent.LegacyExactWins | src/content.js:107-110 | a present key is answered with its entries, whatever the stemmer |
| LegacyContent.LegacyPluralFound | src/content.js:22-30 | selecting a row's plural finds the row's entry directly |
| Scenarios.RunRowParses | src/background.js:45-48 | `run,To move fast` parses into its two fields |
| Scenarios.RunRowIsOneRow | src/background.js:41 | that text is one row |
| Scenarios.RunVariations | src/background.js:49-56 | `run` is its only key |
| Scenarios.RunIndex | src/background.js:41-65 | loading that row files its entry under `run` and nothing else |
| Scenarios.PushIntoEmpty | src/background.js:59-62 | one push into `{}` makes a one-key object |
| Scenarios.RunFiltered | src/background.js:211-215 | the install-time `dictionary` equals the filter by `default` |
| Scenarios.DefaultAlwaysActive | content.js:50-52 | an enabled dictionary with an empty keyword list is active on any page |
| Scenarios.StemmedOnOneKey | content.js:264-267 | `running`, whose stem is `run`, gives one stemmed result over the key `run` |
| Scenarios.RunningIsStemmed | content.js:247-287 | from the CSV row through activation and filtering to the stemmed result |
| Scenarios.MakeIndex | content.js:270 | a one-key index flattens to that key's entries |
| Scenarios.MembuatIsLower | content.js:271 | `membuat` is its own lower-casing |
| Scenarios.MakingNotInMembuat | content.js:271 | `making` does not occur in `membuat` |
| Scenarios.MembuatNotInMaking | content.js:270-271 | so the translation step finds nothing |
| Scenarios.MakCorrected | content.js:234-245 | with only the key `make`, the stem `mak` is corrected to `make` |
| Scenarios.MakingIsCorrected | content.js:276-279 | `making` is answered by the correction step with the entries of `make` |
| Scenarios.CatfishHasNoSegments | content.js:298-300 | over `cat` and `fish`, `catfish` has no partial segmentation |
| Scenarios.PartialDropsRemainder | content.js:294-317 | over `kucing` and `ikan`, `kucingikanxyz` gives two partial results, leaving `xyz` unmatched |
| Findings.LetterRowIsOneRow | src/background.js:41 | a row of two lower-case words is its file's only row |
| Findings.PlainWord | src/background.js:45-46 | a lower-case word has no comma, quote or padding |
| Findings.LetterRowParses | src/background.js:45-48 | such a row parses into its two words |
| Findings.LetterWordVariations | src/background.js:49-56 | a lower-case word is its only key |
| Findings.LetterRowContribution | src/background.js:44-62 | the background loader files such a row's entry under its word alone |
| Findings.LegacyLetterRow | src/content.js:16-30 | the legacy loader files it under the word and the word plus `s` |
| Findings.ConstructorRowThrows | src/background.js:59-62 | the background loader as written throws on `constructor,x`; the corrected loader files the entry under `constructor` |
| Findings.LegacyConstructorRowThrows | src/content.js:26-30 | the legacy loader as written throws on `constructor,x`; the corrected loader files the entry under `constructor` |

`Matcher.PartialMeans` and `LegacyContent.LegacyExactWins` follow from their definitions without a proof body. They are listed for the precedence they state.

## Left out

- I/O: `chrome.storage`, `chrome.runtime` and `chrome.tabs` messaging, `fetch` of the bundled CSV, and the `sendResponse` callbacks. The model uses the values passed and stored. It assumes that a storage write followed by a read, and a message round trip, hand back every object with its keys in the same order; the translation step's first match and the tie-break between keys of equal length depend on that order.
- Scheduling: the debounce timer, the `MutationObserver`, and the `pageLoaded` and `dictionaryUpdated` re-initialisation. Each of these only calls an operation that is modelled.
- Popup rendering: `createPopup`, `createCombinationPopup`, highlighting, positioning and `getColorForDictionary`. These only produce markup, so `handleDoubleClick` is modelled up to the popup kind it chooses and its arguments.
- The Porter stemmer is not part of this model. It is a parameter applied to the normalised text.
- Strings:
  - Characters are Unicode code points and lower-casing is ASCII only. `toLowerCase` on non-ASCII letters is not modelled.
  - `innerText`, `selection.toString()` and the page body are parameters.
- Text.NormalizePhrase: two non-ASCII characters lower-case to ASCII letters in JavaScript, and the normalisation keeps those letters; the model drops them. The Kelvin sign U+212A becomes `k`, and U+0130 becomes `i` followed by a combining dot. So the word `\u212Aat` gets the key `kat` at src/background.js:49 and content.js:248, and the key `at` in the model. Every other non-ASCII character is dropped either way.
- Text.NormalizeLetters: the same two characters, at src/content.js:19.
- Search.SearchKeyword: a keyword and a text that differ only in the case of a non-ASCII letter match in JavaScript but not in the model.
- Concurrency: two handlers interleaving their storage reads and writes is not modelled. Each handler is one atomic method.
- Fields: a stored record with extra or missing fields is not modelled. Records are `DictRecord(name, enabled, keywords)`, and `keywords` is absent until set.
- OrderedMaps.Put: assigning the key `__proto__` sets an object's prototype instead of adding a key. A dictionary file named `__proto__.csv` is therefore never listed in the store at src/background.js:71. The model stores it as an ordinary key.
- The corrected loaders are the ones used by the rest of the model, as `## Findings` describes.

## Findings

| source | as written | input that shows it | evidently intended | confidence | as-written member | corrected member |
|---|---|---|---|---|---|---|
| src/background.js:59-62 | `if (!newEntries[variation]) newEntries[variation] = [];` is false for a name every object inherits, such as `constructor`; `push` is then called on the inherited function and throws, so the whole load fails. The bundled dictionary's loader has the same test at src/background.js:202-205 and throws on the same row. With this test corrected, the same index still throws when it is merged, at `if (merged[key])` on src/background.js:7-8 | the CSV text `constructor,x` | every accepted row is filed under its keys, `constructor` included | not executed; high | Findings.ConstructorRowThrows | RowIndex.BuildContents |
| src/content.js:26-30 | the same test in the single-dictionary loader throws on the same row | the CSV text `constructor,x` | the row is filed under `constructor` and `constructors` | not executed; high | Findings.LegacyConstructorRowThrows | LegacyContent.LegacyEntryFiled |
