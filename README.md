# Service directory: search, classification and grouping

This project models the logic of `servisy_data.js`, the browser script of a
directory of contracted car-repair services. It also models one string
normaliser from `convert_excel.py`, the script that turns the spreadsheet
into the JSON the page loads.

The page receives a flat list of branch records. It does five things with them:

- It puts each record in one of five tabs: auta, bus, moto, skla or pdr. The
  tab is decided by the "Druh" column alone.
- It groups the branches of one service by the key `KAPU||Likvidace||KAM`.
  The key is taken separately within each tab.
- It filters the groups by the selected tab and by a multi-word search.
  Diacritics and case are ignored.
- It highlights the occurrences of the search words inside a cell by
  splicing `<mark>` tags into the HTML-escaped text.
- It formats phone numbers, postal codes, opening hours and prices for
  display.

Modules, one per concern of the script:

- `Values`: record cells (`null`/missing, string, number kept as its text)
  and records as ordered property lists.
- `Text`: JavaScript whitespace, `toLowerCase`, `normalize`,
  `removeDiacritics`, `split(/\s+/)`, `indexOf`, `escapeHtml` and `trim`.
- `Highlight`: `highlightTextPlain` with its helper `findOriginalPosition`.
  The scan loop, the merge loop and the splice loop are methods, each proved
  equal to a specification function. The properties are lemmas about those
  functions.
- `Classify`: `classifyType`.
- `Grouping`: the specification of `buildGroupsFromRawRecords`. It is a fold,
  `Grouped`, over the records the legend-row rule keeps. It is proved to be
  the grouping by first appearance, with no record lost.
- `Filter`: the tab filter and the search filter of `applyFilter`, as
  functions with membership and order lemmas.
- `Browser`: the module-level state of the script, as class `Page`. Its
  methods follow `loadData` from the point where the JSON has arrived (column
  resolution, display names, the visible columns), then
  `buildGroupsFromRawRecords`, `applyFilter`, `getDetailLabel` and a tab
  click. `BuildGroupsFromRawRecords` keeps one index map per tab, as the
  script does, and is proved equal to `Grouping.Grouped`.
- `Format`: `formatPhoneDisplay`, `formatZipDisplay`,
  `formatOpeningHoursDisplay` and `formatCurrencyCZK`.
- `CompanyName`: `_normalize_company_name` of `convert_excel.py`. Each of its
  five regular expressions is written as a literal scanner that follows
  Python `re.sub`: left to right, leftmost match, no overlap, and greedy
  optional parts in one pass. Backtracking cannot change these matches: all
  an optional part can give back is a space or a dot, and the next atom of
  each pattern needs a letter.
- `CompanyExamples`: the function's outcomes on concrete inputs, including
  the example in its documentation.

Three foreign pieces are parameters of the model, never interpreted:

- `decompose: char -> string` stands for `String.prototype.normalize('NFD')`.
  `removeDiacritics` uses it for characters outside U+0000-U+007E that its
  table does not list. The stripping of combining marks U+0300-U+036F that
  follows it is modelled.
- `display: string -> string` stands for `normalizeDisplayText`, the
  dataset-specific patch table the formatters fall back to.
- `fold: char -> string` is the per-character folding that
  `findOriginalPosition` and the scan loop use. `HighlightTextPlain` passes
  `Highlight.CharFold(decompose)`, which is `removeDiacritics` of the lower
  case of one character.

## Model

| member | source | states |
|---|---|---|
| Values.Record.Get | servisy_data.js:1324 | `record[col]` is the value of a property named `col`, or `Null` when no property has that name |
| Values.GetFirst | servisy_data.js:1324 | `record[col]` is the value of the first property named `col` |
| Values.GetAbsent | servisy_data.js:1324 | `record[col]` is `Null` when no property is named `col` |
| Values.KeysGet | servisy_data.js:1632 | in a record with distinct names, looking up the i-th name of `Object.keys` gives the i-th value |
| Text.NormalizeIsLowerCase | servisy_data.js:111-116 | `normalize` leaves no capital (ASCII or of the table), so lower-casing its result again changes nothing |
| Text.LowerOfNonCapital | servisy_data.js:115 | `toLowerCase` leaves every character that is not a capital unchanged |
| Text.LowerCharNotCapital | servisy_data.js:115 | no capital is left after `toLowerCase` |
| Text.TableCapitalFoldsUp | servisy_data.js:121-148 | each capital of the table is in the folding table and folds to an ASCII capital |
| Text.OtherTableLettersFoldDown | servisy_data.js:121-148 | every other letter of the table folds to a small ASCII letter |
| Text.RemoveDiacritics | servisy_data.js:119-153 | `removeDiacritics` as a definition, one character at a time; its properties are the lemmas below |
| Text.TableShape | servisy_data.js:121-148 | every letter of the folding table lies outside U+0000-U+007E and maps to an ASCII letter |
| Text.StripMarks | servisy_data.js:151 | no combining mark U+0300-U+036F is left; text without marks is unchanged, and text of marks only becomes empty |
| Text.StripMarksAppend | servisy_data.js:151 | the strip works character by character, so with the two cases above it keeps exactly the non-marks, in order |
| Text.RemoveDiacriticsAppend | servisy_data.js:150-152 | folding is character by character: folding a concatenation concatenates the folded parts |
| Text.RemoveDiacriticsAligned | servisy_data.js:119-152 | on text of U+0000-U+007E plus table letters, folding keeps the length and maps each position to that character's base letter |
| Text.RemoveDiacriticsFixesPlain | servisy_data.js:150-152 | characters U+0000-U+007E are unchanged, table letters become their table value, and the result is all U+0000-U+007E |
| Text.RemoveDiacriticsIdempotent | servisy_data.js:119-152 | on text of U+0000-U+007E plus table letters, folding folded text changes nothing |
| Text.RemoveDiacriticsOfPlain | servisy_data.js:150 | text made only of U+0000-U+007E is returned unchanged |
| Text.FoldAligned | servisy_data.js:169 | lower-casing then folding keeps the length and is index-aligned with the input |
| Text.WordsShape | servisy_data.js:172 | the search words are non-empty and contain no whitespace |
| Text.WordsCoverInput | servisy_data.js:172 | the search words, concatenated, are the term with all its whitespace removed |
| Text.IndexOfFirst | servisy_data.js:206 | `indexOf(w, from)` returns the first occurrence at or after `from`, and -1 only when there is none |
| Text.ContainsIff | servisy_data.js:179 | `indexOf(w) !== -1` holds exactly when `w` occurs somewhere |
| Text.EscapeHtml | servisy_data.js:156-160 | escaped text contains no `<` |
| Text.EscapeHtmlIdentity | servisy_data.js:156-160 | escaping changes nothing exactly when the text holds none of `&`, `<`, `>`, U+00A0 |
| Text.EscapeLength | servisy_data.js:156-160 | escaping never shortens the text |
| Text.TrimShape | servisy_data.js:1286 | trimmed text neither starts nor ends with whitespace, and keeps every non-whitespace character |
| Highlight.CountsIff | servisy_data.js:189-190 | an escaped character is counted exactly when it folds to a non-empty string |
| Highlight.CountMaskAt | servisy_data.js:188-195 | the mask of counted characters has one entry per escaped character |
| Highlight.FindOriginalPosition | servisy_data.js:186-198 | the loop returns the index of the counted character with rank `normalizedPos`, or the escaped length when there is none |
| Highlight.OriginalPositionMonotone | servisy_data.js:186-198 | a larger normalised offset never maps to an earlier escaped offset |
| Highlight.OriginalPositionIdentity | servisy_data.js:186-198 | when every character counts, the mapping is the identity clamped to the escaped length |
| Highlight.FoldableCounts | servisy_data.js:189-190 | in text of U+0000-U+007E plus table letters, every character counts |
| Highlight.ScanWords | servisy_data.js:203-215 | the ranges pushed for all words are the spans of every occurrence of each word, word by word |
| Highlight.ScanWord | servisy_data.js:204-214 | the `while (true)` loop pushes the span of each occurrence of one word, in order |
| Highlight.NextMatch | servisy_data.js:206-207 | one `indexOf` step: -1 when no occurrence is left, otherwise the next one |
| Highlight.WordSpansComplete | servisy_data.js:206-213 | every occurrence, overlapping ones included, yields a range, because the scan resumes at `matchIndex + 1` |
| Highlight.WordSpansSound | servisy_data.js:206-212 | every range comes from an occurrence of the word |
| Highlight.AllSpansIff | servisy_data.js:203-215 | a range is pushed exactly when it is the span of an occurrence of one of the words |
| Highlight.AllSpansWellFormed | servisy_data.js:209-212 | every pushed range has start <= end <= escaped length |
| Highlight.InsertByStartProps | servisy_data.js:218 | inserting by start keeps the list sorted and adds exactly that range |
| Highlight.SortByStartProps | servisy_data.js:218 | sorting by start gives a sorted permutation of the ranges |
| Highlight.SortByStartWellFormed | servisy_data.js:218 | sorting keeps every range within the escaped text |
| Highlight.MergeRanges | servisy_data.js:221-231 | the loop that pushes or extends the last range computes `Merged` |
| Highlight.MergedShape | servisy_data.js:221-231 | merged ranges lie within the text, and each starts strictly after the previous one ends |
| Highlight.MergedContains | servisy_data.js:221-231 | every sorted range lies inside one merged range |
| Highlight.MergedCoverage | servisy_data.js:221-231 | a position is covered by the merged ranges exactly when it is covered by the input ranges |
| Highlight.SpliceMarks | servisy_data.js:234-244 | the `forEach` over merged ranges builds the spliced text |
| Highlight.UnmarkSplice | servisy_data.js:234-244 | deleting the inserted tags from the spliced text gives back the escaped text |
| Highlight.MarkedSpansShape | servisy_data.js:218-231 | the ranges handed to the splice are sorted, separated and within the escaped text |
| Highlight.Highlighted | servisy_data.js:163-245 | `highlightTextPlain` as a definition; `HighlightTextPlain` computes it, and the lemmas below give its properties |
| Highlight.HighlightTextPlain | servisy_data.js:163-245 | with an empty term or a falsy text, no search words, or a missing word, the result is the escaped text; it never loses or adds text outside the tags |
| Highlight.HighlightRoundTrip | servisy_data.js:163-245 | deleting the `<mark class="highlight">` and `</mark>` tags from the result gives the escaped text |
| Highlight.PlainTextShape | servisy_data.js:186-198 | text of U+0000-U+007E without `&`, `<`, `>` escapes to itself, folds with its length kept, and counts at every position |
| Highlight.OccurrenceMarked | servisy_data.js:203-231 | on such text, every occurrence `[k, k+|w|)` of a search word lies inside one marked range |
| Highlight.HighlightCoversOccurrences | servisy_data.js:163-245 | when all words are present in such text, the result is the splice, and every occurrence of every word lies inside a mark |
| Classify.ClassifyType | servisy_data.js:523-584 | `classifyType` as a definition, the rules tried in the order pdr, skla, moto, bus; the `...Iff` lemmas below characterise each tab |
| Classify.PdrIff | servisy_data.js:533-538 | a record is pdr exactly when its "Druh" contains `pdr` |
| Classify.SklaIff | servisy_data.js:542-547 | a record is skla exactly when it is not pdr and its folded, space-free "Druh" is one of the two glass keys |
| Classify.MotoIff | servisy_data.js:554-567 | a record is moto exactly when no earlier rule applies and its alphanumeric key contains one of two needles (the first needle, `...directmotocykly`, contains the second, `...directmoto`, so it adds nothing) |
| Classify.BusIff | servisy_data.js:574-580 | a record is bus exactly when no earlier rule applies and its space-free "Druh" is one of the two bus values |
| Classify.DecidedByDruh | servisy_data.js:523-584 | the tab depends on the "Unnamed: 11" cell alone |
| Classify.EmptyDruhIsAuta | servisy_data.js:582-583 | a missing or empty "Druh" gives auta |
| Classify.PdrExample | servisy_data.js:532-538 | "PDR opravy" gives pdr |
| Classify.KeepAlnum | servisy_data.js:558 | only `[a-z0-9]` is left; text of those characters is unchanged, and text with none of them becomes empty |
| Classify.KeepAlnumAppend | servisy_data.js:558 | the filter works character by character, so with the two cases above it keeps exactly the `[a-z0-9]` characters, in order |
| Grouping.Kept | servisy_data.js:1374-1380 | only the first record can be skipped |
| Grouping.KeptStep | servisy_data.js:1377-1380 | a record is skipped exactly when it is at index 0 and its "Legenda:" is `Stav` |
| Grouping.FindTag | servisy_data.js:1390 | the lookup finds the first group with that tab and key, or reports none |
| Grouping.Grouped | servisy_data.js:1374-1403 | the `forEach` of `buildGroupsFromRawRecords` as a fold over the kept records; the lemmas below give its properties |
| Grouping.GroupedIsGroupsOf | servisy_data.js:1364-1402 | one group per distinct (tab, key) in order of first appearance; each holds exactly the records with that tab and key, in input order, and shows the first of them |
| Grouping.FirstTagsMembers | servisy_data.js:1390-1398 | a (tab, key) pair opens a group exactly when some record carries it |
| Grouping.GroupedTagsDistinct | servisy_data.js:1364-1398 | no two groups share a (tab, key) pair, so equal keys in different tabs stay apart |
| Grouping.GroupedCoversRecords | servisy_data.js:1374-1403 | every kept record's (tab, key) has a group |
| Grouping.GroupedKeepsCount | servisy_data.js:1374-1403 | the branch counts of all groups sum to the number of kept records |
| Grouping.GroupKeyInjective | servisy_data.js:1385-1388 | when no key column contains `|`, equal keys mean equal key cells |
| Grouping.GroupKeyCollision | servisy_data.js:1385-1388 | with a `||` inside a cell, different records get the same key |
| Filter.SelectorCategory | servisy_data.js:1291-1307 | a selector names its tab; any unknown selector gives auta |
| Filter.SelectorOfName | servisy_data.js:1293-1307 | each tab's own name selects that tab |
| Filter.KeepMembers | servisy_data.js:1290 | `filter` keeps exactly the members satisfying the condition |
| Filter.KeepIsSubsequence | servisy_data.js:1290 | `filter` keeps the input order |
| Filter.OfTabIff | servisy_data.js:1290-1308 | the tab filter keeps exactly the groups of the selected tab |
| Filter.MatchingIff | servisy_data.js:1319-1334 | a group is kept exactly when one of its branches has every word in its combined text |
| Filter.Shown | servisy_data.js:1286-1336 | the groups `applyFilter` renders, as a definition; `ShownIff` and `ShownInOrder` give its properties |
| Filter.ShownIff | servisy_data.js:1286-1336 | a shown group is of the selected tab, and, for a non-empty normalised term, matches all the words |
| Filter.ShownInOrder | servisy_data.js:1286-1336 | the shown groups are a subsequence of the grouped records |
| Filter.JoinContains | servisy_data.js:1323-1331 | a word in one column's text is in the space-joined text |
| Filter.CellMatch | servisy_data.js:1321-1332 | a word found in any one column makes the record match that word |
| Browser.ColumnLabel | servisy_data.js:35-39 | exactly the three overview columns have a built-in label, and none is empty |
| Browser.DisplayNamesIff | servisy_data.js:1638-1643 | a column gets a display name exactly when it is listed and its header cell is non-null and non-blank; the name is that cell |
| Browser.Present | servisy_data.js:1647-1649 | the preferred order filtered to existing columns keeps exactly the preferred columns that exist, in the preferred order |
| Browser.VisibleColumns | servisy_data.js:1647-1654 | the visible columns are the existing preferred ones in `DISPLAY_COLUMNS_ORDER` order, or the first three columns when none exists |
| Browser.IndexedFind | servisy_data.js:1390-1400 | the per-tab maps point at the group with that key, or miss exactly when no such group exists |
| Browser.IndexedAppend | servisy_data.js:1391-1398 | registering a new group keeps the maps and the group list in step |
| Browser.IndexedUpdate | servisy_data.js:1400-1401 | appending a branch to a group keeps the maps and the list in step |
| Browser.Page.constructor | servisy_data.js:24-30 | the initial state: empty lists, no display names, tab auta, empty search |
| Browser.Page.GetDetailLabel | servisy_data.js:597-605 | the header row's name, else the built-in label, else the column name |
| Browser.Page.LoadData | servisy_data.js:1623-1659 | data and columns as resolved, display names from a legend row, visible columns, grouping and filtering |
| Browser.Page.LoadColumns | servisy_data.js:1627-1656 | meta columns when both lists are non-empty, else the first record's keys, else none; then the display names and visible columns |
| Browser.Page.LoadDisplayNames | servisy_data.js:1635-1644 | display names are replaced only when the first record is the legend row |
| Browser.Page.HarvestDisplayNames | servisy_data.js:1637-1643 | the loop collects the labelled header cells |
| Browser.Page.BuildGroupsFromRawRecords | servisy_data.js:1362-1406 | the map-based loop computes `Grouping.Grouped` of the kept records |
| Browser.Page.ApplyFilter | servisy_data.js:1279-1337 | no search box shows every group; otherwise the trimmed term is stored and the tab and search filters are applied |
| Browser.Page.SelectTab | servisy_data.js:1706-1714 | the clicked `data-type`, or auta when it is missing or empty, becomes the filter, and the list is filtered again |
| Format.Digits | servisy_data.js:419 | `replace(/\D/g, '')` leaves only digits; an all-digit string is unchanged, and one without digits becomes empty |
| Format.DigitsAppend | servisy_data.js:419 | the digit filter works character by character, so with the two cases above it keeps exactly the digits, in order |
| Format.DigitsFixed | servisy_data.js:419 | the digit filter is the identity exactly on all-digit strings |
| Format.GroupFromLeftShape | servisy_data.js:428 | grouping from the left keeps the digits, puts a space after every full block of three, and adds (n-1)/3 spaces |
| Format.PhoneParts | servisy_data.js:412 | the parts are non-empty and hold no separator |
| Format.RemoveSeparators | servisy_data.js:412 | the text without its separators: none is left, text without them is unchanged, and text of separators only becomes empty |
| Format.PhonePartsCoverInput | servisy_data.js:412 | the parts, concatenated, are the input with all its separators removed |
| Format.FormatAll | servisy_data.js:431 | every formatted part kept is non-empty; when no part formats to empty, the result is every formatted part in order, and when all do, it is empty |
| Format.FormatAllAppend | servisy_data.js:431 | `map` then `filter` works part by part, so with the two cases above it keeps exactly the non-empty formatted parts, in order |
| Format.PhoneDisplay | servisy_data.js:405-433 | `formatPhoneDisplay` as a definition; its parts and numbers are described by the rows above and below |
| Format.FormatOneGroups | servisy_data.js:417-429 | one number becomes its digits grouped in threes from the left (the 9-digit case agrees) |
| Format.FormatOneNine | servisy_data.js:424-426 | nine digits become 3-3-3 |
| Format.FormatOneSix | servisy_data.js:427-428 | six digits become 3-3 |
| Format.PhoneExampleNine | servisy_data.js:424-426 | `725321989` becomes `725 321 989` |
| Format.ZipDisplay | servisy_data.js:437-456 | `formatZipDisplay` as a definition; `ZipFiveDigits` gives its cases |
| Format.ZipFiveDigits | servisy_data.js:437-456 | exactly five digits become `ddd dd`; anything else is empty or goes to the display normaliser |
| Format.ZipRoundTrip | servisy_data.js:450-452 | removing the inserted space gives back the five digits |
| Format.GroupFromRightShape | servisy_data.js:862-866 | grouping from the right keeps the digits, leaves full blocks of three at the end, and adds (n-1)/3 spaces |
| Format.CurrencyDisplay | servisy_data.js:842-868 | `formatCurrencyCZK` as a definition; `FormatCurrencyCZK` computes it and `CurrencyGroups` gives the numeric case |
| Format.GroupDigits | servisy_data.js:861-866 | the slicing loop computes the grouping from the right |
| Format.FormatCurrencyCZK | servisy_data.js:842-868 | the method computes the currency display for every input |
| Format.CurrencyGroups | servisy_data.js:856-867 | a numeric amount without `kč` is shown as its digits grouped from the right, followed by ` Kč` |
| Format.SplitOn | servisy_data.js:472 | `split('|')` returns at least one part, and no part holds the separator |
| Format.SplitOnJoin | servisy_data.js:472 | joining the parts with the separator gives back the input |
| Format.StripTrailingDots | servisy_data.js:473 | the result is a prefix of the input that does not end with a dot, and everything after it is dots |
| Format.ClosedSegment | servisy_data.js:474-476 | `-.` is read as closed |
| Format.Runs | servisy_data.js:485-510 | the runs end at the last day |
| Format.RunsAreMaximal | servisy_data.js:485-510 | the runs tile the days in order; each holds one value, and neighbouring runs differ |
| Format.CollectRuns | servisy_data.js:485-510 | the `currentValue`/`currentStart` loop computes the maximal runs |
| Format.HoursCoverWeek | servisy_data.js:485-510 | for seven segments the runs start on Monday, end on Sunday, are consecutive, and differ from their neighbours |
| Format.RunsCount | servisy_data.js:502-510 | there are never more runs than days |
| Format.HoursDisplay | servisy_data.js:461-520 | `formatOpeningHoursDisplay` as a definition; `FormatOpeningHoursDisplay` computes it and `HoursCoverWeek` describes its runs |
| Format.FormatOpeningHoursDisplay | servisy_data.js:461-520 | the method computes the opening-hours display |
| Format.HoursExampleRuns | servisy_data.js:459-460 | five equal weekdays and a closed weekend make two runs |
| Format.HoursExampleText | servisy_data.js:459-460 | those runs read `Po–Pá 7:00–17:30; So–Ne zavřeno` |
| CompanyName.PyStrip | convert_excel.py:25 | `strip()` returns a slice of the input with only whitespace around it, and the slice neither starts nor ends with whitespace |
| CompanyName.SroFrom | convert_excel.py:34 | a match of the s.r.o. pattern consumes at least one character |
| CompanyName.MatchAt | convert_excel.py:34-50 | each pattern's match at a position is non-empty and within the text |
| CompanyName.SubUnchanged | convert_excel.py:34-50 | `re.sub` leaves text with no match unchanged |
| CompanyName.SroMatchLetters | convert_excel.py:34 | every s.r.o. match holds exactly the letters s, r, o in order, case-insensitively |
| CompanyName.AsMatchLetters | convert_excel.py:35 | every a.s. match holds exactly the letters a, s in order, case-insensitively |
| CompanyName.LegalFormAfterSpace | convert_excel.py:34-35 | a leading run of whitespace belongs to the legal-form match |
| CompanyName.LegalFormsUntouched | convert_excel.py:34-35 | text without `s`, `S` or `ſ` passes both legal-form rewrites unchanged |
| CompanyName.SplitWordsUnchanged | convert_excel.py:42 | the word split leaves text with no such place unchanged |
| CompanyName.NoDigitsUntouched | convert_excel.py:46-47 | the letter/digit rewrites leave text without digits unchanged |
| CompanyName.LetterDigitSeparates | convert_excel.py:46 | after the letter-digit rewrite, no letter is followed directly by a digit |
| CompanyName.DigitLetterSeparates | convert_excel.py:47 | after the digit-letter rewrite, neither a letter-digit nor a digit-letter pair remains |
| CompanyName.CollapseNoDoubleSpace | convert_excel.py:50 | after collapsing, no two whitespace characters are adjacent |
| CompanyName.CollapseUntouched | convert_excel.py:50 | text without double whitespace is not changed by the collapse |
| CompanyName.NormalizeCompanyName | convert_excel.py:9-52 | `_normalize_company_name` as a definition; the lemmas around it give its properties |
| CompanyName.NormalizedIsTidy | convert_excel.py:49-52 | the result has no leading, trailing or doubled whitespace |
| CompanyName.EmptyStaysEmpty | convert_excel.py:22-23 | the empty name gives `""` |
| CompanyName.BlankBecomesEmpty | convert_excel.py:25-52 | an all-whitespace name gives `""` |
| CompanyName.SeparatedWithoutWhitespace | convert_excel.py:30-52 | when the stripped input had no whitespace, no letter touches a digit in the result |
| CompanyExamples.SplitsLetterFromDigit | convert_excel.py:45-47 | `Praha4` becomes `Praha 4` |
| CompanyExamples.KeepsDigitWithWhitespace | convert_excel.py:30-47 | `Auto4 Brno` had whitespace, so it is not split |
| CompanyExamples.SroDotted | convert_excel.py:34 | a dotted `s.r.o.` is matched whole |
| CompanyExamples.LegalFormsOverlap | convert_excel.py:34-35 | `Praha s.r.o.` becomes `Prah a.s.r.o.`, because the a.s. pattern also matches `a s` across the inserted space |
| CompanyExamples.DocExample | convert_excel.py:13 | `HyundaiPrahaDomanskýs.r.o.` becomes `Hyundai Praha Domanský s.r.o.` |

## Left out

- DOM work: rendering of the header, body, modal and branch detail, skeletons,
  animations, the page-title underline and all event wiring except the
  tab click. It is plain string and DOM assembly with no logic to state.
- The fetch and JSON promise chain of `loadData`. `Page.LoadData` starts
  from the parsed `data` and `meta.columns`, each already `[]` when it is not
  an array. Error handling and the empty-JSON `throw` are not modelled.
- `String.prototype.normalize('NFD')` is the uninterpreted parameter
  `decompose`. The coverage and alignment results therefore hold for text of
  U+0000-U+007E plus the folding table's letters.
- `toLowerCase` is modelled for ASCII and the table's letters only. Other
  characters are left as they are.
- `normalizeDisplayText` and `fixCombinedDiacriticsText` are the
  uninterpreted parameter `display`. They are dataset-specific patch tables.
- Values.Record: a record is an ordered list of distinct property names that
  are not integer-like (`KeysGet` assumes `DistinctNames`). `JSON.parse`
  keeps the last of repeated names, and `Object.keys` lists integer-like
  names first in numeric order. Neither is modelled, which is faithful for
  the spreadsheet's column names.
- Strings are sequences of code points. JavaScript's UTF-16 code units and
  surrogate pairs are not modelled.
- JSON numbers are kept as the text `String(value)` gives. Number parsing,
  `normalizeFractionPercent` and other float work are left out.
- `renderBody` is not modelled. `Page.ApplyFilter` and `Page.SelectTab`
  return the groups the script would render.
- Highlight.HighlightTextPlain: the offsets come from the unescaped folded
  text but are applied to the escaped text. The model keeps this as written.
  Its coverage result (`HighlightCoversOccurrences`) is therefore stated only
  for text without `&`, `<`, `>` and U+00A0.
- Grouping.GroupKeyInjective: stated only for key cells without `|`,
  because the key separator `||` can occur in a cell (`GroupKeyCollision`).
- Classify.ClassifyType: the columns "Unnamed: 12" and "KAPU" are
  normalised by the source but never used, so the model does not read them.
- CompanyName.NormalizeCompanyName: Python's `\d` is read as ASCII digits,
  `\s` as `str.isspace` on the characters the model lists, and `[á-ž]` as a
  code-point range. A non-string input other than the empty string (a pandas
  float, say) is not modelled. The overlap of the two legal-form patterns is
  modelled as written (`LegalFormsOverlap`).
- `convert_excel_to_json` (pandas reading, file writing) and
  `watch_excel.py` (a file watcher thread) are I/O and are not part of this
  model.
- The other helpers of the script (e-mail, percentage, map and phone links,
  the modal) are display code and are not modelled.
