# Vocabulary extraction from OCR fragments

This project models how a Chinese-learning web app turns the output of an
OCR engine into two word lists: the spoken vocabulary (口语表达词汇, kept as
phrases) and the practice vocabulary (识读词语, one or two characters per
entry). It proves properties of that model. The input is a sequence of OCR
fragments, each a bounding box, a text and a confidence. The model follows
`parse_vocabulary_from_ocr` and its helpers in `app.py`:

1. **Normalisation** (`Fragments`).
   - A fragment is a *vocabulary line* when its raw text has at least three `。`/`、` and at least four CJK ideographs (U+4E00–U+9FFF).
   - It yields a *text item* when its confidence is at least 0.05 and its text, cleaned to CJK, Latin letters, `，、。：` and whitespace and then stripped, is non-empty.
   - Text items are stably sorted by the smallest y of their box (`SortByTop`, an insertion sort standing for Python's stable `list.sort`).
2. **Header location** (`Headers`).
   - Each item is classified by keyword substring tests as a spoken header, a practice header, an end header or none. The tests run in that order.
   - The spoken and practice positions are the tops of the last matching items.
   - The end position is the top of the first matching item.
3. **Direct extraction** (`DirectMode`).
   - Each vocabulary line goes to spoken (split into phrases) or to practice (split into characters).
   - When both header positions are known, the line is spoken exactly when the first item showing it lies strictly above the practice header. It is also spoken when no item shows it.
   - Otherwise it is spoken exactly when the index of its first equal line is not the last index.
   - The direct result is returned only when both lists are non-empty.
4. **Section scan** (`SectionScan`). A state machine walks the sorted items.
   - Headers switch the current section and are never added as vocabulary.
   - The phrase or the character splitter handles the other items in the spoken or the practice section.
   - After an end header nothing is added until the next spoken or practice header.
   - The lists start from the direct result and are finally deduplicated, keeping first occurrences.
5. **Fallback** (`Fallback`).
   - It runs when neither section flag is set.
   - Each worksheet reference word found in the concatenated text is kept, in reference order.
   - Every other CJK run of three or more characters goes to spoken, and every other run of two goes to practice.
6. **Corrections** (`Corrections`). Both final lists go through the substitution table (`眼晴` → `眼睛`) and are deduplicated.
7. **Splitters** (`Splitting`).
   - Text is split on runs of delimiters. The two delimiter sets differ: `split_vocab_line` has no `：`.
   - Each piece is reduced to its CJK characters. Empty pieces are dropped, and tokens are kept in first-seen order without repeats.
   - The character variant breaks any token longer than two into its characters.
8. **Unit name** (`UnitName`).
   - The first fragment, in OCR order, in which either pattern matches gives the label. The patterns are `单元` followed by numerals, and `Unit`/`unit` followed by optional whitespace and digits. Within one fragment the `单元` pattern is tried first.
   - A single numeral from the table is mapped; any other run is kept as it is.
9. **Upload filter** (`Upload`). `allowed_file` accepts a name whose text after the last dot, lower-cased, is `png`, `jpg` or `jpeg`.

Loops in the source are `method`s proved against specification functions:
- the normalisation loop;
- the header loop;
- the routing loop and its inner search;
- the section loop;
- the splitters' append-if-absent loops;
- the fallback's categorisation loop;
- the correction loop.

The specification functions carry the lemmas. `Pipeline.Parse` is the
whole parse as a function. `Pipeline.ParseVocabularyFromOcr` is the
procedure, with the same branches as the source.

The model follows the code in three places where it behaves differently
from what a reader might expect:
- The spoken and practice header positions are those of the LAST matching item. The end position keeps its first match through the `end_section_y is None` guard (`app.py:444`), but the two other branches have no such guard (`app.py:437-442`), so a later header of either kind replaces an earlier one.
- Practice entries may have two characters. The docstring of `extract_chinese_words_from_text` (`app.py:631`) speaks of individual Chinese characters, but tokens of one or two characters are kept whole (`app.py:638-644`, and `app.py:461-467` in `split_vocab_line`).
- `vocabulary_lines.index(line)` finds the first EQUAL line. So a page whose last vocabulary line repeats an earlier one, and which lacks one of the two headers, puts every line in the spoken list (`DirectMode.RepeatedLastLineLeavesPracticeEmpty`).

## Model

| member | source | states |
|---|---|---|
| Text.CjkOnly | app.py:459 | the CJK filter keeps only CJK characters, never lengthens, and leaves an all-CJK string unchanged |
| Text.CjkOnlyMembers | app.py:459 | the filter keeps exactly the CJK characters of the text |
| Text.CjkOnlyAppend | app.py:459 | the filter works character by character in order: filtering a concatenation concatenates the filtered parts |
| Text.CountChar | app.py:394 | `str.count` of one character: the number of occurrences (the multiplicity of the character in the text), at most the length, and zero exactly when the character is absent |
| Text.CjkCount | app.py:395 | the number of ideographs `re.findall` finds equals the length of the CJK-filtered text |
| Text.ReplaceAll | app.py:612 | `str.replace`: a text starting with the pattern starts with the replacement, equal-length replacement keeps the length, CJK stays CJK, and no occurrence means no change |
| Text.ReplaceFirstOccurrence | app.py:612 | the leftmost occurrence becomes the replacement: the text before it is kept and the replacement carries on after it |
| Text.Strip | app.py:408-410 | `strip()` yields the slice left once the leading and trailing whitespace is removed: only whitespace lies outside it, it has no whitespace at either end, and it is empty exactly when the text is all whitespace |
| Text.ContainsAnyIsSome | app.py:437 | `any(kw in text for kw in kws)` holds exactly when some keyword is a substring |
| Text.SubstringTransitive | app.py:437 | a substring of a substring is a substring, the step behind the keyword reductions |
| Lists.Add | app.py:463-464 | appending when absent keeps the old list as a prefix, adds exactly that element and keeps the list duplicate-free |
| Lists.AppendNew | app.py:490-492 | the append-if-absent loop over a list keeps the prefix, gains exactly the new elements and stays duplicate-free |
| Lists.KeepFirst | app.py:577-578 | `list(dict.fromkeys(xs))` is duplicate-free with the same members |
| Lists.KeepFirstOrder | app.py:577-578 | `dict.fromkeys` lists its entries in the order of their first occurrences |
| Lists.KeepFirstOfNoDup | app.py:577-578 | deduplicating a duplicate-free list changes nothing |
| Lists.KeepFirstIdempotent | app.py:577-578 | deduplicating twice is deduplicating once |
| Lists.AppendNewIsKeepFirst | app.py:490-492 | starting from a duplicate-free list, the append-if-absent loop equals `dict.fromkeys` of the old list followed by the new elements |
| Lists.AppendNewFromEmpty | app.py:457-467 | from an empty list the append-if-absent loop is exactly `dict.fromkeys` |
| Lists.AppendNewConcat | app.py:568 | appending two runs in turn equals appending their concatenation |
| Lists.SeedStaysInFront | app.py:533-578 | deduplicating seed-then-more keeps the whole seed, in order, at the front |
| Lists.IndexOf | app.py:484 | `list.index` returns the first position holding an equal element |
| Lists.IndexOfAtMost | app.py:484 | the index found for an element is at most any of its positions |
| Lists.ExtendNew | app.py:490-492 | the append loop computes the append-if-absent function and keeps a duplicate-free list duplicate-free |
| Splitting.PieceEnd | app.py:456 | the end of the non-delimiter run starting at a position |
| Splitting.DelimEnd | app.py:456 | the end of the delimiter run starting at a position; it advances past at least one delimiter |
| Splitting.SplitFrom | app.py:456 | `re.split` from a position: at least one piece, no piece holds a delimiter, each piece occurs in the text, and only the two end pieces may be empty; `Splitting.PiecesAreMaximal` and `Splitting.RunsArePieces` fix which pieces there are |
| Splitting.Split | app.py:456 | `re.split(r'[D]+', text)`: at least one piece, each delimiter-free and a substring of the text, and each a maximal run of non-delimiters that starts the text or follows a delimiter |
| Splitting.PiecesAreMaximal | app.py:456 | every piece starts at the start or right after a delimiter and runs up to the next delimiter or the end |
| Splitting.RunsArePieces | app.py:456 | every such run is a piece: the first one, each non-empty run after a delimiter, and the empty run after a trailing delimiter |
| Splitting.SplitKeepsAllButDelims | app.py:456 | concatenating the pieces gives back the text with its delimiters removed |
| Splitting.SplitNoDelim | app.py:456 | text without a delimiter splits into itself |
| Splitting.Tokens | app.py:458-460 | the cleaned non-empty pieces are non-empty and all CJK |
| Splitting.TokenOfPiece | app.py:458-460 | every piece with a CJK character contributes its cleaned form |
| Splitting.PieceOfToken | app.py:458-460 | every token is the cleaned form of some piece |
| Splitting.Exploded | app.py:461-467 | a token longer than two becomes its single characters; a shorter one stays whole |
| Splitting.Explode | app.py:461-467 | every exploded entry has at most two characters, and entries of CJK tokens are non-empty and CJK |
| Splitting.ExplodeKeepsShort | app.py:465-467 | a token of one or two characters survives exploding |
| Splitting.ExplodeBreaksLong | app.py:461-464 | each character of a long token is an entry after exploding |
| Splitting.ExplodeSources | app.py:461-467 | every exploded entry is a short token or a single character of a long token |
| Splitting.TokensAreTokens | app.py:456-460 | the tokens are exactly the CJK-filtered non-empty delimiter-separated pieces |
| Splitting.Phrases | app.py:618-627 | defines the phrase splitters: each CJK token of the split text once, in first-seen order; `Splitting.PhrasesFacts` proves its properties |
| Splitting.Characters | app.py:630-646 | defines the character splitters: the exploded tokens, each entry once, in first-seen order; `Splitting.CharactersShape`, `CharactersComplete` and `CharactersSound` prove its properties |
| Splitting.PhrasesFacts | app.py:618-627 | the phrase list is duplicate-free, equals `dict.fromkeys` of the tokens, its entries are non-empty CJK, and it holds exactly the tokens |
| Splitting.CharactersShape | app.py:630-646 | the character list is duplicate-free, equals `dict.fromkeys` of the exploded tokens, and each entry has one or two CJK characters |
| Splitting.CharactersComplete | app.py:637-644 | a token of at most two characters is an entry, and so is each character of a longer token |
| Splitting.CharactersSound | app.py:637-644 | every entry is a short token or one character of a long token, so no long token is ever added whole |
| Splitting.AddCharacters | app.py:462-464 | the inner loop over a long token's characters appends each one absent so far |
| Splitting.AddPiece | app.py:458-467 | one iteration of the outer loop appends exactly the piece's entries not yet present |
| Splitting.CollectWords | app.py:457-468 | the outer loop yields the append-if-absent of all the pieces' entries |
| Splitting.SplitVocabLine | app.py:451-468 | `split_vocab_line` gives the phrases or the characters, is duplicate-free and all CJK, and gives entries of at most two characters with `split_chars` |
| Splitting.ExtractChinesePhrases | app.py:618-627 | returns the duplicate-free list holding exactly the CJK tokens of the text |
| Splitting.ExtractChineseWords | app.py:630-646 | returns a duplicate-free list of one- or two-character CJK entries that includes every short token |
| Corrections.Correct | app.py:603-612 | defines one corrected entry: the table applied by substring replacement; `Corrections.CorrectFacts` proves it is final and free of `眼晴` |
| Corrections.Corrected | app.py:607-615 | defines the result of the correction pass: the corrected entries, each once, in first-seen order; `Corrections.CorrectedFacts`, `CorrectedMembers` and `CorrectedIdempotent` prove its properties |
| Corrections.ApplyTable | app.py:603-612 | applying the table keeps the length and keeps CJK text CJK |
| Corrections.NoMisreadAfterReplace | app.py:612 | after the replacement no `眼晴` remains |
| Corrections.ReplaceKeepsFirst | app.py:612 | the replacement keeps the first character of a non-empty word |
| Corrections.ShorterHasNoOccurrence | app.py:612 | a pattern longer than the text does not occur in it |
| Corrections.CorrectFacts | app.py:610-612 | a corrected word holds no `眼晴`, and correcting it again changes nothing |
| Corrections.CorrectFixesMisread | app.py:603-612 | the leftmost `眼晴` becomes `眼睛`, the text before it is kept and the rest is corrected in turn |
| Corrections.MisreadIsFixed | app.py:603-612 | `眼晴` is corrected to `眼睛` |
| Corrections.CorrectEach | app.py:610-612 | corrects each word in place, keeping the list's length |
| Corrections.CorrectedFacts | app.py:607-615 | the result is duplicate-free, equals `dict.fromkeys` of the corrected words, and holds no `眼晴` |
| Corrections.CorrectedMembers | app.py:607-615 | a word is in the result exactly when it is the correction of some input word |
| Corrections.CorrectedIdempotent | app.py:607-615 | applying the correction pass twice equals applying it once |
| Corrections.CorrectedKeepsWords | app.py:607-615 | the pass keeps every entry a non-empty CJK word |
| Corrections.CorrectedKeepsShort | app.py:607-615 | the pass keeps every entry one or two CJK characters |
| Corrections.CorrectWord | app.py:611-612 | the inner loop over the table yields the corrected word, which holds no `眼晴` |
| Corrections.ApplyOcrCorrections | app.py:607-615 | `apply_ocr_corrections` yields a duplicate-free list in first-seen order with no `眼晴` |
| Fragments.IsVocabularyLine | app.py:394-396 | defines the vocabulary-line test on the raw text: three or more `。`/`、` and four or more ideographs |
| Fragments.TopIsLeastY | app.py:426 | the sort key is the smallest y among the box's points and is attained by one of them |
| Fragments.ClassesAreDisjoint | app.py:394-395 | the `。`, `、` and ideograph counts together never exceed the length |
| Fragments.VocabularyLineLength | app.py:394-396 | a vocabulary line has at least seven characters |
| Fragments.Clean | app.py:407 | the cleaned text has only allowed characters, is no longer than the input, and equals an all-allowed input |
| Fragments.CleanMembers | app.py:407 | the cleaned text holds exactly the input's allowed characters |
| Fragments.CleanHasContent | app.py:407-408 | cleaning leaves a non-space character exactly when the input has an allowed non-space character |
| Fragments.MakeTextItem | app.py:405-414 | an item exists exactly when confidence ≥ 0.05 and an allowed non-space character exists; its text is then the cleaned text stripped of its surrounding whitespace, non-empty and allowed, and it keeps the box, confidence and raw text |
| Fragments.TextItems | app.py:389-414 | every text item is non-empty, allowed and of confidence at least 0.05; `Fragments.TextItemsComplete` and `Fragments.TextItemsSound` fix which items there are |
| Fragments.TextItemsComplete | app.py:403-414 | every fragment that yields a text item contributes it |
| Fragments.TextItemsSound | app.py:403-414 | every text item is the item of some fragment |
| Fragments.VocabLines | app.py:392-401 | every collected line satisfies the vocabulary-line test, whatever its confidence |
| Fragments.VocabLinesComplete | app.py:392-401 | every fragment passing the test is collected |
| Fragments.Normalise | app.py:389-414 | the first loop builds exactly the text items and the vocabulary lines |
| Fragments.InsertByTop | app.py:426 | insertion adds exactly one element |
| Fragments.InsertKeepsOrder | app.py:426 | inserting into a top-sorted list keeps it sorted |
| Fragments.InsertKeepsTies | app.py:426 | inserting puts an element after those with the same top |
| Fragments.SortByTop | app.py:426 | the sort keeps the length |
| Fragments.SortByTopPermutes | app.py:426 | the sort is a permutation |
| Fragments.SortByTopSorted | app.py:426 | the sort orders items by top y |
| Fragments.SortByTopStable | app.py:426 | the sort is stable: items with the same top keep their relative order |
| Fragments.SortSortedIsIdentity | app.py:523 | sorting already-sorted items changes nothing |
| Fragments.SortIdempotent | app.py:426-523 | the second sort of the same items changes nothing |
| Headers.Classify | app.py:433-446 | defines the header kind of an item: spoken keywords tested first, then practice, then end markers; `Headers.SpokenKeywordsReduce` and `PracticeKeywordsReduce` characterise the first two tests |
| Headers.SpokenKeywordsReduce | app.py:437 | the eight spoken keywords match exactly when 口语, 表达, 达词汇 or 适麦达 occurs |
| Headers.PracticeKeywordsReduce | app.py:440 | the five practice keywords match exactly when 识读 or 词语 occurs |
| Headers.Kinds | app.py:437-446 | each item gets the classification of its text |
| Headers.LastWith | app.py:438-441 | finds the last position of a header kind, or reports that none exists |
| Headers.FirstWith | app.py:444-445 | finds the first position of a header kind, or reports that none exists |
| Headers.LocateHeaders | app.py:429-446 | the header loop records the top of the last spoken header, of the last practice header and of the first end header |
| Headers.LastHeaderIsLowest | app.py:433-441 | on sorted items no header of a kind lies below the recorded position |
| DirectMode.IsSpokenLine | app.py:476-485 | defines the routing rule for one line: with both header positions, by the top of the first item showing it (spoken when none does); otherwise by the index of its first equal line; `DirectMode.OnlyLastIsPractice` and `UnshownLineIsSpoken` prove its consequences |
| DirectMode.Route | app.py:471-500 | defines the direct lists: each line's new phrases or characters appended to the list it goes to; `DirectMode.RouteSpokenMembers`, `RoutePracticeMembers` and `RouteShape` prove its properties |
| DirectMode.FirstShowing | app.py:478-482 | finds the first item whose raw text is the line or whose text contains it, or reports that none exists |
| DirectMode.FindShowing | app.py:478-482 | the inner search loop leaves at the first item showing the line |
| DirectMode.LineGoesSpoken | app.py:476-485 | the decision for one line is the modelled routing rule |
| DirectMode.AddLine | app.py:487-500 | a spoken line appends its new phrases to spoken; any other line appends its new characters to practice |
| DirectMode.ClassifyLines | app.py:471-500 | the routing loop yields the routed lists |
| DirectMode.Destinations | app.py:476-485 | records, for every line, where it goes |
| DirectMode.DistributeSpoken | app.py:487-493 | a word is spoken exactly when a line routed to spoken yields it |
| DirectMode.DistributePractice | app.py:494-500 | a word is practice exactly when a line routed to practice yields it |
| DirectMode.RouteShape | app.py:471-500 | the direct lists are duplicate-free, with CJK words in spoken and one- or two-character entries in practice |
| DirectMode.RouteSpokenMembers | app.py:471-500 | a word is in the direct spoken list exactly when a spoken-routed line has it as a phrase |
| DirectMode.RoutePracticeMembers | app.py:471-500 | a word is in the direct practice list exactly when a practice-routed line yields it as a character entry |
| DirectMode.OnlyLastIsPractice | app.py:483-485 | without both headers and with distinct lines, exactly the last line is practice |
| DirectMode.RepeatedLastLineLeavesPracticeEmpty | app.py:484-485 | without both headers, a last line repeating an earlier one is spoken, so practice stays empty |
| DirectMode.LoneLineLeavesSpokenEmpty | app.py:483-485 | without both headers a single line is practice, so spoken stays empty |
| DirectMode.UnshownLineIsSpoken | app.py:476-482 | with both headers, a line no item shows stays spoken |
| SectionScan.Step | app.py:540-574 | defines one item of the state machine: a header switches the section and sets its flag, an end marker closes the section, any other item extends the current section's list |
| SectionScan.Scan | app.py:539-574 | defines the state after a prefix of the items; `SectionScan.ScanClosedForm`, `ScanFlags` and `EndMarkerSilences` prove its behaviour |
| SectionScan.Sections | app.py:533-578 | defines the section lists: the scan from the seeds, then `dict.fromkeys`; `SectionScan.SectionsClosedForm`, `SectionsFacts`, `SpokenMembers` and `PracticeMembers` prove its properties |
| SectionScan.ScanClosedForm | app.py:539-574 | from no section, the scan's lists are the seeds plus what each non-header item in a spoken or practice section yields, and its section is the one set by the last header |
| SectionScan.ScanFlags | app.py:534-555 | a section flag is set exactly when the seed list was non-empty or a header of that kind occurs |
| SectionScan.EndMarkerSilences | app.py:556-559 | after an end header and until the next spoken or practice header, nothing is added |
| SectionScan.InSpokenGain | app.py:562-568 | a word is gained for spoken exactly when a non-header item, last preceded by a spoken header, yields it |
| SectionScan.InPracticeGain | app.py:569-574 | a word is gained for practice exactly when a non-header item, last preceded by a practice header, yields it |
| SectionScan.SectionsClosedForm | app.py:533-578 | each final list is `dict.fromkeys` of its seed followed by its gain |
| SectionScan.SpokenMembers | app.py:533-578 | a word is in the spoken list exactly when it is a seed or a spoken-section phrase |
| SectionScan.PracticeMembers | app.py:533-578 | a word is in the practice list exactly when it is a seed or a practice-section character entry |
| SectionScan.SectionsFacts | app.py:533-578 | the final lists are duplicate-free, keep the seeds at the front, and keep the entry shapes |
| SectionScan.EmptyTextHasNoWords | app.py:562 | the `and text` guard is redundant: empty text yields no words |
| SectionScan.ScanItem | app.py:540-574 | one loop iteration performs one step of the state machine |
| SectionScan.ScanSections | app.py:533-578 | the loop and the final deduplication yield the section lists and the two flags |
| Fallback.CjkRuns | app.py:659 | defines the `findall` runs: the non-empty pieces between non-CJK characters; `Fallback.RunsAreCjkPieces` proves their shape |
| Fallback.FallbackLists | app.py:649-680 | defines the two fallback lists: found reference words first, then the additional runs of each kind, each once; `Fallback.FallbackShape`, `FallbackComplete` and `FallbackSound` prove their properties |
| Fallback.NonEmpty | app.py:659 | `findall` yields exactly the non-empty split pieces |
| Fallback.NonEmptyAppend | app.py:659 | the runs keep the order of the pieces |
| Fallback.RunsAreCjkPieces | app.py:659 | every run is non-empty, all CJK and occurs in the text |
| Fallback.Present | app.py:663-664 | keeps exactly the reference words occurring in the text, duplicate-free when the reference is |
| Fallback.PresentInOrder | app.py:663-664 | the found words come out in the order of the reference list |
| Fallback.PresentAppend | app.py:663-664 | the comprehension works word by word: the words found in a concatenation are those found in each part, in order |
| Fallback.Additional | app.py:667 | keeps exactly the runs of two or more characters not already found |
| Fallback.AdditionalAppend | app.py:667 | the additional words keep the order of the runs |
| Fallback.SpokenExtras | app.py:670-673 | selects exactly the extra words the spoken branch takes |
| Fallback.SpokenExtrasAppend | app.py:670-673 | the spoken extras keep the order of the additional words |
| Fallback.PracticeExtras | app.py:674-676 | selects exactly the extra words the practice branch takes |
| Fallback.PracticeExtrasAppend | app.py:674-676 | the practice extras keep the order of the additional words |
| Fallback.Categorize | app.py:670-676 | the categorisation loop appends the spoken extras to spoken and the others to practice, each when absent |
| Fallback.FallbackExtraction | app.py:649-680 | `fallback_vocabulary_extraction` computes the two fallback lists |
| Fallback.WorksheetDistinct | app.py:655-656 | neither reference list has duplicates |
| Fallback.ExceptionsAreWorksheetWords | app.py:655-671 | the three named exceptions are all in the spoken reference list |
| Fallback.ExceptionsNeverApply | app.py:667-671 | an extra word is never one of the exceptions, so it goes to spoken exactly when it has three or more characters |
| Fallback.FallbackShape | app.py:649-680 | both fallback lists are duplicate-free, with CJK words in spoken and one- or two-character entries in practice |
| Fallback.FallbackComplete | app.py:659-676 | every CJK run of three or more characters is spoken, and every run of two is in one of the lists |
| Fallback.FallbackSound | app.py:663-676 | a spoken entry is a found reference word or a run of three or more; a practice entry is a found reference word or a run of two |
| Pipeline.Parse | app.py:367-600 | defines the whole parse branch for branch: empty input, direct return with both lists, section scan, fallback, and the correction pass on every path; `Pipeline.ParseFacts`, `DirectHasBoth`, `ParseDiagnostics` and `FallbackExactlyWithoutSections` prove its properties |
| Pipeline.FullText | app.py:526 | defines the concatenated text of the sorted items, which the fallback reads |
| Pipeline.ParseVocabularyFromOcr | app.py:377-600 | the procedure computes the parse; empty OCR gives two empty lists; both lists are duplicate-free with the entry shapes |
| Pipeline.SeedFacts | app.py:471-500 | the direct lists handed to the section scan are duplicate-free with the entry shapes |
| Pipeline.CorrectBothFacts | app.py:591-593 | the final correction leaves duplicate-free lists with the entry shapes and no `眼晴`, and is final |
| Pipeline.ParseFacts | app.py:377-600 | on every path both outputs are duplicate-free, have the entry shapes, hold no `眼晴`, and are unchanged by correcting again |
| Pipeline.CorrectedNotEmpty | app.py:607-615 | the correction pass never empties a non-empty list |
| Pipeline.DirectHasBoth | app.py:507-518 | the direct result is returned only with both lists non-empty |
| Pipeline.ParseDiagnostics | app.py:533-574 | on a scanned page the spoken flag is set exactly when the direct spoken list was non-empty or an item is a spoken header, and the practice flag likewise |
| Pipeline.FallbackExactlyWithoutSections | app.py:533-583 | the fallback runs exactly when the direct lists were both empty and no item is a spoken or practice header |
| UnitName.ExtractUnitName | app.py:208-227 | defines `extract_unit_name`: the label of the first fragment, in OCR order, that gives one; `UnitName.ExtractUnitNameNone`, `ExtractUnitNameFirst` and `FirstFragmentWins` prove its behaviour |
| UnitName.NumeralValue | app.py:216-219 | defines the numeral table: a single numeral 一–十 becomes its digits, any other run is kept; the example lemmas exercise both cases |
| UnitName.NumeralEnd | app.py:212 | the end of the run of numerals (一–十 or digits) starting at a position |
| UnitName.DigitEnd | app.py:223 | the end of the run of digits starting at a position |
| UnitName.FindChinese | app.py:212 | the leftmost `单元` followed by a numeral, or none |
| UnitName.FindEnglish | app.py:223 | the leftmost `Unit`/`unit`, optional whitespace and a digit, or none |
| UnitName.UnitFromText | app.py:210-225 | a fragment gives no label exactly when neither pattern matches |
| UnitName.ChineseLabel | app.py:212-220 | a Chinese match gives "Unit " plus the mapped numerals and the whole matched text |
| UnitName.EnglishLabel | app.py:223-225 | failing that, an English match gives "Unit " plus its digits and 单元 plus its digits, where the digits are the whole digit run after `Unit`/`unit` and any whitespace |
| UnitName.RemovingPrefixLeavesNumerals | app.py:218 | removing 单元 from the match leaves exactly the numeral run |
| UnitName.NoUnitInNumerals | app.py:218 | a numeral run contains no 单元 |
| UnitName.ExtractUnitNameNone | app.py:210-227 | the result is `(None, None)` exactly when no fragment gives a label |
| UnitName.ExtractUnitNameFirst | app.py:210-225 | a label comes from some fragment, and every earlier fragment gives none |
| UnitName.FirstFragmentWins | app.py:210-225 | the first fragment that gives a label decides, whichever of the two patterns it matched |
| UnitName.EarlierEnglishWinsExample | app.py:210-225 | `unit 5` followed by `单元三` gives ("Unit 5", "单元5"): the loop returns at the first fragment where either pattern matches |
| UnitName.EnglishFive | app.py:222-225 | the text `unit 5` matches only the English pattern and gives ("Unit 5", "单元5") |
| UnitName.ChineseNumeralExample | app.py:212-220 | `单元三` gives ("Unit 3", "单元三") |
| UnitName.UnmappedNumeralExample | app.py:216-219 | `单元十一` passes through unmapped as ("Unit 十一", "单元十一") |
| UnitName.EnglishExample | app.py:223-225 | `unit 5` gives ("Unit 5", "单元5") |
| UnitName.UpperCaseExample | app.py:223 | `UNIT 5` matches neither pattern |
| Upload.AllowedFile | app.py:63-72 | defines `allowed_file`: a dot, and the lower-cased text after the last dot among the allowed extensions; `Upload.AllowedFileFacts` characterises it |
| Upload.Lower | app.py:72 | lower-casing maps each character and keeps the length |
| Upload.LastDot | app.py:71-72 | finds the last dot; after it no dot remains; none exactly when the name has no dot |
| Upload.AllowedFileOfName | app.py:63-72 | `base.ext` with a dot-free extension is accepted exactly when the lower-cased extension is allowed |
| Upload.AllowedFileFacts | app.py:63-72 | accepted names are exactly those of the form `base.ext` with a dot-free allowed extension |
| Upload.LowerIdempotent | app.py:72 | lower-casing twice is lower-casing once |
| Upload.AllowedFileIgnoresCase | app.py:63-72 | lower-casing a name does not change whether it is accepted |
| Upload.UpperCaseExtensionExample | app.py:71-72 | `page1.PNG` is accepted |
| Upload.LastDotExample | app.py:71-72 | `scan.v2.jpeg` is accepted: only the last dot counts |
| Upload.RejectedExamples | app.py:71-72 | `notes.pdf` and `png` are rejected |

## Left out

- The Flask routes, the error handlers and the HTTP glue around the parse are not modelled; they only move data in and out.
- Saving and loading units as JSON, listing uploaded images by file time, and `get_unique_filename` (uuid, werkzeug) are file-system and library work and are not modelled.
- The EasyOCR engine and its process-wide `get_ocr` singleton are not modelled. The OCR result is the input sequence.
- All `print` logging is left out.
- The `debug_info` dictionaries are modelled only as how the lists were obtained plus the two section flags. Counts, the extraction-method string and the 200-character truncated `full_text` are left out.
- `Fragments.Box` holds at least one point, so an empty bounding box is outside the model. In the source a kept text item with an empty box makes `min([])` raise ValueError when the items are sorted (app.py:426, app.py:523), and a fragment below the confidence threshold with an empty box is simply dropped. The model captures neither the exception nor that dropped case.
- Confidence is a `real` compared with 0.05. Box coordinates are integers. Float formatting is left out.
- `end_section_y` is computed (`Headers.LocateHeaders` returns it) but, as in the source, nothing uses it.
- `Fragments.SortByTop`: the in-place `list.sort` is modelled as a function returning the sorted sequence (a stable insertion sort). In-place update is not captured, and neither is aliasing, since the list is local.
- `\s` is a fixed set: the characters Python's `str.isspace` accepts. `\d` is the ASCII digits plus the fullwidth digits. Other Unicode decimal digits are not modelled.
- `Upload.Lower` maps only `A`–`Z`. Python's `str.lower` also lower-cases non-ASCII letters, which cannot occur in an allowed extension.
- `UnitName.UnitFromText`: the two regular expressions are modelled as explicit leftmost, longest-run searches rather than as a regex engine.
- `Pipeline.FallbackExactlyWithoutSections` states the fallback condition in terms of the items' header kinds. It does not re-derive the keyword tests for each item; `Headers.SpokenKeywordsReduce` and `Headers.PracticeKeywordsReduce` cover those.
