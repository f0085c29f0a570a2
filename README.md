# Japanese e-book analysis — a verified model of the lexical-statistics core

This project models the core of a small web application that analyses
Japanese e-books. It takes in an `.epub` or `.txt` file and reports:

- how long the book is, in words and in characters;
- how many distinct words and characters it uses, and how many of each occur only once;
- a table of every word and every character with its number of occurrences.

Every word can be looked up in frequency reference lists. Each list gives
a word a rank, where 1 is the most frequent word. The ranks become star
ratings and combine into an overall rank. A histogram sorts the ranks into
bins 500 wide.

The model keeps one Dafny module per source file:

- `FrequencyLists`: `frequency_lists.py`;
- `Utils`: `utils.py`;
- `Plots`: `plots.py`;
- `Analysis`: `analysis.py`;
- `MecabNodes`: `MecabNode.py`;
- `BookUtils`: `book_utils.py`;
- `BookStats`: the analysis block of `book.py`.

Five support modules hold what these share:

- `Wrappers`: Python exceptions as a `Result` datatype, naming the exception kind;
- `Strings`: order-preserving filter, `str.split` on one character, `str.join`, `str.replace`, subsequences;
- `Numerals`: `str(n)`, `int(s)` and the first match of `[0-9]+`;
- `Dicts`: a Python `dict` as its items in insertion order;
- `Tally`: the occurrence table, i.e. distinct values in first-occurrence order, counted, stably sorted by decreasing count, plus the used-once filter.

The source works in two styles, and the model follows it:

- Where the source loops and updates variables, the model is a `method`. Its `ensures` ties the result to a specification function. The methods are `GetFrequency`, `ProcessFrequencyList`, `GetAllFrequencyLists`, `CleanSurface`, `RemoveInTurn`, `ParseSentence`, `GenerateBins`, `GetBins` and `GetMaximumFrequency`.
- Where the source is made of expressions, the model is a `function` with lemmas.

## Model

| member | source | states |
|---|---|---|
| FrequencyLists.StarsFromFrequency | frequency_lists.py:16-46 | ValueError exactly for a rank below 1; otherwise a rating from 0 to 5 |
| FrequencyLists.StarsBands | frequency_lists.py:29-40 | 5 stars iff rank ≤ 1500, 4 iff 1501–5000, 3 iff 5001–15000, 2 iff 15001–30000, 1 iff 30001–60000, 0 iff ≥ 60001 |
| FrequencyLists.StarsMonotone | frequency_lists.py:29-40 | a larger rank never gets more stars |
| FrequencyLists.RoundHalfEven | frequency_lists.py:74 | `round`: within 0.5 of its argument, and even on a tie |
| FrequencyLists.RoundBetween | frequency_lists.py:74 | rounding a value between two integers stays between them |
| FrequencyLists.GetOverallFrequency | frequency_lists.py:61-75 | ZeroDivisionError exactly when some rank is 0; a ranked result has rank ≥ 1 and the stars of that rank |
| FrequencyLists.OverallOfNothing | frequency_lists.py:70-73 | no per-list entries give 'N/A' |
| FrequencyLists.ReciprocalsBounds | frequency_lists.py:70-71 | with n ranks in lo..hi, the sum of reciprocals lies between n/hi and n/lo, and no rank is 0 |
| FrequencyLists.OverallBetween | frequency_lists.py:70-75 | the harmonic mean of ranks in lo..hi (lo ≥ 1) succeeds and lies in lo..hi |
| FrequencyLists.HarmonicMeanBetween | frequency_lists.py:70-74 | with ranks in lo..hi (lo ≥ 1), no rank is 0, the sum of reciprocals is not 0, and `len / sum` lies in lo..hi |
| FrequencyLists.OverallOfOne | frequency_lists.py:74-75 | a single entry is its own overall entry |
| FrequencyLists.OverallExample | frequency_lists.py:70-75 | ranks 100 and 400 combine to 160 with 5 stars |
| FrequencyLists.LastMatch | frequency_lists.py:87-90 | there is an entry for a name exactly when some list of that name holds the word |
| FrequencyLists.Matched | frequency_lists.py:86-92 | at most one entry per list, and every collected entry is a list's name with that list's entry for the word |
| FrequencyLists.Profile | frequency_lists.py:78-96 | raises only ZeroDivisionError or ValueError; a profile has an 'Overall' key and at most one more key per list; a ranked 'Overall' has rank ≥ 1 and the stars of that rank |
| FrequencyLists.GetFrequency | frequency_lists.py:78-96 | the loop's dictionary plus its 'Overall' entry is the profile `Profile` |
| FrequencyLists.ProfileEntries | frequency_lists.py:86-96 | the profile has a key exactly for 'Overall' and the names of the lists holding the word; each name maps to the last such list's entry |
| FrequencyLists.ProfileOverall | frequency_lists.py:94 | 'Overall' holds the combination of the collected entries |
| FrequencyLists.MatchedBounded | frequency_lists.py:87-92 | every collected entry lies within any bounds that the lists' entries for the word meet |
| FrequencyLists.ProfileOfValidLists | frequency_lists.py:70-96 | over loaded lists the lookup never raises, and the overall rank lies between the smallest and largest matched rank |
| FrequencyLists.ProfileOfSingleMatch | frequency_lists.py:74-75 | with exactly one list holding the word, 'Overall' is that list's entry |
| FrequencyLists.ProfileOfUnknownWord | frequency_lists.py:86-96 | a word in no list gives exactly `{'Overall': 'N/A'}` |
| FrequencyLists.ListName | frequency_lists.py:105 | IndexError exactly when the last `/`-piece has no `.`; a name holds no `.` or `/` |
| FrequencyLists.ListNameOfPath | frequency_lists.py:105 | `dir/stem.ext` is named `stem` |
| FrequencyLists.ListNameOfPieces | frequency_lists.py:105 | `dir/p1.….pn` (n ≥ 2, no `.` or `/` in a piece) is named by its next-to-last piece |
| FrequencyLists.ParseEntry | frequency_lists.py:116-123 | AssertionError exactly when the descriptor has no digit; an entry has rank ≥ 1 and the stars of that rank |
| FrequencyLists.EntryRoundTrip | frequency_lists.py:117-120 | a rank written into a descriptor after a digit-free prefix is read back |
| FrequencyLists.LoadWords | frequency_lists.py:113-123 | a failing load raises AssertionError (no digit in a descriptor) or ValueError (a rank of 0) |
| FrequencyLists.LoadList | frequency_lists.py:98-126 | a loaded list is named `ListName` of the file; a name that cannot be taken raises IndexError whatever the data; errors are IndexError, AssertionError or ValueError |
| FrequencyLists.ProcessFrequencyList | frequency_lists.py:98-126 | the loop over the triples yields `LoadList` of the file: name, then words, with the first failure propagated |
| FrequencyLists.LoadWordsFailureSticks | frequency_lists.py:116-118 | once a triple fails, loading more triples fails the same way |
| FrequencyLists.LoadWordsSucceeds | frequency_lists.py:116-123 | a load succeeds iff every descriptor yields an entry |
| FrequencyLists.LoadWordsKeys | frequency_lists.py:116-123 | the loaded keys are exactly the words of the triples |
| FrequencyLists.LoadWordsLastWins | frequency_lists.py:123 | under each word is the entry of its last triple |
| FrequencyLists.LoadedListIsValid | frequency_lists.py:120-123 | every loaded entry has rank ≥ 1 and the stars of that rank |
| FrequencyLists.LoadAll | frequency_lists.py:48-59 | succeeds iff every file loads; then there is one list per file, list i being the list of file i |
| FrequencyLists.LoadAllFirstError | frequency_lists.py:55-57 | a failure is the error of some file i that fails, with every file before i loading |
| FrequencyLists.GetAllFrequencyLists | frequency_lists.py:48-59 | the loop over the files, stopping at the first failure, computes `LoadAll` |
| Numerals.ParseNat | plots.py:41 | `int(s)` succeeds exactly on a non-empty digit string |
| Numerals.ParseNatToString | plots.py:41 | `int(str(n)) == n` |
| Numerals.FirstNumber | frequency_lists.py:117-118 | `re.search('[0-9]+')` finds nothing exactly when there is no digit |
| Numerals.FirstNumberAtFirstDigit | frequency_lists.py:117-120 | the number found is the digit run starting at the first digit |
| Numerals.FirstNumberOfEmbedded | frequency_lists.py:117-120 | the first digit run is found, whole, after a digit-free prefix |
| Dicts.Put | frequency_lists.py:90 | `d[k] = v`: k maps to v, other keys are unchanged, an existing key keeps its place and a new key is added last |
| Strings.Replace | MecabNode.py:10-15 | `str.replace` adds no character from outside the text and the replacement |
| Strings.SplitJoin | MecabNode.py:5-6 | splitting on a separator that no part holds gives the parts back |
| Strings.JoinSplit | frequency_lists.py:105 | joining the pieces of a split gives the text back |
| Strings.SplitShape | plots.py:40 | a split has a single piece exactly when the separator is absent, and its first piece is a prefix of the text |
| Utils.ProcessJapaneseText | utils.py:65-74 | no U+3000 is left; every kept character comes from the text and is Japanese; every Japanese character other than U+3000 is kept |
| Utils.ProcessJapaneseTextIsFilter | utils.py:72-73 | the filter followed by the deletion is a single order-preserving filter |
| Utils.ProcessJapaneseTextSubsequence | utils.py:73 | the result is a subsequence of the text |
| Utils.ProcessJapaneseTextIdempotent | utils.py:72-74 | filtering twice is filtering once |
| Utils.Clean | utils.py:83-89 | a cleaned word holds no whitespace and no filter-string character, and only characters of the surface |
| Utils.CleanIsFilter | utils.py:83-89 | cleaning is the order-preserving filter by "not whitespace and not in the raw filter string" |
| Utils.CleanKeeps | utils.py:87-89 | every surviving character is kept, and the word is a subsequence of the surface |
| Utils.CleanIdempotent | utils.py:87-89 | cleaning a cleaned word changes nothing |
| Utils.NonAsciiKept | utils.py:83 | the filter string is ASCII, so a non-ASCII character that is not whitespace is never removed |
| Utils.CleanNothingKept | utils.py:87-90 | a surface with no kept character cleans to the empty word |
| Utils.CleanSingleKept | utils.py:87-89 | one kept character among removed ones is the whole word |
| Utils.CleanTabbedWord | utils.py:87-89 | "猫\t" cleans to "猫" |
| Utils.CleanNumber | utils.py:83-89 | "123" cleans to "" |
| Utils.CleanFullWidthBang | utils.py:83-89 | "  ！  " cleans to "！": the full-width mark is not in the filter string |
| Utils.RemoveEachIsFilter | utils.py:88-89 | removing the filter characters one after another is one filter by "not in the filter string" |
| Utils.RemoveInTurn | utils.py:88-89 | the loop over the characters deletes each in turn: the result is `RemoveEach` of the word |
| Utils.CleanSurface | utils.py:87-89 | the loop over the filter string gives `Clean` of the surface |
| Utils.SentenceWords | utils.py:84-92 | no more words than surfaces; each word is non-empty and holds only kept characters |
| Utils.SentenceWordsIsFilter | utils.py:84-92 | the words are exactly the non-empty cleaned surfaces, in node order |
| Utils.ParseSentence | utils.py:76-93 | the loop over the nodes gives `SentenceWords` of the surfaces |
| Plots.Label | plots.py:54 | `str(a)-str(b)`: one `-` right after the digits of a, digits everywhere else, at least three characters |
| Plots.BinCount | plots.py:53 | the bin count n satisfies 500·n ≤ m < 500·(n+1) for m ≥ 0, and is 0 below 500 |
| Plots.GenerateBins | plots.py:46-57 | exactly BinCount(m) labels, label i being "500i-500(i+1)" |
| Plots.LabelRoundTrip | plots.py:40-41 | splitting a label on `-` gives back its two numbers |
| Plots.LowEnd | plots.py:40-41 | `int(lst[0])` raises only ValueError, and succeeds only on a label starting with a digit |
| Plots.HighEnd | plots.py:40-41 | `int(lst[1])` raises IndexError exactly when the label has no `-`, and otherwise only ValueError |
| Plots.InBin | plots.py:41 | the `and` reads the high end only after `f >= lo`: below a valid low end the answer is false whatever the high end; true means lo ≤ f < hi; errors are ValueError or IndexError |
| Plots.BinsContiguous | plots.py:50-57 | m < 500 gives no bins; the first starts at 0; each high end is the next low end, and every high end is ≤ m |
| Plots.InBinOfLabel | plots.py:41 | on a generated label the test is `lo <= f < hi` |
| Plots.InBinErrors | plots.py:40-41 | a non-numeric low end raises ValueError; a reached label without `-` raises IndexError |
| Plots.BinScan | plots.py:39-43 | the result is the first matching bin, or the last index; no earlier bin matches |
| Plots.GetBins | plots.py:33-43 | the indexed loop with early return computes `BinScan` from bin 0 |
| Plots.ScanBins | plots.py:39-43 | over bins where bin k holds exactly 500k..500(k+1), the scan from bin i finds f div 500, or the last index outside every bin |
| Plots.ScanGenerated | plots.py:39-57 | the same scan over the labels `generate_bins` builds |
| Plots.BinOfGenerated | plots.py:33-57 | over generated bins, rank f is in bin f div 500, and a rank outside every bin goes to the last one |
| Plots.BinsExample | plots.py:43-57 | a maximum of 1300 gives two bins; rank 1301 falls back to bin 1, rank 499 is in bin 0 |
| Plots.GetMaximumFrequency | plots.py:59-71 | ≥ 0 and ≥ every 'netflix' rank, equal to one of them unless 0; AttributeError exactly when some 'netflix' entry is 'N/A' |
| Analysis.CharEntries | analysis.py:25-29 | one row per table pair, same character and count, same order |
| Analysis.AnalyseChars | analysis.py:16-38 | `all` is the text, `unique` its set of characters, and as written `used_once` equals `unique` |
| Analysis.AnalyseCharsCorrected | analysis.py:32 | `used_once` holds exactly the characters that occur once, a subset of `unique` |
| Analysis.CharTableRows | analysis.py:25-29 | one row per distinct character, holding its multiplicity, with no repeated character |
| Analysis.CharTableOrder | analysis.py:25-31 | rows are in non-increasing count order, and the counts add up to the text length |
| Analysis.SameCharTable | analysis.py:25-31 | both versions build the same table |
| Analysis.TotalOfCharEntries | analysis.py:26-29 | the character rows add up as the table does |
| Analysis.AnalyseCharsReportsRepeatedChar | analysis.py:32 | in "aa", 'a' occurs twice yet is reported as used once; the corrected version omits it |
| Analysis.CharCounts | analysis.py:24-32 | as written, the used-once and distinct counts are equal; corrected, used-once ≤ distinct ≤ length |
| Analysis.AnalyseWords | analysis.py:40-47 | always raises NotImplementedError |
| Tally.WithUses | book.py:80-81 | no more rows than elements; each row pairs a value of the input with its multiplicity |
| Tally.Distinct | book.py:80-86 | the distinct values, no repeats, covering every element |
| Tally.SortByCount | book.py:81-87 | the sort is a permutation |
| Tally.WithUsesCovers | book.py:81-87 | every input value has a row |
| Tally.WithUsesShape | book.py:79-88 | sorted by non-increasing count, no repeated value, counts adding up to the length, one row per distinct value, used-once ≤ distinct ≤ length |
| Tally.UsedOnce | book.py:82 | no longer than the table it filters |
| Tally.UsedOnceMembers | book.py:82 | a value is in the used-once list exactly when the table has the row (value, 1) |
| Tally.WithUsesUsedOnce | book.py:82-88 | the used-once list holds exactly the values of multiplicity 1 |
| MecabNodes.Unstarred | MecabNode.py:11-15 | `replace("*", "")` is the feature with every `*` deleted and every other character kept in order, so no `*` is left |
| MecabNodes.Pos | MecabNode.py:10 | every character of the POS other than `.` comes from one of the first four features |
| MecabNodes.ParseNode | MecabNode.py:4-15 | IndexError exactly when there is no tab or fewer than 6 features; the surface is the text before the first tab |
| MecabNodes.ParseNodeWithoutTab | MecabNode.py:6 | a line without a tab raises IndexError |
| MecabNodes.ParseNodeOfLine | MecabNode.py:5-15 | a line built from a surface, ≥ 6 features and further tab fields parses back to that surface, POS and de-starred features; missing optional fields are "" |
| MecabNodes.PosWithoutStars | MecabNode.py:10 | with no `*` in the first four features, the POS is their `.`-join |
| MecabNodes.PosDropsStarredLevels | MecabNode.py:10 | when each of the first four features is `*` or a name without `*` and `.`, and the first is not `*`, the POS is the `.`-join of the levels that are not `*` |
| MecabNodes.PosOfStarredLevels | MecabNode.py:10 | two trailing `*` levels are dropped with their dots: `a.b` |
| MecabNodes.Repr | MecabNode.py:17-18 | the repr starts with the surface and a `,`; every other character is a `,` or comes from one of the seven fields |
| MecabNodes.ReprSplits | MecabNode.py:17-18 | a repr splits on `,` back into the seven fields when the surface holds no `,` |
| BookUtils.Extension | book_utils.py:40 | the extension holds no `.` and is no longer than the name |
| BookUtils.ExtensionOf | book_utils.py:40 | the extension of `stem.ext` is `ext`; a name with no dot is its own extension |
| BookUtils.BookDir | book_utils.py:43 | the directory is the books prefix followed by the hash |
| BookUtils.BookDirInjective | book_utils.py:43 | the hash can be read back from the directory, so different hashes give different directories |
| BookUtils.ProcessTxt | book_utils.py:80-97 | path is the file name, no authors, no image; the title has no `/` |
| BookUtils.TxtTitle | book_utils.py:88-89 | `dir/stem.ext` with a dot-free stem is titled `stem` |
| BookUtils.ProcessEpub | book_utils.py:53-78 | title and authors come from the epub metadata |
| BookUtils.EpubPaths | book_utils.py:61-69 | the text is `no-furigana.txt` and the cover is `cover-image.jpg` in the book directory |
| BookUtils.ProcessFile | book_utils.py:29-51 | `epub` and `txt` dispatch to their processors in the hash's directory; any other extension raises ValueError |
| BookUtils.Report | book_utils.py:121-137 | title, authors, image, hash and histogram come from the book; each count is the size of the matching collection of the analyses; the tables are the analyses' tables |
| BookUtils.ReportCharCounts | book_utils.py:116-136 | over `analyse_chars` as written: the character count is the text length, the distinct count its number of distinct characters, and the used-once count equals the distinct count; the table adds up to the length |
| BookUtils.ReportCharCountsCorrected | book_utils.py:131-135 | over the corrected analysis: used-once ≤ distinct ≤ length, with the same length, distinct count and table sum |
| BookUtils.AnalyseEbook | book_utils.py:99-117 | always raises: ValueError for a bad extension; otherwise the error of the first list file that fails to load, with every earlier file loading; TypeError from the three-argument word-analysis call exactly when every list loads |
| BookStats.BookMetadata | book.py:50-62 | an epub takes the reader's metadata; a txt file takes the fallback title with empty authors and cover; any other extension raises KeyError |
| BookStats.ImagePath | book.py:63-73 | an epub's cover is `musume.jpg` in the book directory; any other file gets no image path |
| BookStats.WordEntries | book.py:90 | the word rows keep the table's order and values |
| BookStats.Statistics | book.py:79-106 | metadata and hash from the inputs; word and character counts are the lengths; used-once ≤ distinct ≤ all for both, with one table row per distinct value |
| BookStats.AnalyseEbook | book.py:26-106 | raises exactly for an extension other than epub and txt; the data carries the hash and the text length |
| BookStats.AnalyseTxt | book.py:53-73 | a txt file is titled with the fallback title, with no authors or image, and counts the sentence words |
| BookStats.WordTable | book.py:85-106 | one word row per distinct word with its multiplicity, non-increasing order, used-once ≤ distinct ≤ all |
| BookStats.WordTotals | book.py:85-97 | the word counts add up to the number of words; used-once holds exactly the words that occur once |
| BookStats.CharTotals | book.py:79-102 | the character table is the corrected analysis's table, adding up to the length; the used-once count is the size of the used-once list, which holds exactly the characters that occur once; used-once ≤ distinct ≤ length |

## Left out

- `BookStats.AnalyseEbook`: `fallback_title` is a required input, while book.py:26 gives it the default `'Book Title'`. The only caller, app.py:57, always passes it.
- The morphological analyser itself. `ParseSentence` takes the node surfaces as a sequence, and `BookStats.AnalyseEbook` takes both the book's text and its surfaces as inputs.
- File and process I/O is left out. The file contents are inputs of the model. This covers:
  - reading and writing files and JSON;
  - the external converters (`furigana4epub`, the pandoc script) and `mkdir`;
  - base64 cover saving;
  - the SHA-256 hash (an input);
  - the epub metadata reader (an input);
  - the directory glob in `get_all_frequency_lists` (the files are given as a sequence);
  - `clean_dir`.
- `get_histogram` and the rest of the plotting with pandas and plotly. Only its bin arithmetic is modelled. `book_utils.py` calls it with two arguments while it takes one; `BookUtils.AnalyseEbook` already raises earlier.
- Known-word counts in the book report: nothing shown computes them.
- The Flask routes in `app.py` and the script `analyse_ebook.py`.
- `FrequencyLists.GetOverallFrequency`: computes on exact reals, not binary floats, so it leaves out float rounding artefacts near .5.
- `Numerals.ParseNat`: weaker than Python's `int`, which also accepts surrounding whitespace, a sign, underscores and non-ASCII decimal digits such as '５'. Generated labels never contain them.
- `Tally.Distinct`: Python iterates a `set` in an unspecified order before the stable sort. The model takes first-occurrence order, so rows with equal counts may be ordered differently from a run of the program.
- `Utils.IsWhitespace`: the `\s` class is fixed to the ASCII blanks, U+001C–U+001F, U+0085 and the Unicode space separators. Other Unicode details of the regular-expression engine are left out.
- `Analysis.WordAnalysis`: the model gives it a `usedOnce` field because the book report reads `words.used_once` (book_utils.py:128). `analysis.py:13` declares `use_once = Set[str]` instead; there is no `used_once` at all, so that read names a missing attribute. It is never reached, because `analyse_words` raises first.
- `BookUtils.Report`: carries no histogram path computation (an input) and no known-word counts.
- `Strings.Replace`: defined for a non-empty pattern only. Every call in the modelled code passes a non-empty one.
- The filter string of `parse_sentence` is a raw string. The characters it removes are therefore `\`, `u`, `k`, `s`, `a`, `t` and `r`, not tab and carriage return; tab and carriage return are removed by the whitespace step anyway. The full-width `！` is not removed.
- The histogram labels are `"0-500"`, `"500-1000"`, and so on, as the code builds them. Consecutive labels share their boundary, and the test `lo <= f < hi` keeps the bins disjoint.

## Findings

| source | as written | input that shows it | evidently intended | confidence | as-written member | corrected member |
|---|---|---|---|---|---|---|
| analysis.py:32 | `used_once` is built from every row of the character table with no test of the count, so it equals the set of distinct characters | the text "aa": 'a' occurs twice and is reported as used once | keep only the rows whose count is 1, as `book.py:82` does | high; not executed | Analysis.AnalyseChars (shown by Analysis.AnalyseCharsReportsRepeatedChar; in the report, BookUtils.ReportCharCounts) | Analysis.AnalyseCharsCorrected (in the report, BookUtils.ReportCharCountsCorrected) |
