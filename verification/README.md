# Crossword word list and grid preprocessing, modelled in Dafny

The repository turns a crossword-clue dataset into a word list and serves
that list to a browser page. It also turns a crossword grid into the input
of a constraint solver. This project models the three pure pieces of logic
at its centre and proves what each promises:

- **The word-list converter** (`convert_wordlist.js`):
  - `parseCSV` is modelled as a fold over the characters with the state
    `(rows, current, field, inQuotes)`.
  - The `sanitize`, `letters` and `normalizeClue` canonicalisers.
  - `ensureMinClue`.
  - The aggregation in `main`. It keeps the valid answers in a `Map` of
    `Map`s, lists each word with its clues, drops words with too few clues,
    and sorts by word. The model states this as a pure function `Convert`
    of the parsed rows.
- **The clue worker** (`web/clueWorker.js`):
  - `dedupeEntries` and `filterEntries`.
  - The `init` and `filter` handlers and the `onmessage` dispatch, modelled
    as a step function from (state, message) to (state, optional reply).
  - `Run`, which folds the step function over a mailbox.
- **The grid preprocessing of `grid_to_puzzle`** (`index.ts`):
  - the comment filter;
  - `make_problem`'s row-major numbering and the re-reading of its text;
  - the row-indexed and transposed grid maps;
  - `get_segments`;
  - the `table(...)` constraints and the zero-padded `segments` rows.

A JavaScript `Map` becomes an insertion-ordered association list
(`OrderedMaps.OMap`). `Map.set` overwrites a value in place, and
`PutIfAbsent` models the `if (!map.has(k)) map.set(k, v)` idiom. Strings
are sequences of characters. A computation that can throw becomes a
`Result`.

The modules follow the program:

| module | file | models |
|---|---|---|
| `Results` | results.dfy | `Option` and `Result` |
| `Text` | text.dfy | ASCII lower-casing, JavaScript `trim`, `split`/`join` on one character, and the regular-expression splits and run replacements the code uses |
| `Clues` | clues.dfy | `normalizeClue`, `sanitize`, `letters` |
| `OrderedMaps` | orderedmaps.dfy | `Map` with insertion order |
| `Csv` | csv.dfy | `parseCSV`, and a writer that is its inverse |
| `WordList` | wordlist.dfy | `ensureMinClue` and the aggregation, filter and sort of `main` |
| `ClueLists`, `ClueDedupe` | dedupe.dfy | `dedupeEntries` |
| `ClueWorker` | clueworker.dfy | `filterEntries`, `handlers`, `onmessage` |
| `Decimal` | decimal.dfy | `${n}` on cell numbers, and reading back every digit run with `Number` |
| `Grid` | grid.dfy | the comment filter, `make_problem`, the re-parse into `gridRows` |
| `Segments` | segments.dfy | the grid maps, their transpose, `get_segments` |
| `Tables` | tables.dfy | the `tables` list, `table_str`, the `segments_str` rows |
| `Puzzles` | puzzle.dfy | `grid_to_puzzle` up to the template, as written and corrected |

Two behaviours of the code worth noting:

- The converter does not keep the *first* text of a clue. `map.get(word).set(key, clue)`
  overwrites, so a repeated normalised key keeps the position of its first
  occurrence but the trimmed text of its last one. Take the rows
  `("1","Feline pet","CAT")` and `("2","feline, pet!","cat")`: the code
  lists `cat` with the clue `feline, pet!`, not `Feline pet`.
  `WordList.StoredClues` states the code's behaviour. The worker, by
  contrast, keeps the first text (`ClueDedupe.DedupeKeepsFirst`).
- The worker does not clamp `minClueCount`. A filter with a count of 0 or
  less answers with every stored entry (`WordList.KeepAtLeastAll`).

## Model

| member | source | states |
|---|---|---|
| Clues.NormalizeClueCanonical | convert_wordlist.js:5-10 | the normalised key holds only a–z, 0–9 and single spaces, with no space at either end |
| Clues.NormalizeCanonical | convert_wordlist.js:5-10 | such a canonical text is its own key, so the canonical texts are exactly the possible keys |
| Clues.NormalizeIdempotent | convert_wordlist.js:5-10 | normalising a key again changes nothing |
| Clues.NormalizeTrim | web/clueWorker.js:1-6 | a trimmed clue has the same key as the untrimmed clue |
| Clues.Sanitize | convert_wordlist.js:48 | the sanitised answer holds only lower-case letters, and the `letters` test accepts it exactly when it is not empty |
| Clues.SanitizeAppend | convert_wordlist.js:48 | sanitising distributes over concatenation |
| Clues.SanitizeChar | convert_wordlist.js:48 | a letter becomes its lower-case form and any other character disappears |
| Clues.SanitizeIdempotent | convert_wordlist.js:48 | sanitising a sanitised word changes nothing |
| Text.TrimIdempotent | convert_wordlist.js:67 | trimming twice is trimming once |
| Text.TrimParts | convert_wordlist.js:67 | a string is its trimmed form with whitespace-only text on each side |
| Text.JoinSplit | index.ts:76-79 | joining the pieces of a split on the same character gives the text back |
| Text.SplitJoin | index.ts:76-79 | splitting a join gives back the pieces, when none holds the separator |
| Csv.EscapedThen | convert_wordlist.js:17-40 | inside quotes, a field with every `"` doubled is read as the field itself |
| Csv.QuotedThen | convert_wordlist.js:19-26 | a quoted field reads back as its content, and its quotes are never stored |
| Csv.ParseCsvGoodRows | convert_wordlist.js:30-44 | no row is emitted that is empty or is the single empty field |
| Csv.LineBreaksSkipped | convert_wordlist.js:30-36 | a run of CR and LF between rows adds no row, so blank lines and the LF of CRLF are skipped |
| Csv.CsvRoundTrip | convert_wordlist.js:12-46 | parsing what the quoting writer emits gives back the rows, for every row list without an empty row |
| Csv.TerminatedRoundTrip | convert_wordlist.js:12-46 | the same round trip holds when each row ends with LF, CR or CRLF |
| Csv.PlainRoundTrip | convert_wordlist.js:12-46 | rows whose fields hold no `"`, `,`, CR or LF, joined with `,` and LF, parse back to themselves, with or without a final LF |
| WordList.EnsureMinClue | convert_wordlist.js:50-54 | the result is an integer of at least 1; a missing value, a non-finite value or one below 1 gives 1, and any other value gives its floor |
| WordList.ClueOf | convert_wordlist.js:67-71 | a row contributes a clue exactly when its normalised clue is not empty, and the clue is stored trimmed under its non-empty key |
| WordList.ValidWords | convert_wordlist.js:63-66 | every recorded word is non-empty and made only of lower-case letters |
| WordList.AggregateGet | convert_wordlist.js:62-73 | a word is in the map exactly when some row gives it validly, and its clue map replays that word's clues in row order |
| WordList.AggregateDistinct | convert_wordlist.js:62-73 | the words in the map are distinct |
| WordList.StoredClues | convert_wordlist.js:62-73 | a word's clue keys are in order of first occurrence, each key holds the text of its last occurrence, and the stored texts are trimmed, non-empty and pairwise different in key |
| WordList.KeyedClues | convert_wordlist.js:70-72 | storing clues under their own keys leaves no two stored clues with the same key |
| WordList.ListingSpec | convert_wordlist.js:74-78 | the listing holds one entry per word of the map, with that word's clue texts in map order |
| WordList.KeepAtLeastMembers | convert_wordlist.js:79 | an entry survives the filter exactly when it has at least the minimum number of clues |
| WordList.LexLessTotal | convert_wordlist.js:80 | the word order is total and antisymmetric |
| WordList.LexLessTransitive | convert_wordlist.js:80 | the word order is transitive |
| WordList.InsertSorted | convert_wordlist.js:80 | inserting a new word into a sorted list keeps it strictly sorted and adds exactly that entry |
| WordList.SortSorted | convert_wordlist.js:80 | sorting a list of distinct words gives a strictly ascending permutation of it |
| WordList.ConvertSpec | convert_wordlist.js:61-80 | the output skips the header row, is strictly ascending by word, and holds exactly the valid words whose distinct clues number at least the minimum, each with its stored clues |
| WordList.OutputWordsHaveClues | convert_wordlist.js:58-80 | with the minimum from `ensureMinClue`, every output word is letters only and has at least one clue |
| WordList.KeepAtLeastTwice | web/clueWorker.js:22-23 | filtering by one count and then another is filtering by the larger, so a larger count keeps a subset |
| WordList.KeepAtLeastAll | web/clueWorker.js:22-23 | a count of 0 or less keeps every entry |
| WordList.KeepAtLeastAppend | web/clueWorker.js:22-23 | filtering keeps order and multiplicity: the filter of a concatenation is the concatenation of the filters |
| WordList.KeepAtLeastOne | web/clueWorker.js:22-23 | a single entry is kept exactly when it has at least the count's clues |
| ClueDedupe.KeyOf | web/clueWorker.js:14-17 | a clue is kept exactly when it is present and its key is non-empty, and it is keyed by its normalised form with its trimmed text |
| ClueDedupe.Dedupe | web/clueWorker.js:10-20 | one entry per input entry, with the same word in the same place, and deduplicated clues |
| ClueDedupe.DedupeCluesDeduplicated | web/clueWorker.js:12-19 | the kept clues are trimmed, non-empty and pairwise different in key, in order of first occurrence of their keys |
| ClueDedupe.DedupeKeepsFirst | web/clueWorker.js:13-17 | the first clue with a given key is kept, as trimmed text |
| ClueDedupe.DedupeOnlyFirst | web/clueWorker.js:13-17 | every kept clue is the trimmed text of the first clue with its key |
| ClueDedupe.DedupeFixed | web/clueWorker.js:10-20 | a list that is already deduplicated is left as it is |
| ClueDedupe.DedupeIdempotent | web/clueWorker.js:10-20 | deduplicating a deduplicated list again changes nothing |
| ClueLists.GoodMapKeyList | web/clueWorker.js:17-19 | the key of each kept clue is the map key it was stored under |
| ClueWorker.Init | web/clueWorker.js:26-32 | the new state holds one entry per payload entry, missing meaning none, every entry's clues deduplicated, and the reply carries that state |
| ClueWorker.Filter | web/clueWorker.js:33-41 | the reply echoes the given count and request id, 1 and 0 when missing, and holds the stored entries with at least that many clues, in stored order, and nothing else |
| ClueWorker.Receive | web/clueWorker.js:44-49 | only `init` and `filter` get a reply, only `init` changes the state, and a filter reply holds only stored entries |
| ClueWorker.Run | web/clueWorker.js:44-49 | every stored list stays deduplicated across any mailbox |
| ClueWorker.RunEchoesIds | web/clueWorker.js:33-41 | the filter replies carry the request ids of the filter messages, in order, with 0 for a missing id |
| ClueWorker.RunLastInit | web/clueWorker.js:26-32 | after any mailbox, the state is the deduplicated payload of the last `init` |
| Grid.KeepLinesMembers | index.ts:76-79 | a line survives the comment filter exactly when its first non-blank character is not `#` or `%` |
| Grid.StripCommentsLines | index.ts:76-79 | the cleaned grid's lines are the kept lines |
| Grid.StripCommentsIdempotent | index.ts:76-79 | cleaning a cleaned grid changes nothing |
| Grid.BlockedRowDropped | index.ts:76-79 | any grid row whose first cell is a blocked `#`, however indented, reads as a comment and is dropped wherever it stands, the other lines kept as before |
| Grid.StripSecondLine | index.ts:76-79 | a grid line followed by a comment line cleans to the grid line alone |
| Grid.MakeProblem | index.ts:34-51 | the problem text renders the numbering, and `max_letters` is the number of open cells |
| Grid.NumberingSpec | index.ts:38-47 | a `_` or `__` cell is numbered one more than the open cells before it in row-major order, and any other cell is 0 |
| Grid.NumberingRange | index.ts:40-50 | every open cell's number lies between 1 and `max_letters` |
| Grid.NumberingStep | index.ts:40-46 | two neighbouring open cells in a row have consecutive numbers |
| Grid.NumberingOrder | index.ts:38-47 | open cells are numbered strictly increasingly in row-major order |
| Grid.ReparseRender | index.ts:84-89 | reading a rendered numbering back gives the numbering |
| Grid.ReparseProblem | index.ts:82-89 | `gridRows` is exactly the numbering `make_problem` produced |
| Decimal.ParseDigits | index.ts:88 | `Number` of a rendered number is that number |
| Decimal.DigitsParse | index.ts:88 | a digit string without a leading zero is the rendering of its value |
| Decimal.WeaveNumbers | index.ts:88 | splitting on non-digits a text of numbers and non-digit separators gives back exactly those numbers |
| Segments.CrosswordAt | index.ts:98-106 | `crossword[r][c]` is the re-read cell inside the first `cols` columns, and 0 elsewhere |
| Segments.TransposeAt | index.ts:98-106 | `crossword_transposed[c][r] == crossword[r][c]` |
| Segments.ScanRuns | index.ts:55-71 | a row's segments are its maximal runs of non-zero cells of length at least 2, left to right |
| Segments.GetSegmentsMembers | index.ts:53-73 | a sequence is a segment exactly when it is such a run in one of the rows |
| Segments.SegmentShape | index.ts:53-73 | every segment has at least two cells and no zero |
| Segments.SegmentsOrdered | index.ts:53-73 | when every row's runs increase in some way, so does every segment |
| Segments.SegmentsDisjoint | index.ts:53-73 | when no number appears twice in the grid, no number appears in two segments |
| Puzzles.PrepareNumbering | index.ts:76-92 | steps 1 and 2 produce the numbering of the cleaned grid, its rendering and its open-cell count |
| Puzzles.NumberingRowMajor | index.ts:34-50 | the numbering increases strictly in row-major order over open cells, and by exactly 1 between neighbours in a row |
| Puzzles.TransposeDistinct | index.ts:95-106 | the transposed grid has distinct numbers when the grid does |
| Puzzles.MapSegmentShapes | index.ts:109-112 | for any such numbering, horizontal segments step by 1, vertical ones increase, all have at least two non-zero cells, and segments of one direction are disjoint |
| Puzzles.SegmentShapes | index.ts:109-112 | the same holds for the segments of every grid |
| Puzzles.SegmentsFit | index.ts:109-112 | every segment fits in `max(rows, cols)` cells |
| Tables.TableNumbers | index.ts:118-120 | a segment's `table` constraint mentions exactly the segment's cells, then its length |
| Tables.JoinTablesNumbers | index.ts:128 | `table_str` mentions exactly the cells of all segments, in order |
| Tables.Repeat | index.ts:124 | `repeat` fails exactly for a negative count |
| Tables.SegmentLineShort | index.ts:121-125 | a segment shorter than `cols` gets a row of exactly `cols` values, padded with zeros |
| Tables.SegmentLineFull | index.ts:121-125 | a segment as long as `cols` gets a row whose last value is empty |
| Tables.FullLineExample | index.ts:121-125 | the segment `[1, 2]` with `cols` 2 gives the row `1,2,,` |
| Tables.SegmentLineLong | index.ts:124 | a segment longer than `cols` makes `repeat` throw `RangeError` |
| Tables.SegmentsTextFails | index.ts:116-126 | building `segments_str` fails exactly when some segment is longer than `cols` |
| Tables.PaddedLineValues | index.ts:121-125 | the corrected row of a segment holds exactly `width` values: the segment, then zeros |
| Tables.SegmentLinePadded | index.ts:121-125 | for segments shorter than `cols`, the code's row and the corrected row coincide |
| Tables.PaddedTextNumbers | index.ts:116-126 | the corrected `segments_str` reads back as the segments, each padded with zeros to `width` values |
| Tables.SegmentsTextPadded | index.ts:116-126 | when every segment is shorter than `cols`, the code's text is the corrected text |
| Puzzles.PuzzleTables | index.ts:115-129 | one table per segment, `num_segments` is the segment count, and each table and `table_str` mention exactly the segments' cells |
| Puzzles.PuzzleRows | index.ts:121-125 | the corrected puzzle's `max_length` is `max(rows, cols)`, every segment fits, and `segments_str` is the padded text |
| Puzzles.PuzzleSegmentRows | index.ts:121-125 | the corrected `segments_str` reads back as every segment zero-padded to `max_length` |
| Puzzles.GridToPuzzleTables | index.ts:115-129 | the code as written returns the corrected puzzle with `max_length` set to `cols` and the unpadded segment rows, or the error those rows raise; problem, sizes, tables, `table_str` and `num_segments` agree |
| Puzzles.GridToPuzzleTableNumbers | index.ts:115-129 | whenever the code as written returns, `max_length` is `cols`, there is one table per segment and `num_segments` counts them, and each table and `table_str` name exactly the segments' cells and lengths |
| Puzzles.GridToPuzzleFails | index.ts:116-126 | `grid_to_puzzle` as written throws exactly when some segment is longer than `cols` |
| Puzzles.GridToPuzzleAgrees | index.ts:33-129 | on a grid no taller than wide whose segments are all shorter than `cols`, the code as written and the corrected version agree |
| Puzzles.TallGridFails | index.ts:124 | the grid of two open cells one above the other makes `grid_to_puzzle` throw `RangeError` |
| Puzzles.WideGridRow | index.ts:121-125 | the grid of two open cells side by side gets the segment row `1,2,,` |

## Left out

- The MiniZinc setup and solver call (index.ts:1-31) are left out: they are a foreign library and file I/O.
- The template (index.ts:131-186) is left out, including `new Date()` at line 135, which reads the clock. The model stops at the values the template is filled with.
- `download-dataset.js` is left out: it is only network and file I/O.
- The converter's `Bun.argv`, `Bun.file`, `Bun.write`, console output and JSON formatting (convert_wordlist.js:57-59, 81-82) are left out: they are I/O. The model takes the parsed rows and returns the list of `(word, clues)` pairs.
- WordList.EnsureMinClue: `Number()` string parsing and IEEE doubles are not modelled. The argument is an `Option<real>`, with `None` for a value `Number` turns into a non-finite number.
- Clues.NormalizeClue and Clues.Sanitize: only ASCII letters are case-mapped, because Unicode case mapping is a large table outside this logic.
- Text.Trim: whitespace is the JavaScript set restricted to the characters a `char` can hold. Strings are sequences of code points, not of UTF-16 units.
- WordList.SortByWord: `localeCompare` is modelled as plain lexicographic order on characters. That is exact on `[a-z]+` words, which are the only words recorded.
- ClueWorker.Receive: `self.postMessage` and event delivery are left out. A reply is returned instead of posted.
- ClueWorker.Receive: the handler lookup is modelled for `init`, `filter` and every other name. A `type` that names an inherited property of a plain object (`toString`, say) either calls that function or throws. In both cases there is no reply and no state change, which is what the model gives.
- ClueDedupe.Dedupe: clues are strings or missing, `clues` is a list or missing, and `word` is a string. A clue of another JSON type (a number, say), a `clues` value that is a string or another iterable (which `for…of` at web/clueWorker.js:13 walks element by element), and a word of another type are not modelled, because JavaScript's iteration protocol and dynamic typing are outside this model.
- ClueWorker.Filter: the count and the request id are integers or missing. A non-integer count (1.5 keeps the entries with at least 2 clues and is echoed as 1.5), and a string count that `>=` coerces to a number are not modelled, because JavaScript's number coercion and doubles are outside this model; the page that posts these messages is not part of this model. A `null` count or id is the missing case, as `??` treats it.
- Segments.Crossword: JavaScript numbers are unbounded naturals here. A grid would need more than 2^53 cells before that mattered.
- Segments.At: a cell outside a re-read row reads `undefined`, which `|| 0` turns into 0. The model reads 0 directly.
- Stale-response discarding, per-length word lookup, length histograms and representative-clue selection are left out: the source shown here implements none of them.

## Findings

| source | as written | input that shows it | evidently intended | confidence | as-written member | corrected member |
|---|---|---|---|---|---|---|
| index.ts:121-125 | A segment exactly `cols` long gets `"0,".repeat(0).slice(0, -1)`, which is empty. The row ends `,,`, an empty value, where the template expects a number. | grid `_ _`: segment `[1, 2]` with `cols` 2 gives `segments_str == "1,2,,\n"` | every row holds exactly `max_length` numbers, the segment then zeros | not executed | Puzzles.WideGridRow | Tables.PaddedLineValues |
| index.ts:124 | A vertical segment longer than `cols` gives `repeat` a negative count, so `grid_to_puzzle` throws `RangeError` on any grid taller than wide with a full-height column. | grid `_` above `_`: the vertical segment `[1, 2]` with `cols` 1 | rows padded to `max(rows, cols)`, the longest a segment can be, with `max_length` set to match | not executed | Puzzles.TallGridFails | Puzzles.PuzzleSegmentRows |
