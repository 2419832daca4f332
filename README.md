# Survey evaluation: extraction, aggregation and summary

This project models the core of `survey_evaluation.py`. That script reads survey mails, takes the questions and answers out of each mail's HTML, and collects them per question. It counts each question's answers and sorts them by frequency, then prepares the labels and colours for its plots. Every step of that core is modelled in Dafny on strings, integers, sequences and maps, and the properties the script relies on are proved; what stays outside is listed under "Left out".

The modules follow the steps of the script:

- `Wrappers` (`wrappers.dfy`): `Option` and `Result`.
- `PyStr` (`pystr.dfy`): the Python string operations the script uses.
  - `str.isspace`, `strip`, `lstrip`, `rstrip`.
  - `split()` without arguments.
  - `join`, and slicing with clamped bounds.
- `Numbers` (`numbers.dfy`): `check_uint` and the part of `int()` it relies on.
  - White space is skipped as `int()` skips it. The ASCII separators U+001C..U+001F count as white space for `isspace()` but not for `int()`.
  - An optional sign.
  - Digits with single underscores between them.
  - `-0` passes, with value 0.
- `Extract` (`extract.dfy`): the extraction loop over the `<td>` blocks of a mail.
  - Each child node, given as a string, becomes a line break, a question or an answer fragment.
  - The two anchored regular expressions are prefix/suffix tests. `$` also matches before one final newline, and `.` matches no newline.
  - Questions are gathered across the whole mail. Each block that yields fragments gives one answer list. Question i is paired with list i, or the mail yields nothing when the counts differ.
- `Aggregate` (`aggregate.dfy`): `make_entry` and the global `results` dict and `number_questions` set.
  - The class `Aggregator` holds them and is updated in place.
  - `State` is the same data as a value, and `Enter` is what one `make_entry` call does to it.
  - `ProcessMessage` and `Run` are the mail loop: the subject filter, the extraction and the `make_entry` calls.
  - `EnterDowngrading` is the corrected rule for `number_questions` (see Findings).
- `Summary` (`summary.dfy`): the loop that builds `sorted_results`, and the inputs of the means.
  - Answers are counted in an insertion-ordered dict, then stable-sorted by count, descending.
  - The int `5` and the string `"5"` are different answers.
  - `mean` is modelled up to its division: it raises on empty data or on a non-number, and otherwise uses the sum and the count.
- `Plot` (`plot.dfy`): `get_colors` with the script's three palettes, and `wrap_word`.
  - `wrap_word` is the hyphenating word wrap that every plot label goes through.
  - The class `LineBuilder` holds the `cur_line` and `lines` that `extend_nw` and `extend` update through `nonlocal`.
  - The hyphenation dictionary is the parameter `positions`.

The mail server, the MIME decoding and the HTML parser are not part of the model. A mail arrives as its decoded subject plus its content: the `<td>` blocks of the `mcnTextContent` wrapper, each a list of child-node strings. Content is `None` when the script's bare `except` would skip the mail.

The script computes averages only for what its comment at survey_evaluation.py:187 calls "purely numerical questions", and `mean` at :191 needs every answer of such a question to be an int. Yet `make_entry` only ever adds a question to `number_questions` (survey_evaluation.py:114-115) and never removes it. The model follows the code: `Enter`, `Aggregator.MakeEntry` and the mail loop never remove a key. The rule the averaging needs, where a question leaves the set once one of its answers is not a number, is modelled beside it as `EnterDowngrading` and `AbsorbAllDowngrading`. The Findings table explains why.

## Model

| member | source | states |
|---|---|---|
| PyStr.LStrip | survey_evaluation.py:218 | the result is a suffix of the input; everything dropped is white space; the result does not start with white space |
| PyStr.RStrip | survey_evaluation.py:256 | the result is a prefix of the input; everything dropped is white space; the result does not end with white space |
| PyStr.Strip | survey_evaluation.py:163 | `part.strip()`; its contract is stated by `StripByParts`, `StripByPadded` and `StripAllSpace` |
| PyStr.StripByParts | survey_evaluation.py:163 | stripping takes only dropped characters off the two ends, and what it keeps is empty or starts and ends with a kept character |
| PyStr.StripByEmpty | survey_evaluation.py:163 | stripping leaves nothing exactly when every character is dropped |
| PyStr.StripAllSpace | survey_evaluation.py:163 | `strip()` gives the empty fragment exactly for a part that is all white space, such as the newline between two tags |
| PyStr.StripByPadded | survey_evaluation.py:163 | stripping a text padded with dropped characters gives back exactly that text, when it starts and ends with a kept character |
| PyStr.Split | survey_evaluation.py:218 | every word `split()` returns is non-empty and holds no white space; where the words lie in the input is stated by `SplitLayout` and `SplitKeepsNonSpace` |
| PyStr.SplitLayout | survey_evaluation.py:218 | the input is white space, word, white space, ..., word, white space, with the words `split()` returns in order and a non-empty gap between any two words, so the words are exactly the maximal runs of non-space characters |
| PyStr.SplitKeepsNonSpace | survey_evaluation.py:218 | the words laid end to end are the non-space characters of the input, in order |
| PyStr.SplitSpaced | survey_evaluation.py:218 | `split()` of words each followed by a blank gives back exactly those words |
| Numbers.CheckUint | survey_evaluation.py:87-100 | `check_uint`: the value `int()` gives the text, refused when negative or when `int()` raises; which inputs it accepts is stated in both directions by `CheckUintExact` and `CheckUintNumeral`; `CheckUintSound`, `CheckUintDecimal`, `CheckUintNegative` and `CheckUintOfDecimal` state special cases |
| Numbers.CheckUintExact | survey_evaluation.py:87-100 | every input `check_uint` accepts is white space, an optional sign, a numeral with single underscores between digits, and white space; the value is the numeral's, and a `-` only stands before zero |
| Numbers.CheckUintNumeral | survey_evaluation.py:87-100 | every such input is accepted with the numeral's value, unless a `-` stands before a non-zero value |
| Numbers.CheckUintLeadingZeros | survey_evaluation.py:93-97 | `check_uint("007")` is 7 |
| Numbers.CheckUintUnderscore | survey_evaluation.py:93-97 | `check_uint(" 1_000\n")` is 1000 |
| Numbers.CheckUintRejectsExamples | survey_evaluation.py:93-99 | `"5 5"`, `"5_"` and `"1__0"` make `int()` raise, so `check_uint` refuses them |
| Numbers.CheckUintSound | survey_evaluation.py:87-100 | when `check_uint` succeeds, the input holds only white space, signs, digits and underscores, has at least one digit, and the value is the number its digits spell |
| Numbers.CheckUintDecimal | survey_evaluation.py:87-100 | `check_uint` accepts `str(n)` for every n >= 0, with or without a `+`, padded with any white space `int()` skips, and returns n |
| Numbers.CheckUintNegative | survey_evaluation.py:93-95 | `check_uint` rejects `-n` for every n > 0, padded or not, and accepts `-0` with value 0 |
| Numbers.CheckUintOfDecimal | survey_evaluation.py:93-97 | `check_uint(str(n)) == n`, the round trip through `str` |
| Numbers.ParseSignedNumeral | survey_evaluation.py:93 | `int()` reads a sign and a numeral with underscores as the numeral's digits, negated after `-` |
| Numbers.ParseSignedExact | survey_evaluation.py:93 | what `int()` accepts after the white space is exactly an optional sign and a numeral, with the numeral's value, negated after `-` |
| Numbers.ParseSignedSound | survey_evaluation.py:93 | whatever `int()` accepts after stripping is a sign and a digit string with underscores, and its value is plus or minus that digit string's value |
| Numbers.DecimalValueOfDecimal | survey_evaluation.py:93-97 | the digits of `str(n)` denote n |
| Extract.MatchBetween | survey_evaluation.py:153-160 | group 1 of `re.search` with the anchored pattern `^open(.*)close$`, giving group 1 or nothing; its contract is stated by `MatchBetweenExact` |
| Extract.Classify | survey_evaluation.py:149-163 | what one child node becomes: a line break, a question or a fragment; its contract is stated by `ClassifyLineBreak`, `ClassifyQuestion`, `ClassifyPoints` and `ClassifyPlain` |
| Extract.MatchBetweenExact | survey_evaluation.py:153-160 | an anchored pattern `^open(.*)close$` matches with group X exactly when the part is open + X + close, with or without one final newline, and X has no newline |
| Extract.ClassifyLineBreak | survey_evaluation.py:150-151 | a part is skipped as a line break exactly when it is `<br/>` |
| Extract.ClassifyQuestion | survey_evaluation.py:153-156 | a part is the question X exactly when it is `<strong>X</strong>` (final newline allowed) and X has no newline |
| Extract.ClassifyPoints | survey_evaluation.py:158-161 | a part `vergebene Punkte: N (0 min / 10 max)` gives the fragment N |
| Extract.ClassifyPlain | survey_evaluation.py:149-163 | any part that is not `<br/>`, not a `<strong>…</strong>` line and not a `vergebene Punkte: … (0 min / 10 max)` line (each with its optional final newline) gives its stripped text as a fragment |
| Extract.ExtractBlock | survey_evaluation.py:147-163 | the inner loop returns the block's questions and its `q_answers`, as the per-part rules define them |
| Extract.ExtractBlocks | survey_evaluation.py:146-165 | the loop over the blocks returns every question of the mail, and one answer list per block that has fragments |
| Extract.AnswerListsKeepFragments | survey_evaluation.py:164-165 | the answer lists, laid end to end, are every fragment of the mail in order, and none of them is empty |
| Extract.Pairs | survey_evaluation.py:167-171 | the pairs a mail yields: question i with answer list i, or none when the counts differ; its contract is stated by `PairsAllOrNothing`, `UnansweredQuestionYieldsNothing`, `SameBlockLayout` and `SeparateBlockLayout` |
| Extract.PairsAllOrNothing | survey_evaluation.py:167-171 | either the mail yields no pairs (the counts differ, or it has no question), or its pairs hold every question and every fragment in order, each with a non-empty list |
| Extract.SameBlockLayout | survey_evaluation.py:146-171 | a question and its points in the same `<td>` make one pair |
| Extract.SeparateBlockLayout | survey_evaluation.py:146-171 | a question in one `<td>` and its points in the next make the same pair |
| Extract.UnansweredQuestionYieldsNothing | survey_evaluation.py:167-169 | one question more than answer lists makes the whole mail yield nothing |
| Extract.BlocksAppend | survey_evaluation.py:148-163 | the questions and fragments of a block's parts split at any point are those of the first half followed by those of the second |
| Extract.MessagesAppend | survey_evaluation.py:146-165 | the questions and answer lists of a mail's blocks split at any point are those of the first half followed by those of the second |
| Aggregate.Entries | survey_evaluation.py:105-113 | the entries one `make_entry` call appends, one per fragment; its contract is stated by `EntriesShape`, `EntryAt` and `EntriesAllNum` |
| Aggregate.Enter | survey_evaluation.py:102-115 | one `make_entry` call on the state as a value; its contract is stated by `EnterEffect` and `EnterKeepsValid` |
| Aggregate.EntriesShape | survey_evaluation.py:105-113 | `make_entry` appends one entry per fragment; entry i is an int exactly when fragments 0..i all pass `check_uint`, and then it is that value; otherwise it is the fragment unchanged |
| Aggregate.EntryAt | survey_evaluation.py:106-113 | entries before the first failing fragment are ints; that fragment and every later one stay strings |
| Aggregate.AllNumbersChecks | survey_evaluation.py:105-115 | every fragment passes exactly when no check fails |
| Aggregate.EntriesAllNum | survey_evaluation.py:105-115 | all the appended entries are ints exactly when every fragment passes `check_uint` |
| Aggregate.EnterEffect | survey_evaluation.py:102-115 | `make_entry` appends the entries after the key's earlier answers, creates the key if new and puts it last in the insertion order (a known key keeps the order as it was), changes no other key, and adds the key to `number_questions` exactly when every fragment passed, removing nothing |
| Aggregate.EnterKeepsValid | survey_evaluation.py:102-115 | `make_entry` keeps the insertion order free of repeats and equal to the dict's keys, and keeps `number_questions` inside the keys |
| Aggregate.CoerceEntry | survey_evaluation.py:107-113 | one turn of the loop gives the entry that `Entries` assigns and the flag for the next turn |
| Aggregate.CoerceAll | survey_evaluation.py:105-113 | the loop of `make_entry` appends exactly the entries that `Entries` gives and ends with the flag up exactly when every fragment passed |
| Aggregate.Absorb | survey_evaluation.py:131-171 | one pass of the mail loop on the state as a value; its contract is stated by `RejectedMessageChangesNothing`, and by `EnterPairsKeys` and `EnterPairsGrows` for the pairs it enters |
| Aggregate.AbsorbAll | survey_evaluation.py:120-171 | the whole mail loop on the state as a value; its contract is stated by `AbsorbAllKeepsValid`, `AbsorbAllNonEmpty`, `NumericOnlyGrows` and `KeysAreEnteredQuestions` |
| Aggregate.Aggregator.constructor | survey_evaluation.py:85-86 | `results` and `number_questions` start empty |
| Aggregate.Aggregator.MakeEntry | survey_evaluation.py:102-115 | the object's new state is the value model of `make_entry` applied to its old state |
| Aggregate.Aggregator.ProcessMessage | survey_evaluation.py:131-171 | one pass of the mail loop: a mail with another subject or unreadable content changes nothing, otherwise its pairs are entered in order |
| Aggregate.Run | survey_evaluation.py:120-171 | the whole mail loop from empty state gives the value model's result for the sequence of mails |
| Aggregate.RejectedMessageChangesNothing | survey_evaluation.py:131-169 | a mail with another subject, unreadable content or mismatched counts leaves `results` and `number_questions` as they were |
| Aggregate.NumericOnlyGrows | survey_evaluation.py:103-115 | as written, the mail loop never removes a question from `results` or from `number_questions` |
| Aggregate.EnterPairsGrows | survey_evaluation.py:170-171 | entering a mail's pairs never removes a key or a numeric question |
| Aggregate.KeysAreEnteredQuestions | survey_evaluation.py:103-171 | the keys of `results` after the loop are exactly the earlier keys plus the questions of the accepted mails |
| Aggregate.EnterPairsKeys | survey_evaluation.py:170-171 | entering a mail's pairs adds exactly its questions as keys |
| Aggregate.AbsorbAllKeepsValid | survey_evaluation.py:102-171 | the mail loop keeps the state well formed |
| Aggregate.AbsorbAllNonEmpty | survey_evaluation.py:164-171 | every question in `results` has at least one answer |
| Aggregate.EnterDowngrading | survey_evaluation.py:114-115 | `make_entry` with the corrected rule for `number_questions`; its contract is stated by `EnterDowngradingKeepsExact` and `DowngradingKeepsResults` |
| Aggregate.EnterDowngradingKeepsExact | survey_evaluation.py:114-115 | with the corrected rule, `number_questions` stays exactly the questions whose answers are all ints |
| Aggregate.DowngradingKeepsResults | survey_evaluation.py:102-115 | the corrected rule changes nothing but `number_questions`: `results` and its order are as in the code |
| Aggregate.AbsorbAllDowngradingExact | survey_evaluation.py:102-171 | with the corrected rule, the mail loop keeps `number_questions` exact and every question answered |
| Summary.Distinct | survey_evaluation.py:178-183 | the dict's keys: each answer of the list exactly once |
| Summary.CountAnswers | survey_evaluation.py:178-183 | the counting loop produces `counts.items()`: the distinct answers in first-seen order, each with its number of occurrences |
| Summary.CountOne | survey_evaluation.py:180-183 | a new answer is appended with count 1, a known one gains 1, and the dict again counts the answers seen so far |
| Summary.ItemsExact | survey_evaluation.py:178-183 | the items list every answer exactly once, each with the number of times it occurs |
| Summary.DistinctFirstSeen | survey_evaluation.py:178-183 | the dict's keys are in order of first appearance |
| Summary.ItemsSum | survey_evaluation.py:178-183 | the counts add up to the number of answers |
| Summary.SortByTimes | survey_evaluation.py:184-185 | the sort is a permutation of the items |
| Summary.SortOrdered | survey_evaluation.py:184-185 | the sort is by count, descending, and keeps first-seen order among equal counts |
| Summary.Summary | survey_evaluation.py:177-186 | one question's `sorted_answers`: its counted answers sorted by count; its contract is stated by `SummaryListsEachAnswerOnce`, `SummarySum` and `SummaryOrdered` |
| Summary.SummaryListsEachAnswerOnce | survey_evaluation.py:177-186 | a question's summary lists each distinct answer exactly once, with its number of occurrences |
| Summary.SummarySum | survey_evaluation.py:177-186 | the summary's counts add up to the number of answers |
| Summary.SummaryOrdered | survey_evaluation.py:184-186 | the summary is non-increasing in count, and equal counts are in order of first appearance |
| Summary.SummariseAnswers | survey_evaluation.py:178-186 | the count loop followed by the sort gives the summary |
| Summary.SummariseResults | survey_evaluation.py:176-186 | `sorted_results` has exactly the questions of `results`, each with its summary |
| Summary.MeanInput | survey_evaluation.py:188-191 | `mean` succeeds exactly when the answers are non-empty and all ints, raises the empty-data error exactly on no answers, and otherwise divides the sum of the answers by their number |
| Summary.SumNumsAppend | survey_evaluation.py:191 | the sum of two batches of answers is the sum of their sums |
| Summary.MeanInputExample | survey_evaluation.py:191 | the answers 8, 9, 10 and 7 give the sum 34 over 4 answers |
| Summary.MeanInputs | survey_evaluation.py:188-191 | the means loop: `mean`'s outcome for every question in `number_questions`; its contract is stated by `MeanDefinedForNumeric`, `NumericThenTextBreaksMean` and `CorrectedMeansDefined` |
| Summary.EnterKeepsComplete | survey_evaluation.py:114-115 | as written, every question whose answers are all ints is in `number_questions` |
| Summary.NumericThenTextBreaksMean | survey_evaluation.py:114-191 | as written, a question answered with a number in one mail and with text in another, in either order, stays in `number_questions`, and `mean` raises on it |
| Summary.MeanDefinedForNumeric | survey_evaluation.py:188-191 | when `number_questions` is exact and no question is unanswered, every mean is defined |
| Summary.CorrectedMeansDefined | survey_evaluation.py:188-191 | with the corrected rule, after any mails every mean is defined and every all-int question gets one |
| Plot.GetColors | survey_evaluation.py:206-212 | one of the three palettes, with no colour twice; at least as many colours as answers up to ten, and the ten-colour palette for more than ten answers |
| Plot.GetColorsSmallest | survey_evaluation.py:206-212 | the palette chosen is the smallest of the three that has enough colours |
| Plot.WrapLabel | survey_evaluation.py:215-217 | a label that is not a string comes back unchanged; text is wrapped |
| Plot.RStripAll | survey_evaluation.py:256 | no output line ends in white space, and no line is lost |
| Plot.ExtendedNw | survey_evaluation.py:222-229 | `extend_nw` on the wrap as a value; its contract is stated by `HeldExtendedNw` |
| Plot.Extended | survey_evaluation.py:231-238 | `extend` on the wrap as a value; its contract is stated by `HeldExtended` and `HeldExtendedAll` |
| Plot.HeldExtendedNw | survey_evaluation.py:222-229 | `extend_nw` adds exactly the part to the text the lines hold, whether or not it starts a new line |
| Plot.HeldExtended | survey_evaluation.py:231-238 | `extend` adds exactly the part to the text the lines hold; the hyphen it may add is not part of that text |
| Plot.HeldExtendedAll | survey_evaluation.py:249-253 | a run of `extend` calls adds exactly its parts, laid end to end, to the text the lines hold |
| Plot.PiecesJoin | survey_evaluation.py:246-253 | the parts a word is cut into at valid positions make up the word again |
| Plot.PiecesAreWords | survey_evaluation.py:246-253 | each part of a cut word is non-empty and holds no white space |
| Plot.HeldWithWords | survey_evaluation.py:240-254 | the word loop adds each word in turn followed by a blank |
| Plot.WrapText | survey_evaluation.py:218-257 | what `wrap_word` returns for a string; the `\n`-join of the output lines, whose contract is stated by `WrapKeepsWords`, `WrapOutput` and `RStripAll` |
| Plot.WrapKeepsWords | survey_evaluation.py:215-257 | the lines' text, hyphens aside, is the input's words each followed by a blank, so `split()` of it gives back the input's words in order |
| Plot.CutsWithWords | survey_evaluation.py:230-253 | a line gets a hyphen only where `extend` cut a word: it ends inside the word and the next line goes on with it |
| Plot.WrapOutput | survey_evaluation.py:230-257 | output line i is line i with trailing blanks stripped, plus `-` exactly where a word was cut; such a line ends in a letter of the word and the next line starts with the rest |
| Plot.UncutWordStaysWhole | survey_evaluation.py:242-245 | a word without hyphenation positions is never cut: it ends up whole at the end of the current line, followed by a blank, and no hyphen is added |
| Plot.LineBuilder.constructor | survey_evaluation.py:219-220 | `lines` and `cur_line` start empty |
| Plot.LineBuilder.ExtendNw | survey_evaluation.py:222-229 | the object's lines become those of the value model of `extend_nw` |
| Plot.LineBuilder.Extend | survey_evaluation.py:231-238 | the object's lines become those of the value model of `extend` |
| Plot.LineBuilder.AddWord | survey_evaluation.py:241-254 | one pass of the word loop, with or without hyphenation positions, matches the value model |
| Plot.LineBuilder.ExtendInside | survey_evaluation.py:249-253 | the inner loop and the final `extend` add every part of the word after the first |
| Plot.WrapWord | survey_evaluation.py:215-257 | `wrap_word` returns the value model's wrap of the label |

## Left out

- POP3 login, listing, retrieval and `quit` (survey_evaluation.py:74-82, :118, :129, :340): network I/O. The mails are an input sequence.
- MIME parsing, `decode_header`, payload and UTF-8 decoding (survey_evaluation.py:130-135): library code. The subject arrives decoded, and a failure is content `None`.
- BeautifulSoup parsing, `find` and `find_all` (survey_evaluation.py:140-142): a foreign HTML parser. The blocks arrive as lists of child-node strings.
- The progress output, the report file, `write_qa` and `get_means_str` (survey_evaluation.py:122-125, :192-203, :294-303): output formatting and I/O.
- The plots, `PdfPages` and matplotlib (survey_evaluation.py:260-337): rendering. Only the two helpers they call are modelled. The wrap widths 10 and 19 they pass are ordinary `lineLen` arguments.
- argparse and the configuration (survey_evaluation.py:15-71): fixed setup. The palettes are the only constants modelled.
- Summary.MeanInput: the floating-point division and `round(..., 2)` are not modelled; the function gives the error `mean` raises, or the sum and count it divides.
- Numbers.CheckUint: `int()` also accepts non-ASCII decimal digits (Arabic-Indic and others), which the model rejects.
- Numbers.CheckUint: the limit of 4300 digits after which `int()` raises is not modelled.
- Plot.WrapWord: the hyphenation dictionary is the parameter `positions`. The lemmas about the wrap assume it gives strictly increasing cut points strictly inside each word.
- Summary.SummariseResults: `sorted_results` is a map, so its key order (that of `results`) is not part of its contract; `State.order` keeps that order.

## Findings

| source | as written | input that shows it | evidently intended | confidence | as-written member | corrected member |
|---|---|---|---|---|---|---|
| survey_evaluation.py:114-115 | `make_entry` adds a question to `number_questions` whenever every fragment of one call is a number, and never removes it | two mails answer the same question, one with `vergebene Punkte: 5 (0 min / 10 max)` and the other with the text `gut`, in either order: the question's answers are `[5, 'gut']` or `['gut', 5]`, it is in `number_questions`, and `mean` raises TypeError | a question is numeric only while all of its answers are ints, so that `mean` is defined for every numeric question | not executed | Summary.NumericThenTextBreaksMean | Aggregate.EnterDowngradingKeepsExact |
