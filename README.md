# Text processing service, modelled in Dafny

This project models the core of a Java text-processing service:

- `TextProcessingServiceImpl`, the service's operations on documents;
- the `TextDocument` entity they work on;
- the static helpers in `TextProcessingUtils`.

It proves properties of that model with the Dafny verifier.

## What the model covers

**The document.** `TextDocument` is a Dafny `class` (module `Documents`, `text_document.dfy`).

- `id` and `createdAt` are `const`, so no method can change them.
- `name`, `content` and `modifiedAt` are fields that the setters update under `modifies this`.
- `equals` compares ids only, and `hashCode` is `Objects.hash(id)` computed with 32-bit wrap-around.

**Java semantics** (`java_lang.dfy`, `regex.dfy`). Each piece of Java behaviour the service relies on is defined once:

- `String.trim` removes characters up to U+0020.
- ASCII `\w` and `\s`.
- `compareTo`.
- `String.repeat`, including its negative-count exception.
- `Collectors.joining` and `Stream.limit`.
- Module `Regex` does the regex work. A compiled pattern is abstracted to an anchored matcher: the end of the match that an attempt starting at a position would report. On that abstraction the module defines:
  - `Matcher.find` as the leftmost successful attempt, with the one-character bump after an empty match;
  - `Pattern.split` with limit 0;
  - `Matcher.replaceAll` with the expansion of `$` and `\` in the replacement.
- `Pattern.compile` of a caller-supplied pattern is a `Compiler` parameter. It either yields a pattern or reports a syntax error.
- The service's fixed patterns are written out as matchers, and it is proved what they match (`fixed_patterns.dfy`):
  - sentences `[^.!?]+[.!?]+`;
  - words `\b\w+\b`;
  - `\W+`, `\s+`, `\n\s*\n` and `\n`;
  - the character class `[<>"'&]`.

**The service operations.** One module per concern:

- `pattern_operations.dfy`: search, extract, replace, extract-between and validate.
- `text_analysis.dfy`: word frequency, statistics, summary and the three counts.
- `case_conversion.dfy`: `convertCase`.
- `line_operations.dfy`: `removeDuplicates` and `sortLines`. `sortLines` is an in-place insertion sort on an `array`, proved sorted and a permutation.
- `formatting.dfy`: `formatJSON` and `formatXML`.
- `batch_processing.dfy`: `processText`, `processBatch` and `processBatchAsync`'s loop with its callback.
- `text_processing_utils.dfy`: the utility class.

**How the model is written.**

- Loops become methods with invariants that are proved against a specification function:
  - the `find()` loops;
  - the JSON and XML character loops with their mutable `indent`;
  - the sentence collection;
  - the batch loop.
- Operations that change a document, such as `convertCase` and `replacePattern`, are methods whose `modifies` names that document.
- Exceptions are values of a `Result` type. The model keeps the exception's class and message.

### Where the repository's documentation and its code disagree

The model follows the code in each of these cases:

- **`processBatch` with a `null` entry.** The catch block calls `doc.getId()`, which throws again. The caller therefore receives a raw `NullPointerException`, not a `TextProcessingException` (`BatchProcessing.ProcessBatch`). For non-null documents `processText` cannot throw, so the wrapping is unreachable.
- **`removeDuplicates` is not idempotent.** It is idempotent when the content has no empty line (`LineOperations.DeduplicatedIdempotent`). It is not in general: `"a\n\na"` gives `"a\n"`, and that gives `"a"` (`LineOperations.DeduplicatedNotIdempotent`).
- **`sortLines` descending is not idempotent.** Ascending order is idempotent. Descending order is not (`LineOperations.SortedDescendingNotIdempotent`), because the empty line sorts last and is then dropped by `split`. Descending order is exactly the ascending order reversed (`LineOperations.SortDescendingIsReversed`).
- **SENTENCE mode can throw.** It passes each capitalised sentence to `replaceAll` as a replacement string. A sentence containing `$` or `\` is therefore expanded, and it can throw: `"a$."` fails with `IllegalArgumentException` (`CaseConversion.SentenceModeDollarExample`).
- **`formatXML` judges each `<` by the first `<` in the content.** Its checks use `indexOf(c)`, so every `<` is judged by whether a `>` follows the first one and whether a `/` comes right after it. The result is that a closing tag after an opening tag is indented as if it opened one (`Formatting.XmlNestedExample`). Content whose first tag is a closing tag fails (`Formatting.XmlClosingExample`).
- **`formatJSON` fails on unbalanced closers.** It fails exactly when some prefix of the trimmed content has more closers than openers (`Formatting.JsonLayoutFails`).
- **`processBatchAsync` reports progress by position.** It reports `i + 1`, the entry's position, whatever failed before (`BatchProcessing.NullInTheMiddle`).
- **A throwing `onProgress` also triggers `onError`.** When `onProgress` throws, `onError` is called for a document whose result has already been kept (`BatchProcessing.ProgressThrowReported`).
- **The paragraph step in `processText` is dead code.** Its second `replaceAll` (`\n\s*\n`) can never match, because the first one has already turned every newline into a space (`BatchProcessing.ParagraphStepIsDead`).

## Model

| member | source | states |
|---|---|---|
| JavaLang.Trim | src/main/java/com/dataflow/textprocessing/service/impl/TextProcessingServiceImpl.java:352 | `trim()` leaves no character ≤ U+0020 at either end and never lengthens the text |
| JavaLang.TrimIdempotent | src/main/java/com/dataflow/textprocessing/service/impl/TextProcessingServiceImpl.java:352 | trimming twice is trimming once |
| JavaLang.ToUpper | src/main/java/com/dataflow/textprocessing/service/impl/TextProcessingServiceImpl.java:104-106 | `toUpperCase()` maps every character and keeps the length (ASCII mapping) |
| JavaLang.ToLower | src/main/java/com/dataflow/textprocessing/service/impl/TextProcessingServiceImpl.java:107-109 | `toLowerCase()` maps every character and keeps the length (ASCII mapping) |
| JavaLang.CaseRoundTrip | src/main/java/com/dataflow/textprocessing/service/impl/TextProcessingServiceImpl.java:113-114 | lower-casing an upper-cased character equals lower-casing it, and the other way round |
| JavaLang.CompareTo | src/main/java/com/dataflow/textprocessing/service/impl/TextProcessingServiceImpl.java:243 | `compareTo` is the difference of the first chars where they differ, and the length difference when one string is a prefix of the other (both empty gives 0), so a proper prefix sorts first |
| JavaLang.CompareToZero | src/main/java/com/dataflow/textprocessing/service/impl/TextProcessingServiceImpl.java:243 | `compareTo` is 0 exactly when the strings are equal |
| JavaLang.CompareToAntisymmetric | src/main/java/com/dataflow/textprocessing/service/impl/TextProcessingServiceImpl.java:243 | swapping the operands negates `compareTo` |
| JavaLang.CompareToTransitive | src/main/java/com/dataflow/textprocessing/service/impl/TextProcessingServiceImpl.java:243 | `compareTo(a, b) <= 0` and `compareTo(b, c) <= 0` give `compareTo(a, c) <= 0` |
| JavaLang.EmptyIsLeast | src/main/java/com/dataflow/textprocessing/service/impl/TextProcessingServiceImpl.java:243 | the empty line sorts before every other line |
| JavaLang.JoinSnoc | src/main/java/com/dataflow/textprocessing/service/impl/TextProcessingServiceImpl.java:93 | `Collectors.joining(sep)` of one part more appends the separator and the part |
| JavaLang.RepeatLength | src/main/java/com/dataflow/textprocessing/service/impl/TextProcessingServiceImpl.java:264 | `"  ".repeat(n)` has length 2n |
| JavaLang.RepeatChecked | src/main/java/com/dataflow/textprocessing/service/impl/TextProcessingServiceImpl.java:266 | `repeat` throws IllegalArgumentException("count is negative: " + n) exactly when n < 0, otherwise repeats |
| JavaLang.StringHashCode | src/main/java/com/dataflow/textprocessing/model/TextDocument.java:62 | `String.hashCode` is in the `int` range and congruent modulo 2^32 to the unbounded polynomial hash `PolyHash` (sum of s[i]·31^(n-1-i)): Java's int arithmetic wrapped at every step |
| JavaLang.Wrap32 | src/main/java/com/dataflow/textprocessing/model/TextDocument.java:62 | `int` arithmetic: the result lies in the `int` range and is congruent to the exact value modulo 2^32 |
| Regex.Compile | src/main/java/com/dataflow/textprocessing/service/impl/TextProcessingServiceImpl.java:23 | `Pattern.compile` yields the pattern exactly when the engine accepts it, and PatternSyntaxException(description, pattern) otherwise |
| Regex.Find | src/main/java/com/dataflow/textprocessing/service/impl/TextProcessingServiceImpl.java:27 | `matcher.find()` from a position returns the leftmost successful attempt at or after it, and fails only when no attempt succeeds |
| Regex.FindAllFromStep | src/main/java/com/dataflow/textprocessing/service/impl/TextProcessingServiceImpl.java:27-29 | one turn of the `find()` loop: the match found, then the matches found after it |
| Regex.FindAllIsScan | src/main/java/com/dataflow/textprocessing/service/impl/TextProcessingServiceImpl.java:27-29 | the matches of the `find()` loop are a scan: each is the first successful attempt after the previous one, and nothing succeeds after the last |
| Regex.ScanIsUnique | src/main/java/com/dataflow/textprocessing/service/impl/TextProcessingServiceImpl.java:27-29 | any scan equals the loop's matches, so they are the non-overlapping leftmost matches in order |
| Regex.FindLeftmost | src/main/java/com/dataflow/textprocessing/service/impl/TextProcessingServiceImpl.java:27 | an attempt that succeeds with none before it failing is the one `find()` returns |
| Regex.FindAll | src/main/java/com/dataflow/textprocessing/service/impl/TextProcessingServiceImpl.java:27-29 | the `while (matcher.find())` loop from position 0: the matches are ordered, non-overlapping and inside the text; `FindAllIsScan` and `ScanIsUnique` state that they are exactly the leftmost scan |
| Regex.Texts | src/main/java/com/dataflow/textprocessing/service/impl/TextProcessingServiceImpl.java:28 | `matcher.group()` of each match is the content between its start and end |
| Regex.DropTrailingEmpty | src/main/java/com/dataflow/textprocessing/service/impl/TextProcessingServiceImpl.java:225 | `split` with limit 0 drops exactly the trailing empty strings |
| Regex.Split | src/main/java/com/dataflow/textprocessing/service/impl/TextProcessingServiceImpl.java:225 | `Pattern.split` with limit 0 given the separator matches: a zero-width match at 0 gives no leading empty string, no other match gives the text itself, otherwise the pieces less trailing empties; a definition, whose properties `Pieces`, `DropTrailingEmpty`, `SplitLinesSpec` and `WordsAreRuns` state |
| Regex.NonEmpty | src/main/java/com/dataflow/textprocessing/service/impl/TextProcessingServiceImpl.java:46 | `filter(word -> !word.isEmpty())` keeps exactly the non-empty strings, in order |
| Regex.NonEmptyDropTrailing | src/main/java/com/dataflow/textprocessing/service/impl/TextProcessingServiceImpl.java:45-46 | dropping trailing empty strings before filtering empties changes nothing |
| Regex.SpliceIsJoin | src/main/java/com/dataflow/textprocessing/service/impl/TextProcessingServiceImpl.java:37 | replacing every match by the same literal text is joining the pieces between matches with that text |
| Regex.ExpandPlain | src/main/java/com/dataflow/textprocessing/service/impl/TextProcessingServiceImpl.java:37 | a replacement without `$` and `\` is inserted literally |
| Regex.Expand | src/main/java/com/dataflow/textprocessing/service/impl/TextProcessingServiceImpl.java:202 | the expansion `appendReplacement` makes of a replacement for a pattern without groups: `\x` is x, `$0` the match, any other `$` reference or a trailing `\` throws; a definition, whose properties `ExpandPlain` and `SentenceReplacementDollar` state |
| Regex.ExpandAll | src/main/java/com/dataflow/textprocessing/service/impl/TextProcessingServiceImpl.java:119-123 | every match's replacement, or the first exception an expansion throws and only then |
| Regex.ReplaceAll | src/main/java/com/dataflow/textprocessing/service/impl/TextProcessingServiceImpl.java:202 | `replaceAll` with no match returns the text unchanged |
| Regex.ReplaceAllPlain | src/main/java/com/dataflow/textprocessing/service/impl/TextProcessingServiceImpl.java:353 | `replaceAll` with a literal replacement never throws |
| Regex.StringReplaceAll | src/main/java/com/dataflow/textprocessing/service/impl/TextProcessingServiceImpl.java:37 | `String.replaceAll(regex, replacement)`: `ReplaceAll` over `FindAll` with each match expanded; a definition, whose properties `ReplaceAll`, `ReplaceAllPlain` and `ReplaceOperationsAgree` state |
| FixedPatterns.SentenceEnd | src/main/java/com/dataflow/textprocessing/service/impl/TextProcessingServiceImpl.java:17 | `SENTENCE_PATTERN`, the constant `SentencePattern`: an attempt of `[^.!?]+[.!?]+` that succeeds consumes at least one character and stays in the text |
| FixedPatterns.WordEnd | src/main/java/com/dataflow/textprocessing/service/impl/TextProcessingServiceImpl.java:18 | `WORD_PATTERN`, the constant `WordPattern`: an attempt of `\b\w+\b` that succeeds consumes at least one character and stays in the text |
| FixedPatterns.ParagraphBreakEnd | src/main/java/com/dataflow/textprocessing/service/impl/TextProcessingServiceImpl.java:354 | the constant `ParagraphBreak`: an attempt of `\n\s*\n` that succeeds consumes at least one character and stays in the text |
| FixedPatterns.NoParagraphBreak | src/main/java/com/dataflow/textprocessing/service/impl/TextProcessingServiceImpl.java:354 | text without a newline holds no match of `\n\s*\n` |
| FixedPatterns.Lines | src/main/java/com/dataflow/textprocessing/service/impl/TextProcessingServiceImpl.java:225 | the pieces between the newlines: at least one, none holding a newline |
| FixedPatterns.PiecesAtNewlines | src/main/java/com/dataflow/textprocessing/service/impl/TextProcessingServiceImpl.java:225 | the pieces between the matches of `"\n"` (the constant `Newline`) are the lines of the text |
| FixedPatterns.SplitLinesSpec | src/main/java/com/dataflow/textprocessing/service/impl/TextProcessingServiceImpl.java:225 | `split("\n")` of text without a newline is the text alone; otherwise the lines without the trailing empty ones |
| FixedPatterns.SplitLines | src/main/java/com/dataflow/textprocessing/service/impl/TextProcessingServiceImpl.java:225 | `split("\n")`: `Split` at the matches of the one-character matcher `Newline`; a definition, whose properties `SplitLinesSpec` and `LineOperations.SplitLinesShape` state |
| FixedPatterns.LinesOfJoin | src/main/java/com/dataflow/textprocessing/service/impl/TextProcessingServiceImpl.java:227 | joining lines with `"\n"` and cutting at the newlines gives them back |
| FixedPatterns.NewlineInJoin | src/main/java/com/dataflow/textprocessing/service/impl/TextProcessingServiceImpl.java:227 | the joined text holds a newline exactly when two or more lines were joined |
| FixedPatterns.WordMatchesAreRuns | src/main/java/com/dataflow/textprocessing/service/impl/TextProcessingServiceImpl.java:18 | the matches of `\b\w+\b` are exactly the maximal runs of word characters |
| FixedPatterns.PiecesAtNonWords | src/main/java/com/dataflow/textprocessing/service/impl/TextProcessingServiceImpl.java:45-46 | the non-empty pieces of `split("\W+")` are exactly the maximal runs of word characters |
| FixedPatterns.WordsAreRuns | src/main/java/com/dataflow/textprocessing/service/impl/TextProcessingServiceImpl.java:147-148 | the words as split at `\W+` are the maximal runs of word characters |
| FixedPatterns.Words | src/main/java/com/dataflow/textprocessing/service/impl/TextProcessingServiceImpl.java:147-148 | `split("\W+")` with the empty strings filtered out; a definition, which `WordsAreRuns` proves equal to the maximal runs of word characters |
| FixedPatterns.WordCountsAgree | src/main/java/com/dataflow/textprocessing/service/impl/TextProcessingServiceImpl.java:361-363 | countWords counts exactly the words `split("\W+")` keeps, and their texts are the same |
| FixedPatterns.RunsOfLower | src/main/java/com/dataflow/textprocessing/service/impl/TextProcessingServiceImpl.java:45 | lower-casing before splitting gives the lower-cased words |
| FixedPatterns.SpliceRuns | src/main/java/com/dataflow/textprocessing/service/impl/TextProcessingServiceImpl.java:353 | `replaceAll("\s+", " ")`, over the constant `SpaceRun`, turns each maximal whitespace run into one space |
| FixedPatterns.CollapseShape | src/main/java/com/dataflow/textprocessing/service/impl/TextProcessingServiceImpl.java:353 | after collapsing, the only whitespace is single spaces, none doubled, and text edges keep their characters |
| FixedPatterns.CollapseIdentity | src/main/java/com/dataflow/textprocessing/service/impl/TextProcessingServiceImpl.java:353 | text that has only single spaces is left alone |
| FixedPatterns.CollapseSpaces | src/main/java/com/dataflow/textprocessing/service/impl/TextProcessingServiceImpl.java:353 | the collapse agrees with `replaceAll("\s+", " ")` |
| FixedPatterns.SpliceChars | src/main/java/com/dataflow/textprocessing/util/TextProcessingUtils.java:33 | `replaceAll("[<>\"'&]", "")`, over the constant `TextProcessingUtils.Markup`, deletes exactly the characters of the class |
| FixedPatterns.RemoveAppend | src/main/java/com/dataflow/textprocessing/util/TextProcessingUtils.java:33 | deleting a character class distributes over concatenation |
| TextAnalysis.FrequenciesCount | src/main/java/com/dataflow/textprocessing/service/impl/TextProcessingServiceImpl.java:47-50 | `groupingBy(…, counting())`: the keys are the elements, each counted as often as it occurs |
| TextAnalysis.FrequenciesTotal | src/main/java/com/dataflow/textprocessing/service/impl/TextProcessingServiceImpl.java:47-50 | the counts of `groupingBy(…, counting())` sum to the number of elements |
| TextAnalysis.Frequencies | src/main/java/com/dataflow/textprocessing/service/impl/TextProcessingServiceImpl.java:147-152 | `groupingBy(..., counting())` folded over the stream in order; a definition, whose properties `FrequenciesCount` and `FrequenciesTotal` state |
| TextAnalysis.WordFrequency | src/main/java/com/dataflow/textprocessing/service/impl/TextProcessingServiceImpl.java:42-51 | the keys of analyzeWordFrequency are the lower-cased words, each a non-empty lower-case run of word characters counted at least once |
| TextAnalysis.LowerWords | src/main/java/com/dataflow/textprocessing/service/impl/TextProcessingServiceImpl.java:45 | the words of the lower-cased content are the lower-cased words |
| TextAnalysis.CountWords | src/main/java/com/dataflow/textprocessing/service/impl/TextProcessingServiceImpl.java:361-363 | countWords is the number of words |
| TextAnalysis.NonBlank | src/main/java/com/dataflow/textprocessing/service/impl/TextProcessingServiceImpl.java:371 | `filter(para -> !para.trim().isEmpty())` keeps exactly the non-blank paragraphs |
| TextAnalysis.SingleLineParagraphs | src/main/java/com/dataflow/textprocessing/service/impl/TextProcessingServiceImpl.java:369-373 | text without a newline is one paragraph, counted only when it is not blank |
| TextAnalysis.CountSentences | src/main/java/com/dataflow/textprocessing/service/impl/TextProcessingServiceImpl.java:365-367 | countSentences: the number of matches of `SentencePattern`, the matcher `SentenceEnd` runs for `[^.!?]+[.!?]+`; a definition, whose sentences `Sentences` and `SentenceEndsWithTerminator` describe |
| TextAnalysis.Paragraphs | src/main/java/com/dataflow/textprocessing/service/impl/TextProcessingServiceImpl.java:370 | `split("\n\s*\n")`: `Split` at the matches of `ParagraphBreak`, the matcher `ParagraphBreakEnd` runs; a definition, whose newline-free case `SingleLineParagraphs` states |
| TextAnalysis.CountParagraphs | src/main/java/com/dataflow/textprocessing/service/impl/TextProcessingServiceImpl.java:369-373 | countParagraphs: the number of paragraphs that are not blank after trimming; a definition, whose filter `NonBlank` and newline-free case `SingleLineParagraphs` state |
| TextAnalysis.Statistics | src/main/java/com/dataflow/textprocessing/service/impl/TextProcessingServiceImpl.java:133-165 | getTextStatistics: the totals; each word length ≥ 1, counted as often as a word of that length occurs; each character of the lower-cased content counted as often as it occurs there |
| TextAnalysis.StatisticsTotals | src/main/java/com/dataflow/textprocessing/service/impl/TextProcessingServiceImpl.java:141-162 | word-length counts and word-frequency counts sum to totalWords; character counts sum to totalCharacters |
| TextAnalysis.SentenceEndsWithTerminator | src/main/java/com/dataflow/textprocessing/service/impl/TextProcessingServiceImpl.java:87 | a trimmed sentence match ends with `.`, `!` or `?` |
| TextAnalysis.Sentences | src/main/java/com/dataflow/textprocessing/service/impl/TextProcessingServiceImpl.java:84-88 | there are countSentences trimmed sentences, each ending with a terminator |
| TextAnalysis.Summary | src/main/java/com/dataflow/textprocessing/service/impl/TextProcessingServiceImpl.java:91-93 | `limit` throws IllegalArgumentException(n) exactly when n < 0 |
| TextAnalysis.CollectSentences | src/main/java/com/dataflow/textprocessing/service/impl/TextProcessingServiceImpl.java:83-88 | the `find()` loop collects the trimmed sentence matches in order |
| TextAnalysis.GenerateSummary | src/main/java/com/dataflow/textprocessing/service/impl/TextProcessingServiceImpl.java:77-94 | generateSummary returns the summary of the content |
| TextAnalysis.SummaryBounds | src/main/java/com/dataflow/textprocessing/service/impl/TextProcessingServiceImpl.java:91-93 | n = 0 gives ""; n ≥ countSentences gives all sentences joined by spaces |
| TextAnalysis.SummaryGrows | src/main/java/com/dataflow/textprocessing/service/impl/TextProcessingServiceImpl.java:91-93 | allowing one more sentence appends a space and the next sentence |
| CaseConversion.ConvertCase | src/main/java/com/dataflow/textprocessing/service/impl/TextProcessingServiceImpl.java:96-131 | convertCase overwrites the document's content with the converted text and returns the same document; a failing SENTENCE expansion leaves it as it was |
| CaseConversion.TitleWord | src/main/java/com/dataflow/textprocessing/service/impl/TextProcessingServiceImpl.java:112-114 | a title-cased token keeps its length, starts without a lower-case letter, has no upper-case letter after, and differs from the input only in case |
| CaseConversion.TitleAll | src/main/java/com/dataflow/textprocessing/service/impl/TextProcessingServiceImpl.java:111-114 | each token is title-cased, in order |
| CaseConversion.TokensJoined | src/main/java/com/dataflow/textprocessing/service/impl/TextProcessingServiceImpl.java:111-115 | the tokens joined by spaces are the whitespace-collapsed content without a final space; no token holds whitespace |
| CaseConversion.JoinDropTrailing | src/main/java/com/dataflow/textprocessing/service/impl/TextProcessingServiceImpl.java:111 | dropping trailing empty tokens drops at most the final space of the joined text |
| CaseConversion.TitleIsCollapsedText | src/main/java/com/dataflow/textprocessing/service/impl/TextProcessingServiceImpl.java:110-115 | TITLE differs from the collapsed content only in case |
| CaseConversion.TitleSpacing | src/main/java/com/dataflow/textprocessing/service/impl/TextProcessingServiceImpl.java:110-115 | TITLE output has single spaces only, never doubled, and none at the end |
| CaseConversion.UpperLowerCaseOnly | src/main/java/com/dataflow/textprocessing/service/impl/TextProcessingServiceImpl.java:104-109 | UPPER and LOWER change case only; LOWER is idempotent |
| CaseConversion.SentenceCase | src/main/java/com/dataflow/textprocessing/service/impl/TextProcessingServiceImpl.java:120-122 | a sentence's new text: its first character upper-cased, every other character lower-cased |
| CaseConversion.SentenceCaseAll | src/main/java/com/dataflow/textprocessing/service/impl/TextProcessingServiceImpl.java:118-123 | every sentence match rewritten by SentenceCase, in order |
| CaseConversion.SpliceCaseOnly | src/main/java/com/dataflow/textprocessing/service/impl/TextProcessingServiceImpl.java:118-123 | replacing matches by case-variants of themselves changes the content only in case |
| CaseConversion.SentenceCaseOnly | src/main/java/com/dataflow/textprocessing/service/impl/TextProcessingServiceImpl.java:117-123 | for content without `$` and `\`, SENTENCE succeeds: the text between sentence matches is kept and each match is rewritten by SentenceCase, so the length is kept and only case changes |
| CaseConversion.SentenceModeDollarExample | src/main/java/com/dataflow/textprocessing/service/impl/TextProcessingServiceImpl.java:118-123 | SENTENCE on "a$." throws IllegalArgumentException("Illegal group reference"): the new text is read as a replacement string |
| CaseConversion.Tokens | src/main/java/com/dataflow/textprocessing/service/impl/TextProcessingServiceImpl.java:111 | `split("\s+")`: `Split` at the matches of `SpaceRun`; a definition, whose join `TokensJoined` states |
| CaseConversion.SentenceMode | src/main/java/com/dataflow/textprocessing/service/impl/TextProcessingServiceImpl.java:118-123 | `SENTENCE_PATTERN.matcher(content).replaceAll(match -> ...)`: each sentence match replaced by the expansion of its sentence-cased text; a definition, whose result `SentenceCaseOnly` states and whose `$` failure `SentenceModeDollarExample` shows |
| CaseConversion.Converted | src/main/java/com/dataflow/textprocessing/service/impl/TextProcessingServiceImpl.java:103-127 | the content each mode computes: UPPER, LOWER, TITLE and SENTENCE; a definition, whose properties `UpperLowerCaseOnly`, `TitleIsCollapsedText`, `TitleSpacing` and `SentenceCaseOnly` state, and which `ConvertCase` stores |
| PatternOperations.MatchTexts | src/main/java/com/dataflow/textprocessing/service/impl/TextProcessingServiceImpl.java:23-31 | the matched texts fail exactly when the pattern does not compile, with that PatternSyntaxException |
| PatternOperations.CollectMatches | src/main/java/com/dataflow/textprocessing/service/impl/TextProcessingServiceImpl.java:27-29 | the `find()` loop collects the text of every match in scan order |
| PatternOperations.SearchPattern | src/main/java/com/dataflow/textprocessing/service/impl/TextProcessingServiceImpl.java:20-32 | searchPattern returns the matched texts, or lets the PatternSyntaxException escape |
| PatternOperations.ExtractMatches | src/main/java/com/dataflow/textprocessing/service/impl/TextProcessingServiceImpl.java:179-196 | extractMatches returns the matched texts, or the failure wrapped as "Failed to extract matches" |
| PatternOperations.SearchAndExtractAgree | src/main/java/com/dataflow/textprocessing/service/impl/TextProcessingServiceImpl.java:179-196 | for a valid pattern both return the same list; for an invalid one search throws the PatternSyntaxException and extract wraps exactly that |
| PatternOperations.Between | src/main/java/com/dataflow/textprocessing/service/impl/TextProcessingServiceImpl.java:64-72 | at most one entry per start match |
| PatternOperations.BetweenTexts | src/main/java/com/dataflow/textprocessing/service/impl/TextProcessingServiceImpl.java:58-59 | the start pattern's compile error comes first, then the end pattern's |
| PatternOperations.BetweenCons | src/main/java/com/dataflow/textprocessing/service/impl/TextProcessingServiceImpl.java:64-72 | each start match contributes its entry ahead of those of the later matches |
| PatternOperations.CollectBetween | src/main/java/com/dataflow/textprocessing/service/impl/TextProcessingServiceImpl.java:63-72 | the loop over start matches collects the entries in order |
| PatternOperations.ExtractBetweenPatterns | src/main/java/com/dataflow/textprocessing/service/impl/TextProcessingServiceImpl.java:53-75 | extractBetweenPatterns returns the entries, or the first compile error |
| PatternOperations.BetweenEntries | src/main/java/com/dataflow/textprocessing/service/impl/TextProcessingServiceImpl.java:64-71 | a text is extracted exactly when some start match contributes it: the content from its end to the first end match after it |
| PatternOperations.BetweenTagsExample | src/main/java/com/dataflow/textprocessing/service/impl/TextProcessingServiceImpl.java:64-71 | with `[` and `]`, "[A][B]" gives ["A", "B"] |
| PatternOperations.BetweenOverlapExample | src/main/java/com/dataflow/textprocessing/service/impl/TextProcessingServiceImpl.java:64-71 | entries may overlap: "[A[B]" gives ["A[B", "B"] |
| PatternOperations.ValidatePattern | src/main/java/com/dataflow/textprocessing/service/impl/TextProcessingServiceImpl.java:167-177 | false for a pattern that does not compile, otherwise whether the whole content matches |
| PatternOperations.IsValidRegexPattern | src/main/java/com/dataflow/textprocessing/service/impl/TextProcessingServiceImpl.java:211-220 | true exactly when the pattern compiles |
| PatternOperations.Replaced | src/main/java/com/dataflow/textprocessing/service/impl/TextProcessingServiceImpl.java:37 | a pattern that does not compile throws its PatternSyntaxException |
| PatternOperations.ReplacedPlain | src/main/java/com/dataflow/textprocessing/service/impl/TextProcessingServiceImpl.java:37 | a literal replacement joins the pieces between matches with it; with no match the content is unchanged |
| PatternOperations.ReplacePattern | src/main/java/com/dataflow/textprocessing/service/impl/TextProcessingServiceImpl.java:34-40 | replacePattern overwrites the document's content with the replaced text and returns the same document; on failure nothing changes |
| PatternOperations.ReplaceAllMatches | src/main/java/com/dataflow/textprocessing/service/impl/TextProcessingServiceImpl.java:198-209 | every failure is a TextProcessingException "Failed to replace matches" |
| PatternOperations.ReplaceOperationsAgree | src/main/java/com/dataflow/textprocessing/service/impl/TextProcessingServiceImpl.java:198-209 | replaceAllMatches computes the same text as replacePattern, and on failure wraps exactly its exception |
| LineOperations.SplitLinesShape | src/main/java/com/dataflow/textprocessing/service/impl/TextProcessingServiceImpl.java:225 | the lines hold no newline, and the last is non-empty unless the text was empty |
| LineOperations.SplitOfJoin | src/main/java/com/dataflow/textprocessing/service/impl/TextProcessingServiceImpl.java:225-227 | lines joined with `"\n"` split back into themselves when the last is non-empty |
| LineOperations.SplitOfJoinTrailing | src/main/java/com/dataflow/textprocessing/service/impl/TextProcessingServiceImpl.java:225-227 | a joined text ending in a newline splits back without the empty line |
| LineOperations.DedupSpec | src/main/java/com/dataflow/textprocessing/service/impl/TextProcessingServiceImpl.java:226 | `LinkedHashSet` keeps pairwise distinct lines, exactly those of the input, in first-occurrence order |
| LineOperations.DedupDistinct | src/main/java/com/dataflow/textprocessing/service/impl/TextProcessingServiceImpl.java:226 | distinct lines are kept as they are |
| LineOperations.Dedup | src/main/java/com/dataflow/textprocessing/service/impl/TextProcessingServiceImpl.java:226 | `new LinkedHashSet<>(lines)` read back: each line added in order, kept only the first time; a definition, whose properties `DedupSpec` and `DedupDistinct` state |
| LineOperations.Deduplicated | src/main/java/com/dataflow/textprocessing/service/impl/TextProcessingServiceImpl.java:225-227 | the content of the deduplicated document: the lines of `split("\n")`, deduplicated and joined with "\n"; a definition, whose properties `DeduplicatedLines`, `DeduplicatedIdempotent` and `DeduplicatedNotIdempotent` state |
| LineOperations.RemoveDuplicates | src/main/java/com/dataflow/textprocessing/service/impl/TextProcessingServiceImpl.java:222-236 | removeDuplicates makes a new document "name (deduplicated)" with the deduplicated content; the input is untouched |
| LineOperations.DeduplicatedLines | src/main/java/com/dataflow/textprocessing/service/impl/TextProcessingServiceImpl.java:225-227 | without empty lines, the output lines are distinct, are exactly the input lines, in first-occurrence order |
| LineOperations.DeduplicatedIdempotent | src/main/java/com/dataflow/textprocessing/service/impl/TextProcessingServiceImpl.java:225-227 | without empty lines, deduplicating twice is deduplicating once |
| LineOperations.DeduplicatedNotIdempotent | src/main/java/com/dataflow/textprocessing/service/impl/TextProcessingServiceImpl.java:225-227 | with an empty line it is not: "a\n\na" gives "a\n", which gives "a" |
| LineOperations.BeforeTotal | src/main/java/com/dataflow/textprocessing/service/impl/TextProcessingServiceImpl.java:243 | the comparator orders any two lines one way or the other |
| LineOperations.BeforeAntisymmetric | src/main/java/com/dataflow/textprocessing/service/impl/TextProcessingServiceImpl.java:243 | lines the comparator orders both ways are equal |
| LineOperations.BeforeTransitive | src/main/java/com/dataflow/textprocessing/service/impl/TextProcessingServiceImpl.java:243 | the comparator's order is transitive |
| LineOperations.InsertSorted | src/main/java/com/dataflow/textprocessing/service/impl/TextProcessingServiceImpl.java:243 | inserting into a sorted list keeps it sorted and adds exactly the one line |
| LineOperations.SortSpec | src/main/java/com/dataflow/textprocessing/service/impl/TextProcessingServiceImpl.java:243 | the reference ordering is sorted by the comparator and a permutation |
| LineOperations.Sort | src/main/java/com/dataflow/textprocessing/service/impl/TextProcessingServiceImpl.java:243 | the reference ordering: insertion sort by the comparator; a definition, whose properties `SortSpec`, `SortedUnique` and `SortDescendingIsReversed` state |
| LineOperations.SortedUnique | src/main/java/com/dataflow/textprocessing/service/impl/TextProcessingServiceImpl.java:243 | two sorted permutations of the same lines are equal, so any sort gives the reference's order |
| LineOperations.SortInPlace | src/main/java/com/dataflow/textprocessing/service/impl/TextProcessingServiceImpl.java:243 | `Collections.sort` on the array leaves it sorted and a permutation of what it held |
| LineOperations.InsertAt | src/main/java/com/dataflow/textprocessing/service/impl/TextProcessingServiceImpl.java:243 | moving one line down into a sorted prefix extends the sorted prefix by one and permutes the array |
| LineOperations.SortLines | src/main/java/com/dataflow/textprocessing/service/impl/TextProcessingServiceImpl.java:238-252 | sortLines makes a new document "name (sorted)" with the sorted content; the input is untouched |
| LineOperations.SortedContent | src/main/java/com/dataflow/textprocessing/service/impl/TextProcessingServiceImpl.java:241-245 | the content of the sorted document: the lines of `split("\n")` sorted and joined with "\n"; a definition, whose properties `SortedAscendingIdempotent` and `SortedDescendingNotIdempotent` state |
| LineOperations.SortDescendingIsReversed | src/main/java/com/dataflow/textprocessing/service/impl/TextProcessingServiceImpl.java:243 | descending order is the ascending order reversed, ties or not |
| LineOperations.SortedAscendingIdempotent | src/main/java/com/dataflow/textprocessing/service/impl/TextProcessingServiceImpl.java:241-245 | sorting ascending twice is sorting once |
| LineOperations.SortedDescendingNotIdempotent | src/main/java/com/dataflow/textprocessing/service/impl/TextProcessingServiceImpl.java:241-245 | sorting descending is not idempotent: "a\n\nb" gives "b\na\n", which gives "b\na" |
| Formatting.JsonLayout | src/main/java/com/dataflow/textprocessing/service/impl/TextProcessingServiceImpl.java:262-272 | the JSON layout succeeds only when the final depth is non-negative; it fails only with "count is negative: -1" |
| Formatting.JsonLayoutSnoc | src/main/java/com/dataflow/textprocessing/service/impl/TextProcessingServiceImpl.java:262-272 | each character appends its piece at the current depth, a closer at depth 0 fails, and a failure stays |
| Formatting.LayoutJson | src/main/java/com/dataflow/textprocessing/service/impl/TextProcessingServiceImpl.java:259-272 | the character loop with its mutable `indent` produces the JSON layout |
| Formatting.JsonChar | src/main/java/com/dataflow/textprocessing/service/impl/TextProcessingServiceImpl.java:263-271 | one iteration: the piece for the character at `indent`, or the exception of `repeat(-1)` for a closer at 0 |
| Formatting.FormatJson | src/main/java/com/dataflow/textprocessing/service/impl/TextProcessingServiceImpl.java:254-281 | formatJSON makes "name (formatted JSON)" with the layout of the trimmed content, or wraps the failure as "Failed to format JSON" |
| Formatting.JsonErrorPersists | src/main/java/com/dataflow/textprocessing/service/impl/TextProcessingServiceImpl.java:262-272 | once a prefix fails, the whole layout fails |
| Formatting.JsonLayoutFails | src/main/java/com/dataflow/textprocessing/service/impl/TextProcessingServiceImpl.java:262-272 | the layout succeeds exactly when no prefix has more closers than openers |
| Formatting.JsonPieceOnlyAddsSpace | src/main/java/com/dataflow/textprocessing/service/impl/TextProcessingServiceImpl.java:263-271 | a character's piece is the character plus whitespace |
| Formatting.JsonPiece | src/main/java/com/dataflow/textprocessing/service/impl/TextProcessingServiceImpl.java:263-271 | what the loop appends for one character at depth d: an opener and a deeper break, a shallower break and a closer, a comma and a break, or the character; a definition, whose property `JsonPieceOnlyAddsSpace` states |
| Formatting.JsonLayoutOnlyAddsSpace | src/main/java/com/dataflow/textprocessing/service/impl/TextProcessingServiceImpl.java:262-272 | the layout differs from the content only by whitespace |
| Formatting.JsonLayoutPlain | src/main/java/com/dataflow/textprocessing/service/impl/TextProcessingServiceImpl.java:269-270 | content without brackets, braces and commas is copied |
| Formatting.JsonArrayExample | src/main/java/com/dataflow/textprocessing/service/impl/TextProcessingServiceImpl.java:262-272 | "[1]" lays out as "[\n  1\n]" |
| Formatting.JsonUnbalancedExample | src/main/java/com/dataflow/textprocessing/service/impl/TextProcessingServiceImpl.java:265-266 | "a}" fails |
| Formatting.IndexOfFrom | src/main/java/com/dataflow/textprocessing/service/impl/TextProcessingServiceImpl.java:292 | `indexOf(c, from)`: -1 exactly when c does not occur from `from` on, otherwise its first position there |
| Formatting.XmlDecision | src/main/java/com/dataflow/textprocessing/service/impl/TextProcessingServiceImpl.java:292-293 | the Java tests on `indexOf` decide every `<` by the first `<`: whether a `>` follows it and whether `/` comes right after it |
| Formatting.IndentTagsSnoc | src/main/java/com/dataflow/textprocessing/service/impl/TextProcessingServiceImpl.java:291-301 | each `<` gets a break indented by the number of `<` before it; other characters are copied |
| Formatting.IndentTagsStep | src/main/java/com/dataflow/textprocessing/service/impl/TextProcessingServiceImpl.java:291-301 | one more character of the content extends the indented text by its piece |
| Formatting.TagPiece | src/main/java/com/dataflow/textprocessing/service/impl/TextProcessingServiceImpl.java:292-300 | what the loop appends for one character after n tags: a `<` gets a break indented n levels; a definition, used by `IndentTagsSnoc` |
| Formatting.IndentTags | src/main/java/com/dataflow/textprocessing/service/impl/TextProcessingServiceImpl.java:291-301 | every `<` starts a new line indented by the number of `<` before it; a definition, whose properties `IndentTagsSnoc`, `IndentTagsOnlyAddsSpace` and `IndentTagsLength` state |
| Formatting.XmlLayout | src/main/java/com/dataflow/textprocessing/service/impl/TextProcessingServiceImpl.java:287-301 | the layout of the trimmed content: unchanged when untagged, `repeat(-1)`'s error when the first tag closes, `IndentTags` otherwise; a definition, whose properties `XmlDecision`, `LayoutXml`, `XmlLayoutOnlyAddsSpace` and `XmlUntagged` state |
| Formatting.LayoutXml | src/main/java/com/dataflow/textprocessing/service/impl/TextProcessingServiceImpl.java:288-301 | the character loop with its mutable `indent` produces the XML layout |
| Formatting.XmlChar | src/main/java/com/dataflow/textprocessing/service/impl/TextProcessingServiceImpl.java:292-300 | one iteration: the character, or a break and the tag's indent change, or the exception of `repeat(-1)` |
| Formatting.FormatXml | src/main/java/com/dataflow/textprocessing/service/impl/TextProcessingServiceImpl.java:283-310 | formatXML makes "name (formatted XML)" with the layout of the trimmed content, or wraps the failure as "Failed to format XML" |
| Formatting.IndentTagsOnlyAddsSpace | src/main/java/com/dataflow/textprocessing/service/impl/TextProcessingServiceImpl.java:291-301 | the indented text differs from the content only by whitespace |
| Formatting.IndentTagsLength | src/main/java/com/dataflow/textprocessing/service/impl/TextProcessingServiceImpl.java:294-297 | the k-th `<` adds a newline and 2k spaces: n tags add n² characters |
| Formatting.XmlLayoutOnlyAddsSpace | src/main/java/com/dataflow/textprocessing/service/impl/TextProcessingServiceImpl.java:291-301 | a successful XML layout differs from the content only by whitespace |
| Formatting.XmlUntagged | src/main/java/com/dataflow/textprocessing/service/impl/TextProcessingServiceImpl.java:292 | when no `>` follows the first `<`, the content is returned unchanged |
| Formatting.XmlNestedExample | src/main/java/com/dataflow/textprocessing/service/impl/TextProcessingServiceImpl.java:291-301 | "<a></a>" lays out as "\n<a>\n  </a>": the first `<` opens a tag, so the closing tag is indented like an opening one |
| Formatting.XmlClosingExample | src/main/java/com/dataflow/textprocessing/service/impl/TextProcessingServiceImpl.java:293-294 | content whose first tag is a closing tag fails with "count is negative: -1" |
| BatchProcessing.SpaceCollapsedIsCollapse | src/main/java/com/dataflow/textprocessing/service/impl/TextProcessingServiceImpl.java:353 | the whitespace collapse used by processText agrees with the general one |
| BatchProcessing.ProcessedIsCollapsed | src/main/java/com/dataflow/textprocessing/service/impl/TextProcessingServiceImpl.java:352-354 | the content as written (trim, `\s+` to space, `\n\s*\n` to blank line) is the trimmed, collapsed content |
| BatchProcessing.ParagraphStepIsDead | src/main/java/com/dataflow/textprocessing/service/impl/TextProcessingServiceImpl.java:354 | after the collapse there is no newline, so the second `replaceAll` changes nothing |
| BatchProcessing.ProcessedShape | src/main/java/com/dataflow/textprocessing/service/impl/TextProcessingServiceImpl.java:352-354 | processed content has only single spaces, never doubled, and nothing trimmable at either end |
| BatchProcessing.ProcessTextIdempotent | src/main/java/com/dataflow/textprocessing/service/impl/TextProcessingServiceImpl.java:352-354 | processing twice is processing once |
| BatchProcessing.CollapseFixpoint | src/main/java/com/dataflow/textprocessing/service/impl/TextProcessingServiceImpl.java:353 | text with only single spaces is left alone by the collapse |
| BatchProcessing.ProcessedAsWritten | src/main/java/com/dataflow/textprocessing/service/impl/TextProcessingServiceImpl.java:352-354 | the content as processText computes it: trim, `replaceAll("\s+", " ")` over `SpaceRun`, then `replaceAll("\n\s*\n", "\n\n")` over `ParagraphBreak`; a definition, which `ProcessedIsCollapsed` proves equal to `ProcessedContent` |
| BatchProcessing.ProcessedContent | src/main/java/com/dataflow/textprocessing/service/impl/TextProcessingServiceImpl.java:352-354 | the trimmed content with every whitespace run one space; a definition, whose properties `ProcessedShape` and `ProcessTextIdempotent` state |
| BatchProcessing.ProcessText | src/main/java/com/dataflow/textprocessing/service/impl/TextProcessingServiceImpl.java:349-359 | processText makes "name (processed)" with the processed content; a null document throws NullPointerException |
| BatchProcessing.ProcessEntry | src/main/java/com/dataflow/textprocessing/service/impl/TextProcessingServiceImpl.java:316-323 | the mapped function: the processed document; for a null entry the NullPointerException of the logging call escapes |
| BatchProcessing.ProcessBatch | src/main/java/com/dataflow/textprocessing/service/impl/TextProcessingServiceImpl.java:312-325 | one processed document per input, in order, exactly when no entry is null; otherwise the NullPointerException |
| BatchProcessing.ItemEvents | src/main/java/com/dataflow/textprocessing/service/impl/TextProcessingServiceImpl.java:334-342 | each entry causes one or two callback invocations; the run stops when onError throws or when onProgress throws something that is not an Exception |
| BatchProcessing.EventsUpTo | src/main/java/com/dataflow/textprocessing/service/impl/TextProcessingServiceImpl.java:333-343 | at most two invocations per entry |
| BatchProcessing.Present | src/main/java/com/dataflow/textprocessing/service/impl/TextProcessingServiceImpl.java:336-337 | at most one kept result per entry: the non-null entries, in order |
| BatchProcessing.RunBatch | src/main/java/com/dataflow/textprocessing/service/impl/TextProcessingServiceImpl.java:328-347 | the callback invocations in order; unless the run stops (onError throws, or onProgress throws a non-Exception), onComplete comes last, once, with one processed document per non-null entry in input order, each carrying the creation data of its entry |
| BatchProcessing.PresentOrigins | src/main/java/com/dataflow/textprocessing/service/impl/TextProcessingServiceImpl.java:336-337 | the creation data of the non-null entries, one per element of `Present` |
| BatchProcessing.RunItem | src/main/java/com/dataflow/textprocessing/service/impl/TextProcessingServiceImpl.java:334-342 | one iteration: its invocations, and the processed document for a non-null entry, created from that entry's creation data |
| BatchProcessing.EventsStop | src/main/java/com/dataflow/textprocessing/service/impl/TextProcessingServiceImpl.java:341 | once onError has thrown, no later invocation is made |
| BatchProcessing.QuietTrace | src/main/java/com/dataflow/textprocessing/service/impl/TextProcessingServiceImpl.java:333-343 | with callbacks that never throw, entry i gives onProgress(i + 1, total) or onError(null, NullPointerException) |
| BatchProcessing.ProgressThrowReported | src/main/java/com/dataflow/textprocessing/service/impl/TextProcessingServiceImpl.java:336-341 | when onProgress throws an Exception, onError is called for the same document, whose result is kept |
| BatchProcessing.ProgressEscapeEnds | src/main/java/com/dataflow/textprocessing/service/impl/TextProcessingServiceImpl.java:338-345 | when onProgress throws a Throwable that is not an Exception, `catch (Exception e)` does not catch it: the trace ends with that progress report, and neither onError nor onComplete follows |
| BatchProcessing.NullInTheMiddle | src/main/java/com/dataflow/textprocessing/service/impl/TextProcessingServiceImpl.java:338 | progress reports the index: [d1, null, d3] gives onProgress(1, 3), onError, onProgress(3, 3) |
| Documents.TextDocument.constructor | src/main/java/com/dataflow/textprocessing/model/TextDocument.java:13-19 | stores the name and content; the id is the UUID, createdAt the first clock reading and modifiedAt the second, which may differ |
| Documents.TextDocument.SetName | src/main/java/com/dataflow/textprocessing/model/TextDocument.java:30-33 | changes the name and stamps the modification time; the content stays (id and creation time are constants) |
| Documents.TextDocument.SetContent | src/main/java/com/dataflow/textprocessing/model/TextDocument.java:39-42 | changes the content and stamps the modification time; the name stays (id and creation time are constants) |
| Documents.TextDocument.HashCode | src/main/java/com/dataflow/textprocessing/model/TextDocument.java:60-63 | `Objects.hash(id)` is always an `int` in range |
| Documents.EqualsIffSameId | src/main/java/com/dataflow/textprocessing/model/TextDocument.java:52-58 | two documents are equal exactly when their ids are |
| Documents.EqualsIsEquivalence | src/main/java/com/dataflow/textprocessing/model/TextDocument.java:52-58 | equality is reflexive, symmetric and transitive; null and other classes are never equal |
| Documents.TextDocument.Equals | src/main/java/com/dataflow/textprocessing/model/TextDocument.java:52-58 | `equals(o)`: the same object, or another document with the same id; null and other classes are never equal; a definition, whose properties `EqualsIffSameId` and `EqualsIsEquivalence` state |
| Documents.EqualDocumentsHashAlike | src/main/java/com/dataflow/textprocessing/model/TextDocument.java:60-63 | equal documents have equal hash codes |
| TextProcessingUtils.IsValidRegexPattern | src/main/java/com/dataflow/textprocessing/util/TextProcessingUtils.java:15-22 | never throws: true exactly when the pattern is not null and compiles |
| TextProcessingUtils.SanitizeInput | src/main/java/com/dataflow/textprocessing/util/TextProcessingUtils.java:29-34 | null gives ""; otherwise the characters `< > " ' &` are deleted |
| TextProcessingUtils.RemoveCounts | src/main/java/com/dataflow/textprocessing/util/TextProcessingUtils.java:33 | deleting a class removes all of its characters and keeps every other occurrence |
| TextProcessingUtils.RemoveIsSubsequence | src/main/java/com/dataflow/textprocessing/util/TextProcessingUtils.java:33 | what is left is a subsequence of the input |
| TextProcessingUtils.SanitizeContent | src/main/java/com/dataflow/textprocessing/util/TextProcessingUtils.java:33 | the output holds none of the five characters, keeps every other one as often as it occurs, in order |
| TextProcessingUtils.SanitizeIdempotent | src/main/java/com/dataflow/textprocessing/util/TextProcessingUtils.java:29-34 | sanitizing twice is sanitizing once |
| TextProcessingUtils.NormalizeWhitespace | src/main/java/com/dataflow/textprocessing/util/TextProcessingUtils.java:41-46 | null gives ""; otherwise the content collapsed to single spaces, then trimmed |
| TextProcessingUtils.NormalizeContent | src/main/java/com/dataflow/textprocessing/util/TextProcessingUtils.java:41-46 | the output has no whitespace but single spaces, none doubled, nothing ≤ U+0020 at either end |
| TextProcessingUtils.NormalizeIdempotent | src/main/java/com/dataflow/textprocessing/util/TextProcessingUtils.java:41-46 | normalizing twice is normalizing once |
| JavaLang.UpperChar | src/main/java/com/dataflow/textprocessing/service/impl/TextProcessingServiceImpl.java:105 | `Character.toUpperCase` leaves no lower-case letter, keeps word and whitespace classes, and fixes non-lower-case characters |
| JavaLang.LowerChar | src/main/java/com/dataflow/textprocessing/service/impl/TextProcessingServiceImpl.java:108 | `Character.toLowerCase` leaves no upper-case letter, keeps word and whitespace classes, and fixes non-upper-case characters |
| JavaLang.TrimStart | src/main/java/com/dataflow/textprocessing/service/impl/TextProcessingServiceImpl.java:352 | the leading part `trim()` removes is all characters ≤ U+0020, and what is left starts with a larger one |
| JavaLang.TrimEnd | src/main/java/com/dataflow/textprocessing/service/impl/TextProcessingServiceImpl.java:352 | the trailing part `trim()` removes is all characters ≤ U+0020, and what is left ends with a larger one |
| JavaLang.ToLowerAppend | src/main/java/com/dataflow/textprocessing/service/impl/TextProcessingServiceImpl.java:45 | lower-casing distributes over concatenation |
| Regex.FindAllFrom | src/main/java/com/dataflow/textprocessing/service/impl/TextProcessingServiceImpl.java:27-29 | the `find()` loop's matches are ordered, non-overlapping, inside the text, and each is a successful attempt |
| Regex.Pieces | src/main/java/com/dataflow/textprocessing/service/impl/TextProcessingServiceImpl.java:45 | `split` cuts the text into one piece more than there are matches |
| Regex.NonEmptyAppend | src/main/java/com/dataflow/textprocessing/service/impl/TextProcessingServiceImpl.java:46 | filtering empty strings distributes over concatenation |
| FixedPatterns.Runs | src/main/java/com/dataflow/textprocessing/service/impl/TextProcessingServiceImpl.java:147 | the maximal runs are non-empty and made of the class's characters only |
| FixedPatterns.Remove | src/main/java/com/dataflow/textprocessing/util/TextProcessingUtils.java:33 | deleting a class never lengthens the text and leaves none of its characters |
| FixedPatterns.LowerAll | src/main/java/com/dataflow/textprocessing/service/impl/TextProcessingServiceImpl.java:45 | each word lower-cased, in order |
| TextAnalysis.Lengths | src/main/java/com/dataflow/textprocessing/service/impl/TextProcessingServiceImpl.java:147-150 | `map(String::length)`: the length of each word, in order |
| CaseConversion.ToLowerJoin | src/main/java/com/dataflow/textprocessing/service/impl/TextProcessingServiceImpl.java:115 | lower-casing a joined text is joining the lower-cased parts |
| CaseConversion.DropFinalSpace | src/main/java/com/dataflow/textprocessing/service/impl/TextProcessingServiceImpl.java:111 | at most a final space is dropped |
| CaseConversion.SentenceReplacementDollar | src/main/java/com/dataflow/textprocessing/service/impl/TextProcessingServiceImpl.java:121-122 | the replacement built for the sentence "a$." is rejected with "Illegal group reference" |
| LineOperations.FirstIndex | src/main/java/com/dataflow/textprocessing/service/impl/TextProcessingServiceImpl.java:226 | the position of an element's first occurrence |
| LineOperations.Reversed | src/main/java/com/dataflow/textprocessing/service/impl/TextProcessingServiceImpl.java:243 | the list read back to front |
| LineOperations.ReversedPermutes | src/main/java/com/dataflow/textprocessing/service/impl/TextProcessingServiceImpl.java:243 | reversing keeps the same lines, as a multiset |
| LineOperations.ReversedSorted | src/main/java/com/dataflow/textprocessing/service/impl/TextProcessingServiceImpl.java:243 | an ascending list reversed is descending |
| LineOperations.DescendingSortExample | src/main/java/com/dataflow/textprocessing/service/impl/TextProcessingServiceImpl.java:243 | descending order puts the empty line last: ["a", "", "b"] gives ["b", "a", ""] |
| Formatting.MinusOne | src/main/java/com/dataflow/textprocessing/service/impl/TextProcessingServiceImpl.java:266 | the message of `repeat(-1)` is "count is negative: -1" |

## Left out

- **Threads and logging.** The asynchronous hop of `processBatchAsync` (`CompletableFuture.runAsync`) is modelled as the same loop run synchronously. Its result is the ordered list of callback invocations. Logging produces no observable result and is left out.
- **Clock and UUIDs.** The clock (`LocalDateTime.now()`) and the UUIDs are not deterministic, so they are parameters. A new document takes a `Creation`: its UUID and the constructor's two separate clock readings. A setter takes its one reading as `now`.
- **Callbacks.** The callback of `processBatchAsync` is modelled as stateless. Whether `onProgress` or `onError` throws depends only on the arguments of that call, and neither may change the documents or the result list. Java callbacks are arbitrary caller code, so the model does not cover:
  - a callback that keeps state between calls, for example one that throws only on its second `onError`;
  - a callback that edits a document with `setContent` while the loop runs; `RunBatch`'s statement about the results assumes no such edit.

  How an invocation ends is modelled in full: `onProgress` returns, throws an Exception (caught, and reported to `onError`) or throws another Throwable such as an `AssertionError` (not caught, so the task ends). Anything `onError` throws ends the task, whatever its class.
- **The regular-expression engine.** The engine is not modelled for caller-supplied patterns. `Compiler` yields an anchored matcher and a whole-match test for each pattern. The properties hold for every such engine. The service's fixed patterns are modelled exactly.
- **Capturing groups.** Group references in replacements are modelled as they behave for patterns without capturing groups: `$0` is the whole match, and any other digit fails with "No group n". Patterns with capturing groups are not modelled.
- **Unicode.** Only ASCII is modelled: letters for case mapping, and `\w` and `\s`. Java's full Unicode and locale-sensitive `toUpperCase`/`toLowerCase`, including `Character::toLowerCase` in the statistics, is not.
- **UTF-16.** A `string` here is a sequence of Unicode code points, whereas a Java `String` is a sequence of 16-bit UTF-16 units, in which a character above U+FFFF (an emoji, say) takes two units. For text with such characters, `length()`, `chars()`, `compareTo` and `hashCode` differ: `JavaLang.CompareTo` compares code points where Java compares surrogate units, so `sortLines` can order such lines differently; `TextAnalysis.Statistics` counts one character where Java counts two; `JavaLang.StringHashCode` hashes code points. For text without characters above U+FFFF the model is exact. Document ids are ASCII UUIDs, so `HashCode` and `equals` are not affected.
- **Null arguments.** `null` names, contents, patterns and modes passed to the service are not modelled. The null cases the code handles explicitly are modelled: a `null` document in a batch or passed to `processText`, and `null` inputs to the utility methods.
- **The `default` branch of `convertCase`.** A `CaseMode` value outside the four constants cannot be formed, so this branch is unreachable in the model.
- **`int` overflow.** Indentation depth and the counts are unbounded integers. Java's `int` overflow after 2^31 nested brackets or words is not modelled. `hashCode` does wrap to 32 bits.
- **`String.repeat` out of memory.** Its `OutOfMemoryError` for huge counts is not modelled.
- **Collections.** `HashMap` results are Dafny maps, with no iteration order. `LinkedHashSet` is modelled by its first-occurrence order. `groupingBy` counts are `nat`, not `Long`.
- **Documents.TextDocument.HashCode** states only that the result is in the `int` range. That equal documents hash alike is stated separately, by `Documents.EqualDocumentsHashAlike`.
- **PatternOperations.ValidatePattern** takes `Matcher.matches()` from the `Compiler` abstraction (`matchesWhole`), so it is not related to `find()`.
